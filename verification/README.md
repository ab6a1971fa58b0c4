# ivar, verified in Dafny

ivar drives feature work across repositories. Around its calls to git, agents and the network it has self-contained
algorithms whose guarantees its comments promise. This project models those algorithms and proves the guarantees for
every input, every run and every state.

- **Recurring requests** (`Order`, `Tokens`, `UnionFinds`, `Repetition`, `Grouping`, `Similarity`, `Automation`). Request texts are
  linked when their token sets overlap enough. The union-find over candidate pairs is proved to give the connected
  components of the similarity graph; the sweep over stored decisions is proved exact and idempotent.
- **Concurrency** (`Batch`, `FeatureUpdate`, `FeatureSerial`). `bounded_map` is a step system of workers, a ticket counter and a
  channel; `Feature::update` and the lock-free `Feature::read` are a step system of locks, reads, migrations,
  closures and writes. Both are proved over every interleaving.
- **Calendar and timestamps** (`Decimal`, `Calendar`, `Timestamps`). The conversions between day numbers and dates are
  inverse and real, and text order is time order as long as years have four digits.
- **Reconcilers** (`Commands`, `CommandInspection`, `SkillSync`, `SkillSteps`, `SkillState`, `Gitignore`). Directory and plan reconcilers converge, report
  exactly what they change, and leave the user's files alone.
- **Texts** (`Text`, `Segments`, `SegmentsHeredoc`, `Json`, `DeliveryEvents`, `DeliveryBodies`, `Secrets`,
  `SecretLines`, `AgentSecrets`, `Frontmatter`, `AgentNotify`, `Urls`, `UrlReading`, `TreeHash`, `TreeFraming`,
  `TreeOrder`, `PlanCommands`, `PlanWords`, `PlanFences`, `PlanReport`). Splitters, printers and parsers, with their
  round trips, size bounds and simulations.
- **Git settings** (`Protect`). The config commands of branch protection, stopped and made again at any point.

The shape follows the source: loops are methods proved against a specification function, objects that change are
classes, expressions are functions, and protocols are step relations. A file is an optional text, a directory a map
from name to bytes, git config a record of settings. SHA-256, YAML, user closures, the lister of similar texts, the
alphanumeric test and git's reading of booleans are parameters, so each theorem holds for every choice of them.

## What the proofs found

- Timestamps sort as text only up to the year 9999 (`Timestamps.OrderedWhileFourDigits`); the first instant of the year
  10000 sorts before the last of 9999 (`Timestamps.FiveDigitsSortFirst`). The comments at `src/domain/session.rs:148-158`
  promise the order without that limit.
- A sweep is idempotent because groups are disjoint; in general it is so exactly when every group that meets the texts
  around some text lies within them (`Automation.SweepIsIdempotentIff`), and overlapping groups can fail that
  (`Automation.OverlapNeedsAnotherSweep`).
- `AgentSecrets::set_and_write` does not check the name. It sets the key exactly when the name is a valid key
  (`AgentSecrets.AgentFile.SetAndWrite`); `#A` is written, reported as created, and never read back
  (`AgentSecrets.CommentNameIsLost`).
- `Feature::update` writes to the file the record names, under the lock of the name it was called with. A closure that
  gives the record another name can lose another call's update (`FeatureSerial.RenamingLosesAnUpdate`); that, and files
  of an older version, are all that breaks seriality (`FeatureSerial.SerialIff`).
- Reading a feature file of an older version stores it migrated. So a refused update still writes, against
  `src/store/feature.rs:113` (`FeatureSerial.RefusedCallRewrites`), and a read without the lock can undo a concurrent
  update (`FeatureSerial.ReaderLosesUpdate`).
- `protect_default_branch` migrates only a `core.bare` spelled `true`; any other true spelling stays shared
  (`Protect.NothingInheritsIff`, `Protect.OtherSpellingStays`). A dormant `config.worktree` with `core.bare=false` makes
  the repository read as not bare after the first command (`Protect.AlwaysBareIff`).
- The skill plan depends on hash order when two removals of one skill are recorded at the same path
  (`SkillSync.PlanIsDetermined`).
- `with_notify` loses stray carriage returns in files with plain line ends (`AgentNotify.NotifyKeepsTheRest`), and
  `ensure` does at the end of a `.gitignore` (`Gitignore.OnlyMissingAdded`).
- An authorization endpoint with a query of its own gives a URL whose query a reader that splits at the first `?` does
  not find (`Urls.QueryFoundIff`).
- Two trees can give the same hashed text when a path embeds a digest and the end of its line
  (`TreeFraming.OneFileCollidesIff`).
- The hashed lines are sorted by path component, where `src/infra/hash.rs:43-45` documents the order of the whole path;
  the two differ on `a/c` and `a-b` (`TreeOrder.DocumentedOrderIff`, `TreeOrder.DashComesLater`).

## Model

| member | source | states |
|---|---|---|
| Tokens.Scan | src/domain/repetition.rs:57-88 | the loop computes the token set that the specification gives for the text |
| Tokens.TokensAreExact | src/domain/repetition.rs:57-88 | a string is a token exactly when it is a whole run of letters and digits of the text, or a placeholder standing in it; nothing is missed or invented |
| Tokens.PlaceholdersFit | src/domain/repetition.rs:30 | the four placeholders meet what the scan's exactness needs of them |
| Repetition.AlikeSymmetric | src/domain/repetition.rs:90-99 | similarity is symmetric |
| Repetition.AlikeShareToken | src/domain/repetition.rs:19 | similar token sets share a token, so a lister that offers every text sharing a token is complete |
| Similarity.AlikeIff | src/domain/repetition.rs:90-99 | two token sets are similar exactly when they share a token and, for every three tokens only one of them has, have two in common |
| Similarity.Boundary | src/domain/repetition.rs:19 | with three tokens in common, two others leave the texts similar and three do not |
| UnionFinds.RootIsLeast | src/domain/repetition.rs:252-275 | the representative of a class is its least member |
| UnionFinds.HalvingKeepsRoots | src/domain/repetition.rs:252-265 | path halving changes no element's representative |
| UnionFinds.LinkingMerges | src/domain/repetition.rs:267-275 | linking one root under a lesser one merges exactly their two classes |
| UnionFinds.MergedClasses | src/domain/repetition.rs:267-275 | merging is the least coarsening that puts the two elements together |
| UnionFinds.UnionFind.constructor | src/domain/repetition.rs:246-250 | every element starts as a class of its own |
| UnionFinds.UnionFind.Find | src/domain/repetition.rs:252-265 | returns the least member of the class and leaves every class as it was; parents stay at or below their children |
| UnionFinds.UnionFind.Union | src/domain/repetition.rs:267-275 | merges exactly the two classes, the lesser representative standing for both |
| Repetition.Seeds | src/domain/repetition.rs:198-206 | the seeds are the distinct non-empty texts in order, each with its members |
| Repetition.Link | src/domain/repetition.rs:209-225 | for every lister, the forest joins exactly the components of the judged pairs; the first error ends the call |
| Repetition.GroupPrints | src/domain/repetition.rs:194-239 | for every lister, the result is the components of the pairs it leaves to judge, each group most recent first and the groups in order of their least text; an error is the first the lister gave |
| Repetition.ForestIsGrouping | src/domain/repetition.rs:226-239 | a sound and joined forest, read out class by class, is the grouping |
| Grouping.SameComponents | src/domain/repetition.rs:209-225 | judged pairs and all similar pairs have the same components exactly when the judged pairs join every similar pair |
| Grouping.CompleteJoinsSimilar | src/domain/repetition.rs:185-193 | a lister that offers every similar text joins every similar pair, whatever else it offers, though each pair is judged from one side only |
| Grouping.GroupsAreSimilarityComponents | src/domain/repetition.rs:194-239 | the groups are the connected components of the full similarity graph exactly when the judged pairs join every similar pair |
| Grouping.DisjointTexts | src/domain/repetition.rs:194-239 | groups have pairwise disjoint texts |
| Grouping.NothingLostOrDuplicated | src/domain/repetition.rs:194-239 | the groups together hold every fingerprint with a text as often as it was given, and no other |
| Grouping.RecentFirstUnique | src/domain/repetition.rs:49-51 | fingerprints with distinct ids have one arrangement that is most recent first |
| Grouping.OrderIndependent | src/domain/repetition.rs:194-239 | with distinct ids, the result does not depend on the order of the input |
| Grouping.GroupsDependOnlyOnPrints | src/domain/repetition.rs:194-239 | with distinct ids, any two orders and any two complete listers give the same groups |
| Similarity.TogetherIffChained | src/domain/repetition.rs:194-239 | with a complete lister, two fingerprints are in one group exactly when a chain of texts of the input joins theirs, each text sharing two tokens with the next for every three not shared |
| Similarity.TwoTextsOneGroupIff | src/domain/repetition.rs:209-225 | two fingerprints with different texts form one group exactly when their tokens share that much |
| Similarity.NewestFirst | src/domain/repetition.rs:110-114 | within a group a later day comes first, and on one day a higher id |
| Automation.PlanSweep | src/domain/automation.rs:168-195 | the loops compute the specified plan |
| Automation.AppliedIsSwept | src/action/automation/sweep.rs:44-50 | applying the plan to the store does to each decision what its own verdict says |
| Automation.SweepIsIdempotentIff | src/domain/automation.rs:168-195 | for all stored decisions with distinct ids, sweeping the swept store again on the same day plans nothing, exactly when every group that meets the texts around some text lies within them |
| Automation.OpenStarNeedsAnotherSweep | src/domain/automation.rs:168-195 | any group that breaks the condition leaves one declined decision unsettled |
| Automation.DisjointIsClosed | src/domain/automation.rs:168-195 | disjoint groups meet the condition |
| Automation.SweepOfGroupsIsIdempotent | src/action/automation/sweep.rs:31-56 | a sweep fed by the grouping is idempotent, with groups formed only when some decision reads them |
| Automation.OverlapNeedsAnotherSweep | src/domain/automation.rs:168-195 | overlapping groups can leave work for a second sweep |
| Automation.SweepVerdicts | src/domain/automation.rs:168-195 | accepted decisions are untouched; a declined one is deleted exactly when no group meets its texts, a deferred one exactly when its day has passed; texts are added only from groups it meets, and a kept one gets them all |
| Automation.NeedsGroupsIsExact | src/domain/automation.rs:150-160 | groups are called for exactly when some two sets of groups give different plans |
| Batch.StepInv | src/action/batch.rs:36-84 | every step of any thread keeps the protocol's invariant |
| Batch.StepDecreases | src/action/batch.rs:36-84 | every step lowers the measure, so every run ends |
| Batch.NeverStuck | src/action/batch.rs:36-84 | some thread can move exactly until the call is done |
| Batch.DoneIsComplete | src/action/batch.rs:66-84 | when the call is done the sorted results are the outcomes in order of index |
| Batch.EveryRunIsOrderly | src/action/batch.rs:16-84 | in every interleaving each index is claimed at most once; at most `limit` items run at once, one where the limit is 0, and never more than there are; the run is bounded, and one that can go no further returns item `i`'s outcome at place `i` |
| Batch.BoundIsReached | src/action/batch.rs:26-44 | some schedule runs exactly `limit` items at once, one where the limit is 0, and all where there are no more |
| Batch.BoundedMapIsMap | src/action/batch.rs:16-84 | on every schedule the result has one entry per item, each its own outcome or panic failure |
| Batch.OutcomesAreTheCalls | src/action/batch.rs:48-63 | a value or failure comes back as the closure gave it, a panic as a failure of its own item with the message of a text payload |
| Batch.FeatureBatchPairs | src/action/batch.rs:94-112 | every feature is reported once, in order, with the outcome of its own call |
| FeatureUpdate.StepInv | src/store/feature.rs:121-135 | every step of any call or lock-free read keeps the invariant of locks, records and the log of writes, whatever names the records bear at the start |
| FeatureUpdate.UpdatesAreSerial | src/store/feature.rs:121-135 | every interleaving leaves the files that the successful closures leave when run one after another in lock order, each returning what it returns there; failed calls change nothing; needs closures that give the record the name of the feature asked for, and no file older than the current version |
| FeatureUpdate.NeverStuck | src/store/feature.rs:121-135 | in every run, as long as a call has not ended, some call can move |
| FeatureSerial.SerialIff | src/store/feature.rs:121-135 | whatever files a run may start with, every run is serial exactly when closures give their records the name of the feature asked for and no file that is read may be older |
| FeatureSerial.SerialIffNamesKept | src/store/feature.rs:121-135 | with current files under their own names, every run is serial exactly when no closure renames a record of its feature |
| FeatureSerial.SerialIffNamesSet | src/action/feature/rename/steps.rs:261-272 | with current files under any names, as after a directory was renamed, every run is serial exactly when every closure sets the name of the feature asked for |
| FeatureSerial.SerialIffUpToDate | src/store/versioned/mod.rs:339-347 | from given files, every run of calls and reads is serial exactly when no file that is read is older than the current version |
| FeatureSerial.RefusedCallRewrites | src/store/feature.rs:113-133 | a refused call leaves an older file rewritten in its migrated form |
| FeatureSerial.ReaderLosesUpdate | src/store/versioned/mod.rs:339-347 | a lock-free read of an older file can put the old record, migrated, over an update that succeeded |
| FeatureSerial.OneAtATimeIsAlone | src/store/feature.rs:121-135 | a run with one call at work at a time ends in the files its successful calls leave alone |
| FeatureSerial.RenamingLosesAnUpdate | src/store/feature.rs:103-107 | with a closure that renames its record, two calls succeed in files in which no run with one call at work at a time ends |
| Decimal.PaddedIsFixed | src/domain/session.rs:212-222 | a number that fits is padded to exactly its last digits |
| Decimal.FixedOrder | src/domain/session.rs:212-222 | numerals of one width compare as their numbers do |
| Calendar.CivilIsReal | src/domain/session.rs:277-297 | every integer day number gives a real Gregorian date, and that date counts back to the day |
| Calendar.RealSurvives | src/domain/session.rs:264-275 | every real date survives the trip through its day number |
| Calendar.CountsDays | src/domain/session.rs:264-275 | day 0 is 1970-01-01 and the next date is the next day |
| Timestamps.TextOrderIsTimeOrder | src/domain/session.rs:212-222 | for years of four digits, printed timestamps compare as strings exactly as (seconds, nanoseconds) do |
| Timestamps.OrderedWhileFourDigits | src/domain/session.rs:148-158 | text order is time order on all instants up to a limit exactly when the limit's year has four digits |
| Timestamps.FiveDigitsSortFirst | src/domain/session.rs:212-222 | the first instant of the year 10000 sorts before the last of 9999 |
| Timestamps.ParsePrinted | src/domain/session.rs:228-262 | parsing a printed timestamp gives back its whole seconds |
| Timestamps.IsDayExact | src/domain/automation.rs:199-221 | `is_day` accepts exactly the real dates from 1970-01-01 to 9999-12-31, written `YYYY-MM-DD` |
| Commands.IvarIdInverse | src/harness/commands.rs:417-422 | a file name carries an id exactly when it is that id's shipped file name |
| Commands.Directory.Materialise | src/harness/commands.rs:158-240 | the directory becomes the reconciled one, and the report is the writes and removals |
| Commands.Directory.WriteShipped | src/harness/commands.rs:158-200 | the loop writes the shipped commands that are missing or differ and reports each |
| Commands.Directory.Prune | src/harness/commands.rs:200-240 | the loop removes exactly the unwanted files |
| Commands.Directory.Remove | src/harness/commands.rs:247-295 | removes every reserved file and no other, and the directory when it is left empty |
| Commands.Directory.Inspect | src/harness/commands.rs:303-381 | changes nothing and returns the specified inspection |
| Commands.ReconciledFile | src/harness/commands.rs:158-240 | afterwards each file is the shipped content, absent when reserved or an official legacy file, and otherwise byte for byte what it was |
| Commands.SecondPassIsIdle | src/harness/commands.rs:158-240 | a second pass writes and removes nothing and reports every command unchanged |
| Commands.ReportIsTheDifference | src/harness/commands.rs:158-240 | the report has an entry for a file exactly when the directory before and after differ in it that way, plus unchanged shipped files |
| Commands.InspectionAfterMaterialise | src/harness/commands.rs:303-381 | after materialising, inspection lists every shipped command as current, the kept legacy files as modified, and nothing else |
| CommandInspection.InspectionForeseesThePass | src/harness/commands.rs:303-381 | in any directory, an enabled provider's command is listed missing, modified or current exactly when a pass over that directory reports it created, updated or unchanged |
| CommandInspection.ShippedStandsAs | src/harness/commands.rs:303-357 | missing, modified and current are: no such file, other content, the shipped content |
| CommandInspection.LegacyListed | src/harness/commands.rs:359-381 | a file is listed as a modified legacy command exactly when it has a command's legacy name and not its official digest |
| CommandInspection.StaleListed | src/harness/commands.rs:359-381 | a file of an enabled provider is listed stale exactly when its name is reserved and a pass removes it |
| CommandInspection.OthersAreShipped | src/harness/commands.rs:303-381 | whatever else is listed is a shipped command under its own file name |
| CommandInspection.AbsentIsMissing | src/harness/commands.rs:303-357 | without a directory every command is missing and nothing else is listed |
| CommandInspection.ShippedInOrder | src/harness/commands.rs:303-357 | every command is listed once, in the order of the catalog |
| CommandInspection.OthersInOrder | src/harness/commands.rs:359-381 | the other files follow once each, in name order |
| CommandInspection.ReportNamesItsCommand | src/harness/commands.rs:158-240 | an entry of a pass's report carries the id of its file's command |
| Commands.DisabledListsWhatRemoveDeletes | src/harness/commands.rs:247-381 | inspecting a disabled provider lists exactly the files `remove` deletes, all stale |
| Segments.Segments | src/providers/search.rs:90-153 | the scanning loop computes the slices of the step function, in both modes |
| Segments.SlicesAreGood | src/providers/search.rs:90-153 | slices are in bounds, ordered and apart, start and end outside quotes and escapes, end only at a separator or the end, and hold no separator |
| Segments.NothingDropped | src/providers/search.rs:86-153 | `command_segments` drops only separators, comments, blanks, and what follows a here-document's line |
| Segments.FirstCommandsAreHeads | src/providers/search.rs:80-153 | `first_commands` yields exactly the slices of `command_segments` that no pipe leads into |
| Segments.FirstCommandsSubsequence | src/providers/search.rs:80-153 | the slices of `first_commands` are a subsequence, by position, of those of `command_segments` |
| SegmentsHeredoc.StopsAtHeredoc | src/providers/search.rs:90-153 | in both modes, no slice begins or ends behind an unquoted newline when an unquoted `<<` outside every `<<<` opened a here-document before it; otherwise a slice begins right behind that newline |
| SegmentsHeredoc.SeparatorIff | src/providers/search.rs:111-145 | the characters that cut a command line, by the text alone: pipes, semicolons, newlines, comments behind white space, and ampersands no `>` touches |
| SegmentsHeredoc.OpensHeredocIff | src/providers/search.rs:71-78 | what follows a `<<` opens a document exactly when, behind dashes and then white space, a name or its quote begins |
| Json.BoundedCompose | src/domain/delivery_event.rs:126-143 | bounding twice is bounding once by the smaller of each pair of limits |
| Json.LiteralRoundTrip | src/store/mcp_secrets.rs:211-213 | reading a written string literal (section 7 of RFC 8259) gives back the string, whatever it holds |
| DeliveryEvents.WithinByteBound | src/domain/delivery_event.rs:146-158 | the loops end and return the first form in the halving sequence that fits, or the last |
| DeliveryEvents.EveryBodyFits | src/domain/delivery_event.rs:146-158 | for every event and scope the first fitting form comes within eight halvings of the text limit, so the body fits and lists are never cut further |
| DeliveryEvents.BodyText | src/domain/delivery_event.rs:194-203 | the body is at most 4000 bytes for texts and lists of any length, and is the first form that fits |
| DeliveryBodies.BodyHolds | src/domain/delivery_event.rs:194-203 | a body holds each of the event's fields with texts cut to 200 characters and lists to 10 items, the branch and head where the event does not set them, and nothing else, keys in order |
| DeliveryBodies.TextDenotes | src/domain/delivery_event.rs:147 | what is written for any value is JSON (sections 3 to 7 of RFC 8259) for that value |
| DeliveryBodies.FewestBytes | src/domain/delivery_event.rs:149 | lengths count the fewest UTF-8 bytes that hold each code point |
| Secrets.Parse | src/store/mcp_secrets.rs:128-192 | the loop returns the entries, or the first refused line with its number and reason |
| Secrets.Render | src/store/mcp_secrets.rs:198-209 | the loop writes the entries in key order, a line each |
| Secrets.RenderedRoundTrip | src/store/mcp_secrets.rs:128-209 | parsing the rendered file gives back the entries, for any values under valid keys |
| SecretLines.PairSays | src/store/mcp_secrets.rs:128-192 | `KEY=plain` gives the key that very text; a bad name, a name said twice and an unclosed quote are each refused with the line's number |
| SecretLines.OtherLineSays | src/store/mcp_secrets.rs:128-192 | blank lines and comments say nothing, and a line without `=` is refused with its number |
| SecretLines.ValidKeys | src/store/mcp_secrets.rs:215-225 | a key is ASCII letters, digits and underscores, no digit first |
| SecretLines.ChangeSays | src/store/mcp_secrets.rs:73-99 | a change is reported unchanged exactly when it leaves the entries as they are, and created exactly when it adds a key |
| Secrets.ParsedKeysValid | src/store/mcp_secrets.rs:128-192 | every key read from any file is valid |
| Secrets.McpFile.SetAndWrite | src/store/mcp_secrets.rs:73-99 | sets one key and no other; an invalid name or an unreadable file is refused and the file left alone; an equal value writes nothing |
| Secrets.McpFile.RemoveAndWrite | src/store/mcp_secrets.rs:106-117 | takes out one key and no other, and the file with the last |
| AgentSecrets.ReplacedBetween | src/store/agent_secrets.rs:81-88 | replacing the first line that sets a key replaces that value in what is read, and nothing else |
| AgentSecrets.OtherLinesKept | src/store/agent_secrets.rs:79-91 | every other line stays in place and in order, comments and blank lines included, up to a stray carriage return |
| AgentSecrets.RewrittenReads | src/store/agent_secrets.rs:72-94 | reading the edited file gives the old entries with the one key set |
| AgentSecrets.AgentFile.SetAndWrite | src/store/agent_secrets.rs:72-94 | refusals write nothing; the file is the edited text; on a readable file the key holds the value afterwards exactly when the name is a valid key |
| AgentSecrets.CommentNameIsLost | src/store/agent_secrets.rs:72-94 | the name `#A` is reported created and not read back |
| Frontmatter.Split | src/infra/frontmatter.rs:112-146 | the cursor loop computes the specified split |
| Frontmatter.SplitOutcomes | src/infra/frontmatter.rs:112-146 | no front matter, an unterminated fence, or a block: each exactly when the fence lines say so |
| Frontmatter.SplitIsLossless | src/infra/frontmatter.rs:112-146 | fence line, block, fence line and body reassemble the source |
| Frontmatter.DocumentSplits | src/infra/frontmatter.rs:112-146 | a document splits into exactly its block and body, with either line end |
| Frontmatter.Replace | src/infra/frontmatter.rs:203-223 | the pushes build the new block between fences above the old body |
| Frontmatter.ReplacedSplits | src/infra/frontmatter.rs:203-223 | splitting the result gives the new block and the old body byte for byte, exactly when no line of the block is a fence |
| Frontmatter.LaterReplaceWins | src/infra/frontmatter.rs:203-223 | a later replacement overrides an earlier one completely |
| AgentNotify.WithNotify | src/store/agent.rs:94-118 | the line edit computes the specified file or the specified failure |
| AgentNotify.NotifyKeepsTheRest | src/store/agent.rs:94-118 | the edited file has the edited lines and the old body exactly when no line breaks, and none ends in a carriage return that plain line ends would swallow |
| AgentNotify.NotifyIsIdempotentIff | src/store/agent.rs:94-118 | setting the same value again changes nothing, exactly when the value holds no newline and, with plain line ends, no other line ends in a carriage return |
| SkillSync.PlanOrphans | src/domain/skill_sync.rs:194-224 | in any iteration order the loops give one removal for each recorded pair that is undeclared or unavailable |
| SkillSync.PlanWithOptions | src/domain/skill_sync.rs:166-192 | the result is the target steps and the removals, stably sorted |
| SkillSync.SortIsStable | src/domain/skill_sync.rs:188-190 | under each sort key the steps keep their order |
| SkillSync.PlanIsDetermined | src/domain/skill_sync.rs:166-224 | the plan is the same for every hash order exactly when removals of one skill have different paths |
| SkillSync.PlanCovers | src/domain/skill_sync.rs:150-192 | every declared target and every orphan has exactly one step, no other pair has any, and no pair is both written and removed |
| SkillSync.PlanMembers | src/domain/skill_sync.rs:166-224 | the steps of a plan are the planned targets and the orphans' removals |
| SkillSteps.TargetIsPlanned | src/domain/skill_sync.rs:226-307 | a declared target has a step for its own path and source in the mode of the last skill of the name: nothing when pinned to its commit or recorded and right, created when absent or right but unrecorded, else updated |
| SkillSteps.ReasonIs | src/domain/skill_sync.rs:226-307 | the reason of a step, on the target's status and what is recorded of it |
| SkillSteps.RemovalIsRecorded | src/domain/skill_sync.rs:194-224 | a removal is at the path and in the mode recorded for its pair, its source the declared directory or else the recorded one |
| SkillSync.RemovedIffOrphan | src/domain/skill_sync.rs:194-224 | a recorded pair is removed exactly when it is undeclared or unavailable |
| SkillSync.AllUnchangedIff | src/domain/skill_sync.rs:226-307 | nothing is to be done exactly when nothing is orphaned and every declared target is at a recorded commit, or in place and recorded in its mode |
| SkillState.StateFiles.PersistSyncState | src/action/skill/sync.rs:193-232 | the two state files, merged again, are the old state with the steps that succeeded recorded; no declared skill is written to the other root's file, and an empty file is dropped |
| SkillState.SplitIsLossless | src/action/skill/sync.rs:250-286 | splitting a state over the two files and merging them loses nothing |
| SkillState.PlanWritesDeclared | src/action/skill/sync.rs:193-217 | a plan records declared skills only, which is what the split needs |
| SkillState.PersistedRecord | src/action/skill/sync.rs:321-361 | recording a step changes the record of its own pair, to the step's mode or to none, and of no other |
| SkillSteps.WrittenEntry | src/action/skill/sync.rs:321-349 | writing a target records its path, mode, source and hash, and keeps the commit, the other targets and the other skills |
| SkillSteps.RemovedEntry | src/action/skill/sync.rs:352-361 | removing a target forgets it, and the skill with its last target; everything else recorded stays |
| SkillSteps.LocalWins | src/action/skill/sync.rs:258-267 | of a skill in both state files the local entry counts |
| SkillState.OnlyFailuresAreRedone | src/action/skill/sync.rs:72-128 | whichever steps failed, the next sync has something to do only for a pair whose step failed or whose target is not in place after all |
| Gitignore.IgnoreFile.Ensure | src/store/gitignore.rs:36-65 | the loop leaves the file with the lines made sure of, and reports created, changed or unchanged truly |
| Gitignore.OriginalIsPrefix | src/store/gitignore.rs:36-65 | the user's text stays byte for byte at the start of the file |
| Gitignore.AllPresent | src/store/gitignore.rs:36-65 | every required line ends up as a line of its own |
| Gitignore.OnlyMissingAdded | src/store/gitignore.rs:36-65 | the lines are the old ones and then just the missing ones, exactly when nothing is missing or no bare carriage return ends the file |
| Gitignore.SecondCallIsIdle | src/store/gitignore.rs:36-65 | a second call changes nothing |
| Protect.Repository.ProtectDefaultBranch | src/git/protect.rs:102-161 | the commands leave the config of one whole run and the wanted hook, and the answer says whether the hook was there |
| Protect.ProtectedIs | src/git/protect.rs:102-161 | what one whole call changes in the config, and that other worktrees' settings stay |
| Protect.AlwaysBareIff | src/git/protect.rs:107-137 | the repository reads as bare in every state of every stopped and repeated run exactly when it does at the start and no dormant setting of its own says otherwise |
| Protect.RerunsConverge | src/git/protect.rs:102-161 | from any stop, making the call again reaches the config of one undisturbed call |
| Protect.NothingInheritsIff | src/git/protect.rs:85-100 | afterwards no present or future worktree inherits bareness, exactly when the shared value was not a true spelling other than `true` |
| Protect.WorktreesReadTheirOwn | src/git/protect.rs:85-100 | each linked worktree then reads as its own setting says |
| Protect.OtherSpellingStays | src/git/protect.rs:119-130 | a shared `core.bare=yes` is left to be inherited |
| Protect.HooksStay | src/git/protect.rs:73-82 | whatever is written into the shared hooks path later, the default worktree keeps these hooks and the others follow the shared value |
| Protect.QuotedIsOneWord | src/git/protect.rs:43-45 | a POSIX shell reads the quoted text as exactly the value, no character of it unquoted |
| Urls.EncodeComponent | src/infra/url.rs:6-21 | the byte loop computes the specified encoding in both space modes |
| Urls.UrlDecode | src/infra/http_callback.rs:495-525 | the index loop computes the specified decoding, malformed escapes included |
| Urls.EncodedDecodes | src/infra/url.rs:6-21 | decoding an encoded component gives it back, for all bytes and both space modes |
| UrlReading.ReadByteByByte | src/infra/http_callback.rs:495-525 | a plus reads as a space and any other byte as itself, the `%` of a malformed escape included |
| UrlReading.EscapeReads | src/infra/http_callback.rs:495-535 | two hex digits of either case behind a `%` read as the byte of their value |
| UrlReading.WrittenAsItIs | src/infra/url.rs:6-21 | exactly the unreserved characters are written as they are |
| Urls.ParseQuery | src/infra/http_callback.rs:455-466 | the loop fills the specified map, a later parameter winning |
| Urls.QueryRoundTrip | src/infra/oauth.rs:155-162 | reading a query gives back the parameters it was written from |
| Urls.AuthorizeUrl | src/infra/oauth.rs:132-163 | the URL is the endpoint and the encoded parameters, and with no `?` in the endpoint what follows the first `?` is read as exactly the parameters |
| Urls.RequestReadsBack | src/infra/oauth.rs:132-163 | the query of an authorization URL is read as exactly its parameters, each with its value and no other |
| Urls.QueryFoundIff | src/infra/oauth.rs:163 | splitting the URL at the first `?` finds the query exactly when the endpoint has no `?` |
| Urls.RedirectGivesCode | src/infra/http_callback.rs:393-438 | a redirect with a code and a state gives that code exactly when the state is the expected one |
| TreeHash.Tree | src/infra/hash.rs:171-203 | from any walk, the loops build the text of the regular files' lines in component order |
| TreeHash.FramingIsUnique | src/infra/hash.rs:171-203 | the hashed text does not depend on the order of the walk |
| TreeFraming.FramingIsInjective | src/infra/hash.rs:171-203 | trees with hexadecimal digests whose paths, newlines and all, embed no end of a line have different texts when they differ |
| TreeFraming.OneFileCollidesIff | src/infra/hash.rs:194-201 | another tree has the text of a one-file tree exactly when the file's path reads as a line and the path of a later file |
| TreeOrder.DocumentedOrderIff | src/infra/hash.rs:43-45 | the hashed text is the one sorted by whole path, as documented, exactly when no two paths part where one enters a directory and the other goes on with a character before `/` |
| TreeOrder.OrdersAgree | src/infra/hash.rs:192 | component order and string order agree on any other two paths |
| TreeOrder.DashComesLater | src/infra/hash.rs:192 | the code puts `a/c` before `a-b`, the documented order after it |
| PlanCommands.ScanShellCommands | src/domain/plan_commands.rs:73-156 | the line loop computes the specified scan |
| PlanCommands.EveryDirStaysInside | src/domain/plan_commands.rs:73-189 | for every plan, every reported directory is relative and free of `..` |
| PlanCommands.NothingAfterLost | src/domain/plan_commands.rs:96-116 | once the scan has no directory, its block reports no more: not in the rest of the line, nor in any later line |
| PlanWords.WordsIff | src/domain/plan_commands.rs:109 | a segment has these words exactly when it is written with them, white space between and around |
| PlanWords.SegmentEndsAtAnd | src/domain/plan_commands.rs:105 | `&&` ends a segment |
| PlanWords.SegmentEndsAtSemicolon | src/domain/plan_commands.rs:105 | `;` ends a segment |
| PlanWords.NamesIff | src/domain/plan_commands.rs:173-189 | a target is taken, as the path behind its `./`s, exactly when that has no shell character, is not absolute, has no leading dash and no `..`, and is neither under `.ivar` nor in a declared repository |
| PlanWords.PushAppends | src/domain/plan_commands.rs:113 | entering a path puts its components behind those of the directory |
| PlanFences.ParseMarkerIff | src/domain/plan_commands.rs:60-70 | a marker is a run of three or more backquotes or tildes, and all of the run |
| PlanFences.CommandLinesAre | src/domain/plan_commands.rs:75-104 | the lines read as commands are exactly those in a block that a shell fence outside any other block opens and no fence of the same mark and at least its length has closed |
| PlanFences.CommandsStandRight | src/domain/plan_commands.rs:75-156 | every command reported stands on such a line and carries the number of its shell block |
| PlanReport.EffectIs | src/domain/plan_commands.rs:109-156 | what a segment enters, loses or reports, on its words: `cd`, `mkdir` and `mkdir -p` with one literal path, and a runner's script without a workspace flag |
| PlanReport.SegmentFollows | src/domain/plan_commands.rs:105-156 | on a command line whose directory is known, a segment adds the one report its words call for and moves the directory, keeps it or loses it |
| PlanReport.BeginsAtRoot | src/domain/plan_commands.rs:82-91 | a shell block begins in the repository's root |
| PlanReport.LinesFollow | src/domain/plan_commands.rs:100-156 | each line of a block goes on in the directory where the line before it ended |
| PlanReport.EnteredThenReported | src/domain/plan_commands.rs:105-156 | after `cd a`, `mkdir b` is reported as `a/b` and `npm run s` as script `s` in `a`, in any plan |
| PlanReport.NothingAfterCd | src/domain/plan_commands.rs:117-122 | from a segment on that begins with `cd` and is not a `cd` into one literal path of the repository, its block reports nothing, however the plan goes on |

## Left out

- TreeFraming.FramingIsInjective: for trees of several files whose paths embed the end of a line, which pairs collide is characterised for a one-file tree only.
- SkillState.OnlyFailuresAreRedone: what rendering leaves at a target after a step is not modelled; a failed write of a state file, which the code reports as a warning, is not either.
- Gitignore.AllPresent: required lines hold no newline and end in no carriage return, as the lines the program passes do.
- Secrets.RenderedRoundTrip: needs valid keys, which every entry that was read or set has.
- Commands.Directory.Materialise: catalog ids are distinct and none starts with `ivar-`, as in the shipped catalog; sub-directories whose names end in `.md` and I/O failures midway are not modelled.
- Protect.RerunsConverge: config keys only; the hook's mode bit, a failed read of the shared value and other writers of the config in between are not modelled.
- Timestamps.ParsePrinted: integers are unbounded, so overflow of 64-bit arithmetic on absurd years is not modelled.
- Urls.EncodedDecodes: strings are their UTF-8 bytes; `from_utf8_lossy` is a parameter that leaves valid UTF-8 alone.
- Floating point: Jaccard similarity is the rational test 5·|∩| >= 3·|∪|; rounding of the `f64` quotient and `rfc3339_from_epoch_secs` are not part of this model.
- Segments, front matter, plans and secrets work on characters, where the code cuts strings at byte offsets; every cut stands at an ASCII character.
- `Group::is_candidate`, `samples`, `days` and the other accessors, `importance`, and `utc_calendar_from_epoch_secs`: settled by reading one body.
- What `feature_v2_to_v3` and `approvals_v1_to_v2` do to a value, and the validation after `with_notify` and `set_notify`: edits of JSON or YAML values with nothing across steps.
- `render_env_file` and `AgentSecrets::select`: each is one expression over the entries.
- The store's SQL is modelled by its effect on a list of decisions; file locks, atomic file replacement, YAML, SHA-256 and the walk of the file system are assumed to do what their callers rely on.
- The command line, git and network calls, browsers, sockets and services: wrappers without an invariant of their own.
