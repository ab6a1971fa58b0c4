/** Protecting a default branch: the git settings step by step, and the quoting of the branch name. */
module Protect {
  import opened Results
  import opened Text

  // ----- git settings -----

  /** What a linked worktree's own config file says. */
  datatype Worktree = Worktree(bare: Option<string>, hooksPath: Option<string>)

  /** The shared config, the bare repository's own worktree config, and those of the linked worktrees. */
  datatype Config = Config(extension: bool, sharedBare: Option<string>, ownBare: Option<string>,
                           sharedHooks: Option<string>, linked: map<string, Worktree>)

  /** The value git uses: a worktree's own config counts only under `extensions.worktreeConfig`. */
  function Effective(c: Config, own: Option<string>, shared: Option<string>): Option<string>
  {
    if c.extension && own.Some? then own else shared
  }

  /** How git reads a setting as a boolean; only that `true` is true matters here. */
  type Truth = string -> bool

  predicate Holds(truth: Truth, value: Option<string>)
  {
    value.Some? && truth(value.value)
  }

  /** The bare repository reads as bare. */
  predicate ReadsBare(truth: Truth, c: Config)
  {
    Holds(truth, Effective(c, c.ownBare, c.sharedBare))
  }

  /** A worktree with this config reads as bare. */
  predicate WorktreeReadsBare(truth: Truth, c: Config, w: Worktree)
  {
    Holds(truth, Effective(c, w.bare, c.sharedBare))
  }

  /** A worktree added now, without a setting of its own, would read as bare. */
  predicate WouldInherit(truth: Truth, c: Config)
  {
    WorktreeReadsBare(truth, c, Worktree(None, None))
  }

  /** `git config --worktree`: without the extension it writes the shared config. */
  function SetOwnBare(c: Config, value: string): Config
  {
    if c.extension then c.(ownBare := Some(value)) else c.(sharedBare := Some(value))
  }

  function SetHooks(c: Config, worktree: string, path: string): Config
  {
    if !c.extension then c.(sharedHooks := Some(path))
    else
      var was := if worktree in c.linked then c.linked[worktree] else Worktree(None, None);
      c.(linked := c.linked[worktree := was.(hooksPath := Some(path))])
  }

  /** The answer of `config --local --get core.bare`, compared as the code compares it. */
  predicate Unmigrated(c: Config)
  {
    c.sharedBare.Some? && Trim(c.sharedBare.value) == "true"
  }

  // ----- the steps -----

  /** The config command that runs next. */
  datatype At = Enable | Ask | SetOwn | UnsetShared | SelectHooks | Done

  datatype Run = Run(at: At, config: Config)

  function Step(r: Run, worktree: string, path: string): Run
  {
    var c := r.config;
    match r.at
    case Enable => Run(Ask, c.(extension := true))
    case Ask => Run(if Unmigrated(c) then SetOwn else SelectHooks, c)
    case SetOwn => Run(UnsetShared, SetOwnBare(c, "true"))
    case UnsetShared => Run(SelectHooks, c.(sharedBare := None))
    case SelectHooks => Run(Done, SetHooks(c, worktree, path))
    case Done => r
  }

  /** Stopped anywhere, the call may be made again from the start on the config it left. */
  function Restart(r: Run): Run
  {
    Run(Enable, r.config)
  }

  /** A history of calls, each stopped after any command and made again. */
  ghost predicate IsHistory(rs: seq<Run>, start: Config, worktree: string, path: string)
  {
    && rs != [] && rs[0] == Run(Enable, start)
    && forall i :: 0 <= i < |rs| - 1 ==> rs[i + 1] == Step(rs[i], worktree, path) || rs[i + 1] == Restart(rs[i])
  }

  function Rank(at: At): nat
  {
    match at
    case Enable => 5 case Ask => 4 case SetOwn => 3 case UnsetShared => 2 case SelectHooks => 1 case Done => 0
  }

  /** The config when the call runs to its end. */
  function Finish(r: Run, worktree: string, path: string): Config
    decreases Rank(r.at)
  {
    if r.at == Done then r.config else Finish(Step(r, worktree, path), worktree, path)
  }

  /** What one whole call leaves. */
  function Protected(c: Config, worktree: string, path: string): Config
  {
    Finish(Run(Enable, c), worktree, path)
  }

  /** What one whole call changes, and what it leaves alone. */
  lemma ProtectedIs(c: Config, worktree: string, path: string)
    ensures var p := Protected(c, worktree, path);
      && p.extension && p.sharedHooks == c.sharedHooks
      && (var migrates := c.sharedBare.Some? && Trim(c.sharedBare.value) == "true";
          p.sharedBare == (if migrates then None else c.sharedBare)
          && p.ownBare == (if migrates then Some("true") else c.ownBare))
      && p.linked.Keys == c.linked.Keys + {worktree}
      && p.linked[worktree].hooksPath == Some(path)
      && (forall w :: w in c.linked ==> p.linked[w].bare == c.linked[w].bare)
      && (forall w :: w in c.linked && w != worktree ==> p.linked[w] == c.linked[w])
  {
    var r1 := Step(Run(Enable, c), worktree, path);
    var r2 := Step(r1, worktree, path);
    var r3 := Step(r2, worktree, path);
    var r4 := Step(r3, worktree, path);
    var r5 := Step(r4, worktree, path);
    assert Protected(c, worktree, path) == Finish(r1, worktree, path);
    assert Finish(r1, worktree, path) == Finish(r2, worktree, path);
    assert Finish(r2, worktree, path) == Finish(r3, worktree, path);
    if r2.at == SetOwn {
      assert Finish(r3, worktree, path) == Finish(r4, worktree, path);
      assert Finish(r4, worktree, path) == Finish(r5, worktree, path);
    }
  }

  lemma FinishStep(r: Run, worktree: string, path: string)
    ensures Finish(Step(r, worktree, path), worktree, path) == Finish(r, worktree, path)
  {
  }

  datatype Protection = Installed | AlreadyInstalled

  /** The repository's settings and its `pre-commit` file. */
  class Repository {
    var config: Config
    var hook: Option<string>

    constructor (config: Config, hook: Option<string>)
      ensures this.config == config && this.hook == hook
    {
      this.config, this.hook := config, hook;
    }

    method ProtectDefaultBranch(worktree: string, hooksDir: string, wanted: string) returns (r: Protection)
      modifies this
      ensures config == Protected(old(config), worktree, hooksDir)
      ensures hook == Some(wanted)
      ensures r == if old(hook) == Some(wanted) then AlreadyInstalled else Installed
    {
      ghost var start := Run(Enable, config);
      config := config.(extension := true);
      FinishStep(start, worktree, hooksDir);
      FinishStep(Run(Ask, config), worktree, hooksDir);
      if Unmigrated(config) {
        FinishStep(Run(SetOwn, config), worktree, hooksDir);
        config := SetOwnBare(config, "true");
        FinishStep(Run(UnsetShared, config), worktree, hooksDir);
        config := config.(sharedBare := None);
      }
      var installed := hook == Some(wanted);
      if !installed {
        hook := Some(wanted);
      }
      FinishStep(Run(SelectHooks, config), worktree, hooksDir);
      config := SetHooks(config, worktree, hooksDir);
      r := if installed then AlreadyInstalled else Installed;
    }
  }

  /** Where a run can stand: the extension is on once enabled, and `UnsetShared` has set the own value. */
  ghost predicate Sound(r: Run, worktree: string, path: string)
  {
    && (r.at != Enable ==> r.config.extension)
    && (r.at == SetOwn || r.at == UnsetShared ==> Unmigrated(r.config))
    && (r.at == UnsetShared ==> r.config.ownBare == Some("true"))
    && (r.at == SelectHooks || r.at == Done ==> !Unmigrated(r.config))
    && (r.at == Done ==> worktree in r.config.linked && r.config.linked[worktree].hooksPath == Some(path))
  }

  lemma StepIsSound(r: Run, worktree: string, path: string)
    requires Sound(r, worktree, path)
    ensures Sound(Step(r, worktree, path), worktree, path) && Sound(Restart(r), worktree, path)
  {
  }

  /** Making the call again from any stop reaches the config that going on would have reached. */
  lemma AgainIsOnwards(r: Run, worktree: string, path: string)
    requires Sound(r, worktree, path)
    ensures Protected(r.config, worktree, path) == Finish(r, worktree, path)
  {
    var c := r.config;
    ProtectedIs(c, worktree, path);
    match r.at
    case Enable =>
    case Ask =>
      assert c.(extension := true) == c;
    case SetOwn =>
      FinishMigrating(c, worktree, path);
    case UnsetShared =>
      FinishMigrating(c, worktree, path);
      assert SetOwnBare(c, "true") == c;
    case SelectHooks =>
      assert c.(extension := true) == c;
      FinishMigrated(c, worktree, path);
    case Done =>
      assert c.(extension := true) == c;
      FinishMigrated(c, worktree, path);
      var w := c.linked[worktree];
      assert w.(hooksPath := Some(path)) == w;
      assert c.linked[worktree := w] == c.linked;
  }

  lemma FinishMigrated(c: Config, worktree: string, path: string)
    requires c.extension && !Unmigrated(c)
    ensures Protected(c, worktree, path) == SetHooks(c, worktree, path)
    ensures Finish(Run(SelectHooks, c), worktree, path) == SetHooks(c, worktree, path)
  {
    assert c.(extension := true) == c;
    var r2 := Run(SelectHooks, c);
    assert Step(r2, worktree, path) == Run(Done, SetHooks(c, worktree, path));
    assert Finish(r2, worktree, path) == SetHooks(c, worktree, path);
    assert Step(Run(Ask, c), worktree, path) == r2;
    assert Finish(Run(Ask, c), worktree, path) == Finish(r2, worktree, path);
  }

  lemma FinishMigrating(c: Config, worktree: string, path: string)
    requires c.extension && Unmigrated(c)
    ensures Protected(c, worktree, path) == Finish(Run(SetOwn, c), worktree, path)
    ensures Finish(Run(SetOwn, c), worktree, path) == Finish(Run(UnsetShared, SetOwnBare(c, "true")), worktree, path)
  {
    assert c.(extension := true) == c;
    assert Step(Run(Ask, c), worktree, path) == Run(SetOwn, c);
    assert Finish(Run(Ask, c), worktree, path) == Finish(Run(SetOwn, c), worktree, path);
  }

  lemma {:induction false} HistoryIsSound(rs: seq<Run>, start: Config, worktree: string, path: string, i: nat)
    requires IsHistory(rs, start, worktree, path) && i < |rs|
    ensures Sound(rs[i], worktree, path)
    ensures Protected(rs[i].config, worktree, path) == Protected(start, worktree, path)
    ensures Finish(rs[i], worktree, path) == Protected(start, worktree, path)
  {
    if i > 0 {
      HistoryIsSound(rs, start, worktree, path, i - 1);
      StepIsSound(rs[i - 1], worktree, path);
      assert rs[i - 1 + 1] == Step(rs[i - 1], worktree, path) || rs[i - 1 + 1] == Restart(rs[i - 1]);
      FinishStep(rs[i - 1], worktree, path);
      AgainIsOnwards(rs[i], worktree, path);
    }
  }

  /** However often the call is stopped and made again, finishing it reaches the config of one undisturbed call. */
  lemma RerunsConverge(rs: seq<Run>, start: Config, worktree: string, path: string)
    requires IsHistory(rs, start, worktree, path)
    ensures var last := rs[|rs| - 1];
      && Protected(last.config, worktree, path) == Protected(start, worktree, path)
      && (last.at == Done ==> last.config == Protected(start, worktree, path))
  {
    HistoryIsSound(rs, start, worktree, path, |rs| - 1);
  }

  /** The own value that a stop can leave behind. */
  ghost predicate BareSoFar(truth: Truth, r: Run)
  {
    && ReadsBare(truth, r.config)
    && (r.config.ownBare.Some? ==> truth(r.config.ownBare.value))
    && (r.at == UnsetShared ==> r.config.ownBare.Some?)
  }

  lemma {:induction false} BareThroughout(truth: Truth, rs: seq<Run>, start: Config, worktree: string, path: string,
                                          i: nat)
    requires truth("true") && IsHistory(rs, start, worktree, path) && i < |rs|
    requires BareSoFar(truth, rs[0])
    ensures BareSoFar(truth, rs[i])
  {
    if i > 0 {
      BareThroughout(truth, rs, start, worktree, path, i - 1);
      HistoryIsSound(rs, start, worktree, path, i - 1);
      assert rs[i - 1 + 1] == Step(rs[i - 1], worktree, path) || rs[i - 1 + 1] == Restart(rs[i - 1]);
    }
  }

  /**
   * The repository reads as bare in every state of every history exactly when it does at the start and no
   * dormant setting of its own says otherwise.
   */
  lemma AlwaysBareIff(truth: Truth, start: Config, worktree: string, path: string)
    requires truth("true")
    ensures (forall rs: seq<Run>, i: nat | i < |rs| && IsHistory(rs, start, worktree, path) ::
               ReadsBare(truth, rs[i].config))
      <==> ReadsBare(truth, start) && (start.ownBare.Some? ==> truth(start.ownBare.value))
  {
    var first := Run(Enable, start);
    if forall rs: seq<Run>, i: nat | i < |rs| && IsHistory(rs, start, worktree, path) ::
        ReadsBare(truth, rs[i].config) {
      var rs := [first, Step(first, worktree, path)];
      assert IsHistory(rs, start, worktree, path);
      assert ReadsBare(truth, rs[0].config) && ReadsBare(truth, rs[1].config);
    }
    if ReadsBare(truth, start) && (start.ownBare.Some? ==> truth(start.ownBare.value)) {
      forall rs: seq<Run>, i: nat | i < |rs| && IsHistory(rs, start, worktree, path)
        ensures ReadsBare(truth, rs[i].config)
      {
        BareThroughout(truth, rs, start, worktree, path, i);
      }
    }
  }

  /** After the call no worktree inherits bareness, exactly when the shared value was not another spelling of true. */
  lemma NothingInheritsIff(truth: Truth, c: Config, worktree: string, path: string)
    ensures !WouldInherit(truth, Protected(c, worktree, path)) <==>
      (Holds(truth, c.sharedBare) ==> Trim(c.sharedBare.value) == "true")
  {
    ProtectedIs(c, worktree, path);
  }

  /** What inheriting would mean for the worktrees there are: each reads as its own setting says. */
  lemma WorktreesReadTheirOwn(truth: Truth, c: Config, worktree: string, path: string, w: string)
    requires w in c.linked && (Holds(truth, c.sharedBare) ==> Trim(c.sharedBare.value) == "true")
    ensures var p := Protected(c, worktree, path);
      w in p.linked && (WorktreeReadsBare(truth, p, p.linked[w]) <==> Holds(truth, c.linked[w].bare))
  {
    ProtectedIs(c, worktree, path);
  }

  /** A shared `core.bare=yes` is left where every worktree inherits it. */
  lemma OtherSpellingStays(truth: Truth, worktree: string, path: string)
    requires truth("yes")
    ensures var c := Config(false, Some("yes"), None, None, map[]);
      ReadsBare(truth, c) && WouldInherit(truth, Protected(c, worktree, path))
  {
    assert Trim("yes") == "yes" by {
      TrimTight("yes");
    }
    var c := Config(false, Some("yes"), None, None, map[]);
    ProtectedIs(c, worktree, path);
  }

  /** Whatever a hook manager writes into the shared config, the default worktree keeps these hooks. */
  lemma HooksStay(c: Config, worktree: string, path: string, other: Option<string>)
    ensures var p := Protected(c, worktree, path).(sharedHooks := other);
      && worktree in p.linked && Effective(p, p.linked[worktree].hooksPath, p.sharedHooks) == Some(path)
      && (forall w :: w in c.linked && w != worktree && c.linked[w].hooksPath.None? ==>
            w in p.linked && Effective(p, p.linked[w].hooksPath, p.sharedHooks) == other)
  {
    ProtectedIs(c, worktree, path);
  }

  // ----- quoting -----

  /** `str::replace` of one character. */
  function ReplaceChar(s: string, c: char, with: string): string
  {
    if s == "" then "" else (if s[0] == c then with else [s[0]]) + ReplaceChar(s[1..], c, with)
  }

  function ShellSingleQuoted(value: string): string
  {
    "'" + ReplaceChar(value, '\'', "'\\''") + "'"
  }

  /**
   * The word a POSIX shell reads (section 2.2 of the Shell Command Language) from text in which every character
   * is quoted; `None` when a character stands unquoted or a quote does not close.
   */
  function Unquoted(s: string, inside: bool): Option<string>
  {
    if s == "" then if inside then None else Some("")
    else if inside then
      if s[0] == '\'' then Unquoted(s[1..], false)
      else
        var rest := Unquoted(s[1..], true);
        if rest.None? then None else Some([s[0]] + rest.value)
    else if s[0] == '\'' then Unquoted(s[1..], true)
    else if s[0] == '\\' && |s| >= 2 && s[1] != '\n' then
      var rest := Unquoted(s[2..], false);
      if rest.None? then None else Some([s[1]] + rest.value)
    else None
  }

  function Prefixed(c: char, rest: Option<string>): Option<string>
  {
    if rest.None? then None else Some([c] + rest.value)
  }

  lemma ReadsQuote(rest: string, inside: bool)
    ensures Unquoted(['\''] + rest, inside) == Unquoted(rest, !inside)
  {
    assert (['\''] + rest)[1..] == rest;
  }

  lemma ReadsEscape(c: char, rest: string)
    requires c != '\n'
    ensures Unquoted(['\\'] + ([c] + rest), false) == Prefixed(c, Unquoted(rest, false))
  {
    var s := ['\\'] + ([c] + rest);
    assert s == ['\\', c] + rest;
    assert s[2..] == rest && s[0] == '\\' && s[1] == c;
  }

  lemma ReadsInside(c: char, rest: string)
    requires c != '\''
    ensures Unquoted([c] + rest, true) == Prefixed(c, Unquoted(rest, true))
  {
    assert ([c] + rest)[1..] == rest;
  }

  /** The four characters written for a quote read as that quote. */
  lemma ReadsQuotedQuote(rest: string)
    ensures Unquoted("'\\''" + rest, true) == Prefixed('\'', Unquoted(rest, true))
  {
    ReadsQuote(['\\'] + (['\''] + (['\''] + rest)), true);
    ReadsEscape('\'', ['\''] + rest);
    ReadsQuote(rest, false);
    assert "'\\''" + rest == ['\''] + (['\\'] + (['\''] + (['\''] + rest)));
  }

  lemma {:induction false} InsideReads(value: string)
    ensures Unquoted(ReplaceChar(value, '\'', "'\\''") + "'", true) == Some(value)
  {
    if value == "" {
      ReadsQuote("", true);
      assert ReplaceChar(value, '\'', "'\\''") + "'" == ['\''] + "";
    } else {
      var c, rest := value[0], ReplaceChar(value[1..], '\'', "'\\''") + "'";
      InsideReads(value[1..]);
      assert value == [c] + value[1..];
      if c == '\'' {
        ReadsQuotedQuote(rest);
      } else {
        ReadsInside(c, rest);
      }
      Reassociated(if c == '\'' then "'\\''" else [c], ReplaceChar(value[1..], '\'', "'\\''"), "'");
    }
  }

  lemma Reassociated(a: string, b: string, c: string)
    ensures (a + b) + c == a + (b + c)
  {
  }

  /** The shell reads the quoted text as exactly the value, whatever characters it has. */
  lemma QuotedIsOneWord(value: string)
    ensures Unquoted(ShellSingleQuoted(value), false) == Some(value)
  {
    InsideReads(value);
    assert ShellSingleQuoted(value)[1..] == ReplaceChar(value, '\'', "'\\''") + "'";
  }
}
