/** Carrying a skill plan out, and the installation state it leaves. */
module SkillState {
  import opened Results
  import opened SkillSync

  /** The recorded mode of a pair, when it is recorded. */
  function RecordOf(state: State, pair: Pair): Option<Mode>
  {
    if Recorded(state, pair) then Some(RecordedMode(state[pair.0].providers[pair.1])) else None
  }

  /** The hash of the target with a pair. */
  function HashOf(targets: seq<Target>, pair: Pair): string
  {
    if targets == [] then ""
    else if (targets[0].skill, targets[0].id) == pair then targets[0].hash
    else HashOf(targets[1..], pair)
  }

  /** The state after one step was carried out; `path` is where a target's own path is recorded. */
  function Persisted(state: State, step: Step, hash: string, path: Pair -> string): State
  {
    match step.action
    case Unchanged => state
    case Remove =>
      if step.skill !in state then state
      else
        var left := state[step.skill].providers - {step.id};
        if left == map[] then state - {step.skill} else state[step.skill := state[step.skill].(providers := left)]
    case _ =>
      var provider := Provider(path((step.skill, step.id)), Some(step.mode));
      if step.skill in state then
        var was := state[step.skill];
        state[step.skill := was.(source := step.source, hash := hash, providers := was.providers[step.id := provider])]
      else state[step.skill := Entry(step.source, hash, None, map[step.id := provider])]
  }

  /** The state after the steps that were carried out; `done` says which were. */
  function PersistedAll(
    state: State, steps: seq<Step>, done: seq<bool>, targets: seq<Target>, path: Pair -> string): State
    requires |done| == |steps|
    decreases |steps|
  {
    if steps == [] then state
    else
      var hash := HashOf(targets, (steps[0].skill, steps[0].id));
      PersistedAll(if done[0] then Persisted(state, steps[0], hash, path) else state, steps[1..], done[1..], targets,
                   path)
  }

  /** What a step makes of the record of its own pair. */
  function Recording(step: Step, was: Option<Mode>): Option<Mode>
  {
    match step.action
    case Unchanged => was
    case Remove => None
    case _ => Some(step.mode)
  }

  lemma WrittenRecord(state: State, step: Step, hash: string, path: Pair -> string, pair: Pair)
    requires step.action == Create || step.action == Update
    ensures RecordOf(Persisted(state, step, hash, path), pair) ==
      if (step.skill, step.id) == pair then Some(step.mode) else RecordOf(state, pair)
  {
    var now := Persisted(state, step, hash, path);
    var provider := Provider(path((step.skill, step.id)), Some(step.mode));
    assert now[step.skill].providers ==
      if step.skill in state then state[step.skill].providers[step.id := provider] else map[step.id := provider];
  }

  lemma RemovedRecord(state: State, step: Step, hash: string, path: Pair -> string, pair: Pair)
    requires step.action == Remove
    ensures RecordOf(Persisted(state, step, hash, path), pair) ==
      if (step.skill, step.id) == pair then None else RecordOf(state, pair)
  {
    if step.skill in state {
      var left := state[step.skill].providers - {step.id};
      assert pair.1 in left <==> pair.1 in state[step.skill].providers && pair.1 != step.id;
    }
  }

  /** A step changes the record of its own pair and of no other. */
  lemma PersistedRecord(state: State, step: Step, hash: string, path: Pair -> string, pair: Pair)
    ensures RecordOf(Persisted(state, step, hash, path), pair) ==
      if (step.skill, step.id) == pair then Recording(step, RecordOf(state, pair)) else RecordOf(state, pair)
  {
    match step.action
    case Unchanged =>
    case Remove => RemovedRecord(state, step, hash, path, pair);
    case _ => WrittenRecord(state, step, hash, path, pair);
  }

  lemma {:induction false} UntouchedRecord(state: State, steps: seq<Step>, done: seq<bool>, targets: seq<Target>,
                                           path: Pair -> string, pair: Pair)
    requires |done| == |steps| && Count(steps, pair) == 0
    ensures RecordOf(PersistedAll(state, steps, done, targets, path), pair) == RecordOf(state, pair)
    decreases |steps|
  {
    if steps != [] {
      var hash := HashOf(targets, (steps[0].skill, steps[0].id));
      var next := if done[0] then Persisted(state, steps[0], hash, path) else state;
      PersistedRecord(state, steps[0], hash, path, pair);
      UntouchedRecord(next, steps[1..], done[1..], targets, path, pair);
    }
  }

  /** Among steps on different pairs, each sets the record of its pair if it was carried out. */
  lemma {:induction false} StepRecord(state: State, steps: seq<Step>, done: seq<bool>, targets: seq<Target>,
                                      path: Pair -> string, i: nat)
    requires |done| == |steps| && i < |steps| && Count(steps, (steps[i].skill, steps[i].id)) == 1
    ensures var pair := (steps[i].skill, steps[i].id);
      RecordOf(PersistedAll(state, steps, done, targets, path), pair)
      == if done[i] then Recording(steps[i], RecordOf(state, pair)) else RecordOf(state, pair)
    decreases |steps|
  {
    var pair := (steps[i].skill, steps[i].id);
    var hash := HashOf(targets, (steps[0].skill, steps[0].id));
    var next := if done[0] then Persisted(state, steps[0], hash, path) else state;
    PersistedRecord(state, steps[0], hash, path, pair);
    if i == 0 {
      UntouchedRecord(next, steps[1..], done[1..], targets, path, pair);
    } else {
      Counted(steps[1..], i - 1);
      StepRecord(next, steps[1..], done[1..], targets, path, i - 1);
    }
  }

  lemma {:induction false} Counted(steps: seq<Step>, i: nat)
    requires i < |steps|
    ensures Count(steps, (steps[i].skill, steps[i].id)) >= 1
  {
    if i > 0 {
      Counted(steps[1..], i - 1);
    }
  }

  // ----- the two state files -----

  /** The directory that defines a skill, when one is declared under the id. */
  function OwnerOf(skills: seq<Skill>, id: string): Option<Root>
  {
    if skills == [] then None
    else if skills[0].id == id then Some(skills[0].root)
    else OwnerOf(skills[1..], id)
  }

  /** An undeclared skill's entry belongs where it is recorded already. */
  predicate BelongsTo(skills: seq<Skill>, root: Root, initial: State, id: string)
  {
    var owner := OwnerOf(skills, id);
    if owner.Some? then owner.value == root else id in initial
  }

  function SplitState(merged: State, skills: seq<Skill>, root: Root, initial: State): State
  {
    map id | id in merged && BelongsTo(skills, root, initial, id) :: merged[id]
  }

  /** The view of both files that the planner is given. */
  function MergeStates(hall: State, local: State): State
  {
    hall + local
  }

  function StateOf(file: Option<State>): State
  {
    if file.Some? then file.value else map[]
  }

  /** Split and merged again, nothing is lost of a state whose entries are declared or were recorded. */
  lemma SplitIsLossless(merged: State, skills: seq<Skill>, hall: State, local: State)
    requires forall id :: id in merged ==> OwnerOf(skills, id).Some? || id in hall || id in local
    ensures MergeStates(SplitState(merged, skills, Hall, hall), SplitState(merged, skills, Local, local)) == merged
  {
    var h, l := SplitState(merged, skills, Hall, hall), SplitState(merged, skills, Local, local);
    forall id ensures id in h + l <==> id in merged {
      if id in merged {
        assert BelongsTo(skills, Hall, hall, id) || BelongsTo(skills, Local, local, id);
      }
    }
  }

  /** A step that writes a record does it for a declared skill. */
  ghost predicate WritesDeclared(skills: seq<Skill>, steps: seq<Step>)
  {
    forall i :: 0 <= i < |steps| && (steps[i].action == Create || steps[i].action == Update) ==>
      OwnerOf(skills, steps[i].skill).Some?
  }

  lemma {:induction false} PersistedKeys(state: State, skills: seq<Skill>, steps: seq<Step>, done: seq<bool>,
                                         targets: seq<Target>, path: Pair -> string)
    requires |done| == |steps| && WritesDeclared(skills, steps)
    ensures forall id :: id in PersistedAll(state, steps, done, targets, path) ==>
      OwnerOf(skills, id).Some? || id in state
    decreases |steps|
  {
    if steps != [] {
      var hash := HashOf(targets, (steps[0].skill, steps[0].id));
      var next := if done[0] then Persisted(state, steps[0], hash, path) else state;
      assert forall i :: 0 <= i < |steps| - 1 ==> steps[1..][i] == steps[i + 1];
      PersistedKeys(next, skills, steps[1..], done[1..], targets, path);
    }
  }

  /** The state files of the hall and of the personal skills. */
  class StateFiles {
    var hall: Option<State>
    var local: Option<State>

    constructor (hall: Option<State>, local: Option<State>)
      ensures this.hall == hall && this.local == local
    {
      this.hall, this.local := hall, local;
    }

    function Merged(): State
      reads this
    {
      MergeStates(StateOf(hall), StateOf(local))
    }

    /** Records the steps that were carried out and writes each root's part, dropping an empty file. */
    method PersistSyncState(skills: seq<Skill>, steps: seq<Step>, done: seq<bool>, targets: seq<Target>,
                            path: Pair -> string)
      requires |done| == |steps| && WritesDeclared(skills, steps)
      modifies this
      ensures Merged() == PersistedAll(old(Merged()), steps, done, targets, path)
      ensures hall != Some(map[]) && local != Some(map[])
      ensures forall id :: id in StateOf(hall) ==> OwnerOf(skills, id) != Some(Local)
      ensures forall id :: id in StateOf(local) ==> OwnerOf(skills, id) != Some(Hall)
    {
      var state := Merged();
      ghost var was := state;
      var i := 0;
      assert steps[0..] == steps && done[0..] == done;
      while i < |steps|
        invariant 0 <= i <= |steps|
        invariant PersistedAll(state, steps[i..], done[i..], targets, path)
          == PersistedAll(was, steps, done, targets, path)
      {
        assert steps[i..][1..] == steps[i + 1..] && done[i..][1..] == done[i + 1..];
        if done[i] {
          state := Persisted(state, steps[i], HashOf(targets, (steps[i].skill, steps[i].id)), path);
        }
        i := i + 1;
      }
      PersistedKeys(was, skills, steps, done, targets, path);
      SplitIsLossless(state, skills, StateOf(hall), StateOf(local));
      var hallPart := SplitState(state, skills, Hall, StateOf(hall));
      var localPart := SplitState(state, skills, Local, StateOf(local));
      hall := if hallPart == map[] then None else Some(hallPart);
      local := if localPart == map[] then None else Some(localPart);
    }
  }

  lemma {:induction false} OwnerIffDeclared(skills: seq<Skill>, id: string)
    ensures OwnerOf(skills, id).Some? <==> exists i :: 0 <= i < |skills| && skills[i].id == id
  {
    if skills != [] {
      OwnerIffDeclared(skills[1..], id);
      assert skills == [skills[0]] + skills[1..];
    }
  }

  lemma {:induction false} DeclaredIff(skills: seq<Skill>, id: string)
    ensures Declared(skills, id).Some? <==> exists i :: 0 <= i < |skills| && skills[i].id == id
    decreases |skills|
  {
    if skills != [] {
      var n := |skills| - 1;
      DeclaredIff(skills[..n], id);
      assert skills == skills[..n] + [skills[n]];
    }
  }

  /** A plan writes records of declared skills only, so the state files lose nothing of it. */
  lemma PlanWritesDeclared(input: Input, plan: seq<Step>)
    requires IsPlan(plan, input)
    ensures WritesDeclared(input.skills, plan)
  {
    forall i | 0 <= i < |plan| && (plan[i].action == Create || plan[i].action == Update)
      ensures OwnerOf(input.skills, plan[i].skill).Some?
    {
      PlanMembers(input, plan, plan[i]);
      OwnerIffDeclared(input.skills, plan[i].skill);
      DeclaredIff(input.skills, plan[i].skill);
    }
  }

  // ----- the next sync -----

  /** Carrying out a target's step leaves the target recorded in the skill's mode. */
  lemma CarriedOutIsRecorded(skill: Skill, target: Target, state: State, options: Options)
    requires !options.clean
    ensures var step := PlanForSkill(skill, target, state, options);
      && Recording(step, RecordOf(state, (skill.id, target.id))) == Some(skill.mode)
      && step.skill == skill.id && step.id == target.id
  {
  }

  /** The targets of the next call: the same pairs, whatever has become of them. */
  ghost predicate SamePairs(before: seq<Target>, after: seq<Target>)
  {
    |before| == |after| && forall i :: 0 <= i < |before| ==> before[i].skill == after[i].skill && before[i].id == after[i].id
  }

  /** The step of a pair failed. */
  ghost predicate FailedOn(plan: seq<Step>, done: seq<bool>, pair: Pair)
    requires |done| == |plan|
  {
    exists i :: 0 <= i < |plan| && (plan[i].skill, plan[i].id) == pair && !done[i]
  }

  ghost predicate OutOfPlace(targets: seq<Target>, pair: Pair)
  {
    exists i :: 0 <= i < |targets| && (targets[i].skill, targets[i].id) == pair && targets[i].status != InPlace
  }

  lemma WantedRecord(input: Input, plan: seq<Step>, done: seq<bool>, path: Pair -> string, j: nat)
    requires IsPlan(plan, input) && TargetsFit(input) && !input.options.clean && |done| == |plan|
    requires j < |input.targets| && Declared(input.skills, input.targets[j].skill).Some?
    requires !FailedOn(plan, done, (input.targets[j].skill, input.targets[j].id))
    ensures RecordOf(PersistedAll(input.state, plan, done, input.targets, path),
                     (input.targets[j].skill, input.targets[j].id))
      == Some(Declared(input.skills, input.targets[j].skill).value.mode)
  {
    var target := input.targets[j];
    var skill := Declared(input.skills, target.skill).value;
    var step := PlanForSkill(skill, target, input.state, input.options);
    CarriedOutIsRecorded(skill, target, input.state, input.options);
    PlanMembers(input, plan, step);
    assert IsWanted(input, input.targets, (target.skill, target.id));
    PlanCovers(input, plan, (target.skill, target.id));
    var i: nat :| i < |plan| && plan[i] == step;
    StepRecord(input.state, plan, done, input.targets, path, i);
  }

  /** An orphan of the next call is one of this call, whose removal failed. */
  lemma OrphanIsLeftOver(input: Input, plan: seq<Step>, done: seq<bool>, path: Pair -> string, after: seq<Target>,
                         pair: Pair)
    requires IsPlan(plan, input) && TargetsFit(input) && |done| == |plan|
    requires IsOrphan(input.(state := PersistedAll(input.state, plan, done, input.targets, path), targets := after), pair)
    ensures FailedOn(plan, done, pair)
  {
    PlanCovers(input, plan, pair);
    if IsOrphan(input, pair) {
      var step := OrphanStep(input, pair);
      PlanMembers(input, plan, step);
      var i: nat :| i < |plan| && plan[i] == step;
      StepRecord(input.state, plan, done, input.targets, path, i);
    } else if !IsWanted(input, input.targets, pair) {
      UntouchedRecord(input.state, plan, done, input.targets, path, pair);
    }
  }

  /** A target in its place and recorded in its mode needs nothing. */
  lemma SettledStep(skill: Skill, target: Target, state: State, options: Options)
    requires target.status == InPlace && RecordOf(state, (skill.id, target.id)) == Some(skill.mode)
    ensures PlanForSkill(skill, target, state, options).action == Unchanged
  {
  }

  /** The step is the one planned for target `j` with this state. */
  ghost predicate PlannedFor(input: Input, after: seq<Target>, state: State, step: Step, j: nat)
  {
    && j < |after| && Declared(input.skills, after[j].skill).Some?
    && step == PlanForSkill(Declared(input.skills, after[j].skill).value, after[j], state, input.options)
  }

  lemma TargetIsRedone(input: Input, plan: seq<Step>, done: seq<bool>, path: Pair -> string, after: seq<Target>,
                       step: Step, j: nat)
    requires IsPlan(plan, input) && TargetsFit(input) && !input.options.clean && |done| == |plan|
    requires SamePairs(input.targets, after) && step.action != Unchanged
    requires PlannedFor(input, after, PersistedAll(input.state, plan, done, input.targets, path), step, j)
    ensures FailedOn(plan, done, (step.skill, step.id)) || OutOfPlace(after, (step.skill, step.id))
  {
    assert (after[j].skill, after[j].id) == (step.skill, step.id);
    if !FailedOn(plan, done, (step.skill, step.id)) && after[j].status == InPlace {
      WantedRecord(input, plan, done, path, j);
      SettledStep(Declared(input.skills, after[j].skill).value, after[j],
                  PersistedAll(input.state, plan, done, input.targets, path), input.options);
    }
  }

  lemma NextStepCases(input: Input, after: seq<Target>, state: State, next: seq<Step>, step: Step)
    requires IsPlan(next, input.(state := state, targets := after)) && step in next
    ensures IsOrphan(input.(state := state, targets := after), (step.skill, step.id))
         || exists j: nat :: PlannedFor(input, after, state, step, j)
  {
    PlanMembers(input.(state := state, targets := after), next, step);
    forall j: nat | j < |after| && Declared(input.skills, after[j].skill).Some?
      ensures PlannedFor(input, after, state, step, j) <==>
        step == PlanForSkill(Declared(input.skills, after[j].skill).value, after[j], state, input.options)
    {
    }
  }

  /** The next sync has something to do only where a step of this one failed, or where the target is not in place
      after all; every other pair is left alone. */
  lemma OnlyFailuresAreRedone(input: Input, plan: seq<Step>, done: seq<bool>, path: Pair -> string,
                              after: seq<Target>, next: seq<Step>, step: Step)
    requires IsPlan(plan, input) && TargetsFit(input) && !input.options.clean && |done| == |plan|
    requires SamePairs(input.targets, after)
    requires IsPlan(next, input.(state := PersistedAll(input.state, plan, done, input.targets, path), targets := after))
    requires step in next && step.action != Unchanged
    ensures FailedOn(plan, done, (step.skill, step.id)) || OutOfPlace(after, (step.skill, step.id))
  {
    var state := PersistedAll(input.state, plan, done, input.targets, path);
    NextStepCases(input, after, state, next, step);
    if IsOrphan(input.(state := state, targets := after), (step.skill, step.id)) {
      OrphanIsLeftOver(input, plan, done, path, after, (step.skill, step.id));
    } else {
      var j: nat :| PlannedFor(input, after, state, step, j);
      TargetIsRedone(input, plan, done, path, after, step, j);
    }
  }
}
