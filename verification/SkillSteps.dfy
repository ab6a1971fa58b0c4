/** What each step of a skill plan says, stated on the target and the recorded state. */
module SkillSteps {
  import opened Results
  import opened SkillState
  import opened SkillSync

  /** What is recorded of a pair, if anything is. */
  ghost function Record(state: State, skill: string, id: TargetId): Option<Provider>
  {
    if skill in state && id in state[skill].providers then Some(state[skill].providers[id]) else None
  }

  /** The hall is clean at the commit that the skill was installed from. */
  ghost predicate Pinned(input: Input, skill: string)
  {
    && input.options.clean && input.options.head.Some?
    && skill in input.state && input.state[skill].commit.Some?
    && input.state[skill].commit.value == input.options.head.value
  }

  /** A recorded mode other than the declared one; what has none recorded is a symlink. */
  ghost predicate OtherMode(provider: Provider, mode: Mode)
  {
    match provider.mode
    case Some(recorded) => recorded != mode
    case None => mode == Copy
  }

  /** Nothing is done at a pinned commit, or for what is recorded, in place and in its mode. */
  ghost predicate NothingToDo(input: Input, skill: Skill, target: Target)
  {
    var record := Record(input.state, skill.id, target.id);
    Pinned(input, skill.id) || (record.Some? && target.status == InPlace && !OtherMode(record.value, skill.mode))
  }

  /** Made anew where there is nothing, and adopted where there already is the right thing unrecorded. */
  ghost predicate ToCreate(input: Input, skill: Skill, target: Target)
  {
    var record := Record(input.state, skill.id, target.id);
    !Pinned(input, skill.id) && (target.status == Missing || (target.status == InPlace && record.None?))
  }

  /** Skill `k` is the last of this id. */
  ghost predicate Declares(skills: seq<Skill>, k: nat, id: string)
  {
    k < |skills| && skills[k].id == id && forall m :: k < m < |skills| ==> skills[m].id != id
  }

  /** The step for a declared target. */
  lemma PlannedTarget(input: Input, skill: Skill, target: Target)
    requires target.skill == skill.id
    ensures var step := PlanForSkill(skill, target, input.state, input.options);
      && step.skill == target.skill && step.id == target.id && step.target == target.path
      && step.source == target.source && step.mode == skill.mode
      && (step.action == Action.Unchanged <==> NothingToDo(input, skill, target))
      && (step.action == Create <==> ToCreate(input, skill, target))
      && step.action != Remove
  {
  }

  /** Why a step is taken, where the plan says so. */
  lemma ReasonIs(input: Input, skill: Skill, target: Target)
    requires target.skill == skill.id
    ensures var step, record := PlanForSkill(skill, target, input.state, input.options), Record(input.state, skill.id, target.id);
      if Pinned(input, skill.id) then step.reason == "commit-sha unchanged"
      else if target.status == Missing then step.reason == ""
      else if record.None? then
        step.reason == if target.status == InPlace then "adopt existing target" else "untracked target entry exists"
      else if OtherMode(record.value, skill.mode) then step.reason == "render mode changed"
      else if target.status == NotLink then step.reason == "target is not a symlink"
      else if target.status == InPlace && input.state[skill.id].hash != target.hash then
        step.reason == "source changed (hash refreshed)"
      else step.reason == ""
  {
  }

  /** A declared target has a step in the plan: for its own path, in the mode of the last skill of that name,
      and doing nothing, creating or updating as what is found and recorded says. */
  lemma TargetIsPlanned(input: Input, plan: seq<Step>, i: nat, k: nat) returns (step: Step)
    requires IsPlan(plan, input) && i < |input.targets| && Declares(input.skills, k, input.targets[i].skill)
    ensures step in plan
    ensures var skill, target := input.skills[k], input.targets[i];
      && step.skill == target.skill && step.id == target.id && step.target == target.path
      && step.source == target.source && step.mode == skill.mode
      && step.action == if NothingToDo(input, skill, target) then Action.Unchanged
                        else if ToCreate(input, skill, target) then Create else Update
  {
    var skill, target := input.skills[k], input.targets[i];
    LastDeclared(input.skills, k, target.skill);
    step := PlanForSkill(skill, target, input.state, input.options);
    PlanMembers(input, plan, step);
    PlannedTarget(input, skill, target);
  }

  lemma {:induction false} LastDeclared(skills: seq<Skill>, k: nat, id: string)
    requires Declares(skills, k, id)
    ensures Declared(skills, id) == Some(skills[k])
    decreases |skills|
  {
    if k < |skills| - 1 {
      LastDeclared(skills[..|skills| - 1], k, id);
    }
  }

  lemma {:induction false} NotDeclared(skills: seq<Skill>, id: string)
    requires forall k :: 0 <= k < |skills| ==> skills[k].id != id
    ensures Declared(skills, id).None?
    decreases |skills|
  {
    if skills != [] {
      NotDeclared(skills[..|skills| - 1], id);
    }
  }

  /** A removal is of a recorded pair, at the path and in the mode recorded for it; its source is where the
      skill is declared, or was recorded if it no longer is. */
  lemma RemovalIsRecorded(input: Input, plan: seq<Step>, step: Step)
    requires IsPlan(plan, input) && step in plan && step.action == Remove
    ensures var record := Record(input.state, step.skill, step.id);
      record.Some? && step.target == record.value.path && !OtherMode(record.value, step.mode)
    ensures forall k: nat :: Declares(input.skills, k, step.skill) ==> step.source == input.skills[k].dir
    ensures (forall k :: 0 <= k < |input.skills| ==> input.skills[k].id != step.skill) ==>
      step.source == input.state[step.skill].source
  {
    PlanMembers(input, plan, step);
    if i :| 0 <= i < |input.targets| && Declared(input.skills, input.targets[i].skill).Some?
            && step == PlanForSkill(Declared(input.skills, input.targets[i].skill).value, input.targets[i],
                                    input.state, input.options) {
      PlannedTarget(input, Declared(input.skills, input.targets[i].skill).value, input.targets[i]);
    }
    forall k: nat | Declares(input.skills, k, step.skill) ensures step.source == input.skills[k].dir {
      LastDeclared(input.skills, k, step.skill);
    }
    if forall k :: 0 <= k < |input.skills| ==> input.skills[k].id != step.skill {
      NotDeclared(input.skills, step.skill);
    }
  }

  // ----- what is recorded of a step -----

  /** The hash recorded is that of the target with the pair. */
  lemma {:induction false} HashIs(targets: seq<Target>, i: nat)
    requires i < |targets|
    requires forall j :: 0 <= j < i ==> (targets[j].skill, targets[j].id) != (targets[i].skill, targets[i].id)
    ensures HashOf(targets, (targets[i].skill, targets[i].id)) == targets[i].hash
    decreases i
  {
    if i > 0 {
      HashIs(targets[1..], i - 1);
    }
  }

  /** Writing a target records its path, mode, source and hash, and keeps the commit and the other targets. */
  lemma WrittenEntry(state: State, step: Step, hash: string, path: Pair -> string, id: TargetId)
    requires step.action == Create || step.action == Update
    ensures var now := Persisted(state, step, hash, path);
      && now.Keys == state.Keys + {step.skill}
      && (forall other :: other in state && other != step.skill ==> now[other] == state[other])
      && now[step.skill].source == step.source && now[step.skill].hash == hash
      && now[step.skill].commit == (if step.skill in state then state[step.skill].commit else None)
      && Record(now, step.skill, step.id) == Some(Provider(path((step.skill, step.id)), Some(step.mode)))
      && (id != step.id ==> Record(now, step.skill, id) == Record(state, step.skill, id))
  {
  }

  /** Removing a target forgets it, and the skill with its last target; what else is recorded stays. */
  lemma RemovedEntry(state: State, step: Step, hash: string, path: Pair -> string, id: TargetId)
    requires step.action == Remove
    ensures var now := Persisted(state, step, hash, path);
      && now.Keys <= state.Keys
      && (forall other :: other in state && other != step.skill ==> other in now && now[other] == state[other])
      && Record(now, step.skill, step.id).None?
      && (id != step.id ==> Record(now, step.skill, id) == Record(state, step.skill, id))
      && (step.skill in now ==> now[step.skill].providers != map[]
                                && now[step.skill] == state[step.skill].(providers := now[step.skill].providers))
  {
    if step.skill in state {
      assert id != step.id && id in state[step.skill].providers ==> id in state[step.skill].providers - {step.id};
    }
  }

  /** Of an entry in both files the local one counts. */
  lemma LocalWins(hall: State, local: State, id: string)
    ensures var merged := MergeStates(hall, local);
      && (id in merged <==> id in hall || id in local)
      && (id in local ==> merged[id] == local[id])
      && (id in hall && id !in local ==> merged[id] == hall[id])
  {
  }
}
