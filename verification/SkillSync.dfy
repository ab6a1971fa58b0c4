/** The plan that brings materialised skills in line with the declared ones. */
module SkillSync {
  import opened Order
  import opened Results

  datatype TargetId = Claude | OpenCode | Omp

  datatype Mode = Symlink | Copy

  datatype Action = Create | Update | Remove | Unchanged

  datatype Status = Missing | InPlace | WrongLink | NotLink | BrokenSymlink

  /** Which skills directory defines a skill: the hall's committed one or the personal one. */
  datatype Root = Hall | Local

  datatype Skill = Skill(id: string, dir: string, mode: Mode, root: Root)

  datatype Target = Target(id: TargetId, skill: string, path: string, source: string, hash: string, status: Status)

  datatype Provider = Provider(path: string, mode: Option<Mode>)

  datatype Entry = Entry(source: string, hash: string, commit: Option<string>, providers: map<TargetId, Provider>)

  type State = map<string, Entry>

  datatype Options = Options(head: Option<string>, clean: bool)

  /** An empty reason is no reason. */
  datatype Step = Step(skill: string, id: TargetId, target: string, source: string, action: Action, mode: Mode,
                       reason: string)

  type Pair = (string, TargetId)

  /** What a call is given; `valid` is the rule for skill names. */
  datatype Input = Input(valid: string -> bool, skills: seq<Skill>, targets: seq<Target>, state: State,
                         available: seq<TargetId>, options: Options)

  // ----- planning one target -----

  /** The skill with an id; the last one wins. */
  function Declared(skills: seq<Skill>, id: string): (s: Option<Skill>)
    ensures s.Some? ==> s.value.id == id
    decreases |skills|
  {
    if skills == [] then None
    else if skills[|skills| - 1].id == id then Some(skills[|skills| - 1])
    else Declared(skills[..|skills| - 1], id)
  }

  function RecordedMode(provider: Provider): Mode
  {
    if provider.mode.Some? then provider.mode.value else Symlink
  }

  predicate Recorded(state: State, pair: Pair)
  {
    pair.0 in state && pair.1 in state[pair.0].providers
  }

  /** The hall stands at a clean commit at which this skill was already installed. */
  predicate AtRecordedCommit(skill: Skill, state: State, options: Options)
  {
    options.head.Some? && options.clean && skill.id in state && state[skill.id].commit == options.head
  }

  function PlanForSkill(skill: Skill, target: Target, state: State, options: Options): Step
  {
    var base := Step(skill.id, target.id, target.path, target.source, Unchanged, skill.mode, "");
    if AtRecordedCommit(skill, state, options) then base.(reason := "commit-sha unchanged")
    else if Recorded(state, (skill.id, target.id)) then
      var provider := state[skill.id].providers[target.id];
      if RecordedMode(provider) != skill.mode && target.status != Missing then
        base.(action := Update, reason := "render mode changed")
      else
        match target.status
        case Missing => base.(action := Create)
        case WrongLink => base.(action := Update)
        case BrokenSymlink => base.(action := Update)
        case NotLink => base.(action := Update, reason := "target is not a symlink")
        case InPlace =>
          if state[skill.id].hash != target.hash then base.(reason := "source changed (hash refreshed)") else base
    else
      match target.status
      case Missing => base.(action := Create)
      case InPlace => base.(action := Create, reason := "adopt existing target")
      case _ => base.(action := Update, reason := "untracked target entry exists")
  }

  /** One step for each target whose skill is declared, in the order of the targets. */
  function TargetSteps(input: Input, targets: seq<Target>): seq<Step>
    decreases |targets|
  {
    if targets == [] then []
    else
      var front, last := targets[..|targets| - 1], targets[|targets| - 1];
      var skill := Declared(input.skills, last.skill);
      if skill.None? then TargetSteps(input, front)
      else TargetSteps(input, front) + [PlanForSkill(skill.value, last, input.state, input.options)]
  }

  // ----- orphans -----

  /** A recorded pair whose skill is not declared or whose target is not available. */
  predicate IsOrphan(input: Input, pair: Pair)
  {
    && Recorded(input.state, pair) && input.valid(pair.0)
    && (Declared(input.skills, pair.0).None? || pair.1 !in input.available)
  }

  function OrphanStep(input: Input, pair: Pair): Step
    requires Recorded(input.state, pair)
  {
    var entry := input.state[pair.0];
    var provider := entry.providers[pair.1];
    var skill := Declared(input.skills, pair.0);
    Step(pair.0, pair.1, provider.path, if skill.Some? then skill.value.dir else entry.source, Remove,
         RecordedMode(provider), "")
  }

  ghost predicate Distinct<T>(xs: seq<T>)
  {
    forall i, j :: 0 <= i < j < |xs| ==> xs[i] != xs[j]
  }

  /** The pairs of a hash map of hash maps in some iteration order, so far as they are orphans. */
  ghost predicate Enumerates(pairs: seq<Pair>, input: Input)
  {
    Distinct(pairs) && forall p :: p in pairs <==> IsOrphan(input, p)
  }

  function OrphanSteps(input: Input, pairs: seq<Pair>): seq<Step>
    requires forall p :: p in pairs ==> Recorded(input.state, p)
  {
    seq(|pairs|, i requires 0 <= i < |pairs| => OrphanStep(input, pairs[i]))
  }

  /** The removals in some order of the recorded pairs. */
  ghost predicate IsOrphanPlan(steps: seq<Step>, input: Input)
  {
    exists pairs :: Enumerates(pairs, input) && steps == OrphanSteps(input, pairs)
  }

  /** Orphans seen so far: those of the ids gone through, and of `id` those of the targets gone through. */
  ghost predicate Seen(pairs: seq<Pair>, input: Input, ids: set<string>, id: string, tids: set<TargetId>)
  {
    Distinct(pairs) && forall p :: p in pairs <==> IsOrphan(input, p) && (p.0 in ids || (p.0 == id && p.1 in tids))
  }

  /** The two loops over the maps; `:|` picks an order as the hash does. */
  method PlanOrphans(input: Input) returns (steps: seq<Step>)
    ensures IsOrphanPlan(steps, input)
  {
    steps := [];
    ghost var pairs: seq<Pair> := [];
    var ids := input.state.Keys;
    ghost var done: set<string> := {};
    while ids != {}
      invariant done !! ids && done + ids == input.state.Keys
      invariant Seen(pairs, input, done, "", {})
      invariant forall p :: p in pairs ==> Recorded(input.state, p)
      invariant steps == OrphanSteps(input, pairs)
      decreases |ids|
    {
      var id :| id in ids;
      ids := ids - {id};
      if input.valid(id) {
        steps, pairs := PlanOrphansOf(input, id, steps, pairs, done);
      }
      done := done + {id};
    }
    assert Enumerates(pairs, input);
  }

  lemma OrphanAppended(input: Input, pairs: seq<Pair>, pair: Pair)
    requires (forall p :: p in pairs ==> Recorded(input.state, p)) && Recorded(input.state, pair)
    ensures forall p :: p in pairs + [pair] ==> Recorded(input.state, p)
    ensures OrphanSteps(input, pairs + [pair]) == OrphanSteps(input, pairs) + [OrphanStep(input, pair)]
  {
  }

  lemma SeenAppended(pairs: seq<Pair>, input: Input, ids: set<string>, id: string, tids: set<TargetId>, tid: TargetId)
    requires Seen(pairs, input, ids, id, tids) && id !in ids && tid !in tids && IsOrphan(input, (id, tid))
    ensures Seen(pairs + [(id, tid)], input, ids, id, tids + {tid})
  {
    var more := pairs + [(id, tid)];
    assert (id, tid) !in pairs;
    forall p ensures p in more <==> IsOrphan(input, p) && (p.0 in ids || (p.0 == id && p.1 in tids + {tid})) {
      assert p in more <==> p in pairs || p == (id, tid);
    }
  }

  method PlanOrphansOf(input: Input, id: string, before: seq<Step>, ghost seen: seq<Pair>, ghost done: set<string>)
    returns (steps: seq<Step>, ghost pairs: seq<Pair>)
    requires id in input.state && input.valid(id) && id !in done
    requires Seen(seen, input, done, id, {}) && (forall p :: p in seen ==> Recorded(input.state, p))
    requires before == OrphanSteps(input, seen)
    ensures Seen(pairs, input, done + {id}, "", {}) && (forall p :: p in pairs ==> Recorded(input.state, p))
    ensures steps == OrphanSteps(input, pairs)
  {
    steps, pairs := before, seen;
    var entry := input.state[id];
    var skill := Declared(input.skills, id);
    var tids := entry.providers.Keys;
    ghost var gone: set<TargetId> := {};
    while tids != {}
      invariant gone !! tids && gone + tids == entry.providers.Keys
      invariant Seen(pairs, input, done, id, gone)
      invariant forall p :: p in pairs ==> Recorded(input.state, p)
      invariant steps == OrphanSteps(input, pairs)
      decreases |tids|
    {
      var tid :| tid in tids;
      tids := tids - {tid};
      if skill.Some? && tid in input.available {
        assert !IsOrphan(input, (id, tid));
      } else {
        var provider := entry.providers[tid];
        OrphanAppended(input, pairs, (id, tid));
        steps := steps + [Step(id, tid, provider.path, if skill.Some? then skill.value.dir else entry.source, Remove,
                               RecordedMode(provider), "")];
        SeenAppended(pairs, input, done, id, gone, tid);
        pairs := pairs + [(id, tid)];
      }
      gone := gone + {tid};
    }
  }

  // ----- sorting -----

  /** The order of the sort key, skill name then target path. */
  predicate KeyBefore(a: Step, b: Step)
  {
    Before(a.skill, b.skill) || (a.skill == b.skill && Before(a.target, b.target))
  }

  /** Puts a step before the first that does not sort before it: equal keys keep their order. */
  function Insert(x: Step, xs: seq<Step>): seq<Step>
  {
    if xs != [] && KeyBefore(xs[0], x) then [xs[0]] + Insert(x, xs[1..]) else [x] + xs
  }

  /** A stable sort by key. */
  function Sort(xs: seq<Step>): seq<Step>
  {
    if xs == [] then [] else Insert(xs[0], Sort(xs[1..]))
  }

  method PlanWithOptions(input: Input) returns (steps: seq<Step>)
    ensures IsPlan(steps, input)
  {
    var wanted := TargetSteps(input, input.targets);
    var orphans := PlanOrphans(input);
    steps := Sort(wanted + orphans);
  }

  /** A plan the code can return: some order of the removals, then the sort. */
  ghost predicate IsPlan(steps: seq<Step>, input: Input)
  {
    exists orphans :: IsOrphanPlan(orphans, input) && steps == Sort(TargetSteps(input, input.targets) + orphans)
  }

  // ----- what the sort keeps -----

  /** The steps under one key, in order. */
  function Under(xs: seq<Step>, skill: string, target: string): seq<Step>
  {
    if xs == [] then []
    else (if xs[0].skill == skill && xs[0].target == target then [xs[0]] else []) + Under(xs[1..], skill, target)
  }

  ghost predicate InOrder(xs: seq<Step>)
  {
    forall i, j :: 0 <= i < j < |xs| ==> !KeyBefore(xs[j], xs[i])
  }

  lemma KeyTransitive(a: Step, b: Step, c: Step)
    requires !KeyBefore(b, a) && !KeyBefore(c, b)
    ensures !KeyBefore(c, a)
  {
    Total(a.skill, b.skill);
    Total(b.skill, c.skill);
    Total(a.target, b.target);
    Total(b.target, c.target);
    if KeyBefore(c, a) {
      if Before(c.skill, a.skill) {
        if a.skill != b.skill { Transitive(c.skill, a.skill, b.skill); }
      } else if a.skill == b.skill {
        if a.target != b.target { Transitive(c.target, a.target, b.target); }
      }
      if Before(c.skill, b.skill) { assert false; }
    }
  }

  lemma KeyAsymmetric(a: Step, b: Step)
    requires KeyBefore(a, b)
    ensures !KeyBefore(b, a)
  {
    if Before(a.skill, b.skill) {
      Asymmetric(a.skill, b.skill);
      Irreflexive(a.skill);
    } else {
      Asymmetric(a.target, b.target);
      Irreflexive(a.skill);
    }
  }

  lemma InOrderCons(x: Step, xs: seq<Step>)
    requires InOrder(xs) && forall s :: s in xs ==> !KeyBefore(s, x)
    ensures InOrder([x] + xs)
  {
  }

  lemma {:induction false} InsertMembers(x: Step, xs: seq<Step>, s: Step)
    ensures s in Insert(x, xs) <==> s == x || s in xs
  {
    if xs != [] && KeyBefore(xs[0], x) {
      InsertMembers(x, xs[1..], s);
      assert xs == [xs[0]] + xs[1..];
    }
  }

  lemma {:induction false} InsertKeeps(x: Step, xs: seq<Step>)
    requires InOrder(xs)
    ensures InOrder(Insert(x, xs))
  {
    if xs != [] && KeyBefore(xs[0], x) {
      InsertKeeps(x, xs[1..]);
      KeyAsymmetric(xs[0], x);
      forall s | s in Insert(x, xs[1..]) ensures !KeyBefore(s, xs[0]) {
        InsertMembers(x, xs[1..], s);
      }
      InOrderCons(xs[0], Insert(x, xs[1..]));
    } else if xs != [] {
      forall j | 0 <= j < |xs| ensures !KeyBefore(xs[j], x) {
        if j > 0 { KeyTransitive(x, xs[0], xs[j]); }
      }
      InOrderCons(x, xs);
    }
  }

  lemma {:induction false} SortKeeps(xs: seq<Step>)
    ensures InOrder(Sort(xs))
  {
    if xs != [] {
      SortKeeps(xs[1..]);
      InsertKeeps(xs[0], Sort(xs[1..]));
    }
  }

  lemma {:induction false} SortMembers(xs: seq<Step>, s: Step)
    ensures s in Sort(xs) <==> s in xs
  {
    if xs != [] {
      SortMembers(xs[1..], s);
      InsertMembers(xs[0], Sort(xs[1..]), s);
    }
  }

  lemma UnderCons(x: Step, xs: seq<Step>, skill: string, target: string)
    ensures Under([x] + xs, skill, target) ==
      (if x.skill == skill && x.target == target then [x] else []) + Under(xs, skill, target)
  {
    assert ([x] + xs)[1..] == xs;
  }

  lemma UnderSwapped(x: Step, y: Step, xs: seq<Step>, skill: string, target: string)
    requires KeyBefore(y, x)
    ensures Under([y] + ([x] + xs), skill, target) == Under([x] + ([y] + xs), skill, target)
  {
    Irreflexive(x.skill);
    Irreflexive(x.target);
    UnderCons(y, [x] + xs, skill, target);
    UnderCons(x, xs, skill, target);
    UnderCons(x, [y] + xs, skill, target);
    UnderCons(y, xs, skill, target);
  }

  lemma {:induction false} InsertUnder(x: Step, xs: seq<Step>, skill: string, target: string)
    ensures Under(Insert(x, xs), skill, target) == Under([x] + xs, skill, target)
  {
    if xs != [] && KeyBefore(xs[0], x) {
      var y, rest := xs[0], xs[1..];
      InsertUnder(x, rest, skill, target);
      UnderCons(y, Insert(x, rest), skill, target);
      UnderCons(y, [x] + rest, skill, target);
      UnderSwapped(x, y, rest, skill, target);
      assert xs == [y] + rest;
    }
  }

  /** The sort is stable: under each key the steps stay as they were. */
  lemma {:induction false} SortIsStable(xs: seq<Step>, skill: string, target: string)
    ensures Under(Sort(xs), skill, target) == Under(xs, skill, target)
  {
    if xs != [] {
      SortIsStable(xs[1..], skill, target);
      InsertUnder(xs[0], Sort(xs[1..]), skill, target);
      assert ([xs[0]] + Sort(xs[1..]))[1..] == Sort(xs[1..]);
    }
  }

  lemma {:induction false} UnderConcat(a: seq<Step>, b: seq<Step>, skill: string, target: string)
    ensures Under(a + b, skill, target) == Under(a, skill, target) + Under(b, skill, target)
  {
    if a == [] {
      assert a + b == b;
    } else {
      assert (a + b)[1..] == a[1..] + b;
      UnderConcat(a[1..], b, skill, target);
    }
  }

  lemma {:induction false} UnderMembers(xs: seq<Step>, skill: string, target: string, x: Step)
    ensures x in Under(xs, skill, target) <==> x in xs && x.skill == skill && x.target == target
  {
    if xs != [] {
      UnderMembers(xs[1..], skill, target, x);
    }
  }

  /** Ordered sequences that agree under every key are equal. */
  lemma {:induction false} OrderedByKeys(xs: seq<Step>, ys: seq<Step>)
    requires InOrder(xs) && InOrder(ys)
    requires forall skill, target :: Under(xs, skill, target) == Under(ys, skill, target)
    ensures xs == ys
    decreases |xs|
  {
    if xs == [] {
      if ys != [] {
        UnderMembers(ys, ys[0].skill, ys[0].target, ys[0]);
      }
    } else {
      var x := xs[0];
      UnderMembers(xs, x.skill, x.target, x);
      UnderMembers(ys, x.skill, x.target, x);
      var y := ys[0];
      UnderMembers(ys, y.skill, y.target, y);
      UnderMembers(xs, y.skill, y.target, y);
      SameKey(xs, ys);
      assert Under(xs, x.skill, x.target)[0] == x && Under(ys, x.skill, x.target)[0] == y;
      forall skill, target ensures Under(xs[1..], skill, target) == Under(ys[1..], skill, target) {
        UnderCons(x, xs[1..], skill, target);
        UnderCons(x, ys[1..], skill, target);
        assert xs == [x] + xs[1..] && ys == [x] + ys[1..];
        assert Under(xs, skill, target) == Under(ys, skill, target);
        var head := if x.skill == skill && x.target == target then [x] else [];
        assert Under(xs[1..], skill, target) == Under(xs, skill, target)[|head|..];
        assert Under(ys[1..], skill, target) == Under(ys, skill, target)[|head|..];
      }
      OrderedByKeys(xs[1..], ys[1..]);
      assert xs == [x] + xs[1..] && ys == [y] + ys[1..];
    }
  }

  lemma SameKey(xs: seq<Step>, ys: seq<Step>)
    requires xs != [] && ys != [] && InOrder(xs) && InOrder(ys) && xs[0] in ys && ys[0] in xs
    ensures xs[0].skill == ys[0].skill && xs[0].target == ys[0].target
  {
    assert !KeyBefore(xs[0], ys[0]) by {
      if xs[0] == ys[0] { Irreflexive(xs[0].skill); Irreflexive(xs[0].target); }
    }
    assert !KeyBefore(ys[0], xs[0]) by {
      if xs[0] == ys[0] { Irreflexive(xs[0].skill); Irreflexive(xs[0].target); }
    }
    Total(xs[0].skill, ys[0].skill);
    Total(xs[0].target, ys[0].target);
  }

  // ----- independence of the hash order -----

  /** No two removals of one skill are recorded at the same path. */
  ghost predicate OrphanKeysDiffer(input: Input)
  {
    forall p, q :: IsOrphan(input, p) && IsOrphan(input, q) && p != q && p.0 == q.0 ==>
      OrphanStep(input, p).target != OrphanStep(input, q).target
  }

  lemma {:induction false} AtMostOneUnder(input: Input, pairs: seq<Pair>, skill: string, target: string)
    requires OrphanKeysDiffer(input) && Distinct(pairs) && forall p :: p in pairs ==> IsOrphan(input, p)
    ensures |Under(OrphanSteps(input, pairs), skill, target)| <= 1
    decreases |pairs|
  {
    if pairs != [] {
      var steps := OrphanSteps(input, pairs);
      assert steps[1..] == OrphanSteps(input, pairs[1..]);
      AtMostOneUnder(input, pairs[1..], skill, target);
      var first, later := steps[0], Under(steps[1..], skill, target);
      forall i | 1 <= i < |pairs|
        ensures !(first.skill == steps[i].skill && first.target == steps[i].target)
      {
        assert pairs[0] != pairs[i];
      }
      if later != [] {
        UnderMembers(steps[1..], skill, target, later[0]);
      }
    }
  }

  lemma OrphanMembers(input: Input, pairs: seq<Pair>, step: Step)
    requires Enumerates(pairs, input)
    ensures step in OrphanSteps(input, pairs) <==> exists p :: IsOrphan(input, p) && step == OrphanStep(input, p)
  {
    var orphans := OrphanSteps(input, pairs);
    if step in orphans {
      var i :| 0 <= i < |orphans| && orphans[i] == step;
      assert pairs[i] in pairs;
    }
    if p :| IsOrphan(input, p) && step == OrphanStep(input, p) {
      assert p in pairs;
      var i :| 0 <= i < |pairs| && pairs[i] == p;
      assert orphans[i] == step;
    }
  }

  lemma AtMostOneEqual(u: seq<Step>, v: seq<Step>)
    requires |u| <= 1 && |v| <= 1 && forall s :: s in u <==> s in v
    ensures u == v
  {
    assert u != [] ==> u[0] in u;
    assert v != [] ==> v[0] in v;
  }

  lemma SameUnder(input: Input, a: seq<Pair>, b: seq<Pair>, skill: string, target: string)
    requires OrphanKeysDiffer(input) && Enumerates(a, input) && Enumerates(b, input)
    ensures Under(OrphanSteps(input, a), skill, target) == Under(OrphanSteps(input, b), skill, target)
  {
    var xs, ys := OrphanSteps(input, a), OrphanSteps(input, b);
    AtMostOneUnder(input, a, skill, target);
    AtMostOneUnder(input, b, skill, target);
    forall s ensures s in Under(xs, skill, target) <==> s in Under(ys, skill, target) {
      OrphanMembers(input, a, s);
      OrphanMembers(input, b, s);
      UnderMembers(xs, skill, target, s);
      UnderMembers(ys, skill, target, s);
    }
    AtMostOneEqual(Under(xs, skill, target), Under(ys, skill, target));
  }

  lemma {:induction false} CanEnumerate(ps: set<Pair>) returns (pairs: seq<Pair>)
    ensures Distinct(pairs) && forall p :: p in pairs <==> p in ps
    decreases |ps|
  {
    if ps == {} {
      pairs := [];
    } else {
      var p :| p in ps;
      var rest := CanEnumerate(ps - {p});
      pairs := [p] + rest;
    }
  }

  ghost function Orphans(input: Input): (ps: set<Pair>)
    ensures forall p :: p in ps <==> IsOrphan(input, p)
  {
    set id, tid | id in input.state && tid in input.state[id].providers && IsOrphan(input, (id, tid)) :: (id, tid)
  }

  lemma EqualSorted(wanted: seq<Step>, a: seq<Step>, b: seq<Step>)
    requires forall skill, target :: Under(a, skill, target) == Under(b, skill, target)
    ensures Sort(wanted + a) == Sort(wanted + b)
  {
    SortKeeps(wanted + a);
    SortKeeps(wanted + b);
    forall skill, target ensures Under(Sort(wanted + a), skill, target) == Under(Sort(wanted + b), skill, target) {
      SortIsStable(wanted + a, skill, target);
      SortIsStable(wanted + b, skill, target);
      UnderConcat(wanted, a, skill, target);
      UnderConcat(wanted, b, skill, target);
    }
    OrderedByKeys(Sort(wanted + a), Sort(wanted + b));
  }

  lemma SwappedDiffers(wanted: seq<Step>, x: Step, y: Step, rest: seq<Step>)
    requires x != y && x.skill == y.skill && x.target == y.target
    ensures Sort(wanted + ([x, y] + rest)) != Sort(wanted + ([y, x] + rest))
  {
    var a, b := [x, y] + rest, [y, x] + rest;
    var s, t := x.skill, x.target;
    SortIsStable(wanted + a, s, t);
    SortIsStable(wanted + b, s, t);
    UnderConcat(wanted, a, s, t);
    UnderConcat(wanted, b, s, t);
    assert Under(a, s, t)[0] == x && Under(b, s, t)[0] == y;
    var n := |Under(wanted, s, t)|;
    assert Under(Sort(wanted + a), s, t)[n] == x;
    assert Under(Sort(wanted + b), s, t)[n] == y;
  }

  /** The plan does not depend on the order of the hash maps, exactly when removals of one skill differ in path. */
  lemma PlanIsDetermined(input: Input)
    ensures (forall p, q :: IsPlan(p, input) && IsPlan(q, input) ==> p == q) <==> OrphanKeysDiffer(input)
  {
    var wanted := TargetSteps(input, input.targets);
    if OrphanKeysDiffer(input) {
      forall p, q | IsPlan(p, input) && IsPlan(q, input) ensures p == q {
        var a :| IsOrphanPlan(a, input) && p == Sort(wanted + a);
        var b :| IsOrphanPlan(b, input) && q == Sort(wanted + b);
        var aPairs :| Enumerates(aPairs, input) && a == OrphanSteps(input, aPairs);
        var bPairs :| Enumerates(bPairs, input) && b == OrphanSteps(input, bPairs);
        forall skill, target ensures Under(a, skill, target) == Under(b, skill, target) {
          SameUnder(input, aPairs, bPairs, skill, target);
        }
        EqualSorted(wanted, a, b);
      }
    } else {
      var p, q :| IsOrphan(input, p) && IsOrphan(input, q) && p != q && p.0 == q.0
        && OrphanStep(input, p).target == OrphanStep(input, q).target;
      var rest := CanEnumerate(Orphans(input) - {p, q});
      TwoPlans(input, p, q, rest);
    }
  }

  lemma DistinctCons(p: Pair, rest: seq<Pair>)
    requires Distinct(rest) && p !in rest
    ensures Distinct([p] + rest)
  {
  }

  lemma TwoPlans(input: Input, p: Pair, q: Pair, rest: seq<Pair>)
    requires IsOrphan(input, p) && IsOrphan(input, q) && p != q && p.0 == q.0
    requires OrphanStep(input, p).target == OrphanStep(input, q).target
    requires Distinct(rest) && forall r :: r in rest <==> r in Orphans(input) - {p, q}
    ensures exists a, b :: IsPlan(a, input) && IsPlan(b, input) && a != b
  {
    var wanted := TargetSteps(input, input.targets);
    DistinctCons(q, rest);
    DistinctCons(p, [q] + rest);
    DistinctCons(p, rest);
    DistinctCons(q, [p] + rest);
    assert [p, q] + rest == [p] + ([q] + rest) && [q, p] + rest == [q] + ([p] + rest);
    assert Enumerates([p, q] + rest, input) && Enumerates([q, p] + rest, input);
    var x, y, r := OrphanStep(input, p), OrphanStep(input, q), OrphanSteps(input, rest);
    assert OrphanSteps(input, [p, q] + rest) == [x, y] + r;
    assert OrphanSteps(input, [q, p] + rest) == [y, x] + r;
    assert IsOrphanPlan([x, y] + r, input) && IsOrphanPlan([y, x] + r, input);
    SwappedDiffers(wanted, x, y, r);
    assert IsPlan(Sort(wanted + ([x, y] + r)), input) && IsPlan(Sort(wanted + ([y, x] + r)), input);
  }

  // ----- coverage -----

  /** How many steps a plan has for a pair. */
  function Count(steps: seq<Step>, pair: Pair): nat
  {
    if steps == [] then 0
    else (if (steps[0].skill, steps[0].id) == pair then 1 else 0) + Count(steps[1..], pair)
  }

  lemma {:induction false} CountConcat(a: seq<Step>, b: seq<Step>, pair: Pair)
    ensures Count(a + b, pair) == Count(a, pair) + Count(b, pair)
  {
    if a == [] {
      assert a + b == b;
    } else {
      assert (a + b)[1..] == a[1..] + b;
      CountConcat(a[1..], b, pair);
    }
  }

  lemma {:induction false} CountInsert(x: Step, xs: seq<Step>, pair: Pair)
    ensures Count(Insert(x, xs), pair) == Count([x], pair) + Count(xs, pair)
  {
    assert [x][1..] == [];
    if xs != [] && KeyBefore(xs[0], x) {
      CountInsert(x, xs[1..], pair);
      assert ([xs[0]] + Insert(x, xs[1..]))[1..] == Insert(x, xs[1..]);
    } else {
      assert ([x] + xs)[1..] == xs;
    }
  }

  lemma {:induction false} CountSort(xs: seq<Step>, pair: Pair)
    ensures Count(Sort(xs), pair) == Count(xs, pair)
  {
    if xs != [] {
      CountSort(xs[1..], pair);
      CountInsert(xs[0], Sort(xs[1..]), pair);
      assert [xs[0]][1..] == [];
    }
  }

  /** One entry per skill and target id, each for an available target. */
  ghost predicate TargetsFit(input: Input)
  {
    && (forall i, j :: 0 <= i < j < |input.targets| ==>
          (input.targets[i].skill, input.targets[i].id) != (input.targets[j].skill, input.targets[j].id))
    && (forall i :: 0 <= i < |input.targets| ==> input.targets[i].id in input.available)
  }

  /** A target whose skill is declared. */
  ghost predicate IsWanted(input: Input, targets: seq<Target>, pair: Pair)
  {
    Declared(input.skills, pair.0).Some? && exists i :: 0 <= i < |targets| && (targets[i].skill, targets[i].id) == pair
  }

  lemma {:induction false} CountWanted(input: Input, targets: seq<Target>, pair: Pair)
    requires forall i, j :: 0 <= i < j < |targets| ==>
      (targets[i].skill, targets[i].id) != (targets[j].skill, targets[j].id)
    ensures Count(TargetSteps(input, targets), pair) == if IsWanted(input, targets, pair) then 1 else 0
    decreases |targets|
  {
    if targets != [] {
      var front, last := targets[..|targets| - 1], targets[|targets| - 1];
      CountWanted(input, front, pair);
      assert IsWanted(input, targets, pair) <==>
        IsWanted(input, front, pair) || (Declared(input.skills, pair.0).Some? && (last.skill, last.id) == pair);
      var skill := Declared(input.skills, last.skill);
      if skill.Some? {
        var step := PlanForSkill(skill.value, last, input.state, input.options);
        assert (step.skill, step.id) == (last.skill, last.id);
        assert [step][1..] == [];
        CountConcat(TargetSteps(input, front), [step], pair);
      }
    }
  }

  lemma {:induction false} CountOrphans(input: Input, pairs: seq<Pair>, pair: Pair)
    requires Distinct(pairs) && forall p :: p in pairs ==> Recorded(input.state, p)
    ensures Count(OrphanSteps(input, pairs), pair) == if pair in pairs then 1 else 0
    decreases |pairs|
  {
    if pairs != [] {
      assert OrphanSteps(input, pairs)[1..] == OrphanSteps(input, pairs[1..]);
      CountOrphans(input, pairs[1..], pair);
    }
  }

  /**
   * Every declared target and every orphan has exactly one step, no other pair has any, and no pair is both
   * written and removed.
   */
  lemma PlanCovers(input: Input, plan: seq<Step>, pair: Pair)
    requires IsPlan(plan, input) && TargetsFit(input)
    ensures Count(plan, pair) == if IsWanted(input, input.targets, pair) || IsOrphan(input, pair) then 1 else 0
    ensures !(IsWanted(input, input.targets, pair) && IsOrphan(input, pair))
  {
    var wanted := TargetSteps(input, input.targets);
    var orphans :| IsOrphanPlan(orphans, input) && plan == Sort(wanted + orphans);
    var pairs :| Enumerates(pairs, input) && orphans == OrphanSteps(input, pairs);
    CountSort(wanted + orphans, pair);
    CountConcat(wanted, orphans, pair);
    CountWanted(input, input.targets, pair);
    CountOrphans(input, pairs, pair);
  }

  lemma {:induction false} WantedMembers(input: Input, targets: seq<Target>, step: Step)
    ensures step in TargetSteps(input, targets) <==>
      exists i :: 0 <= i < |targets| && Declared(input.skills, targets[i].skill).Some?
        && step == PlanForSkill(Declared(input.skills, targets[i].skill).value, targets[i], input.state, input.options)
    decreases |targets|
  {
    if targets != [] {
      WantedMembers(input, targets[..|targets| - 1], step);
    }
  }

  /** What the steps of a plan are: the planned targets and the removals of the orphans. */
  lemma PlanMembers(input: Input, plan: seq<Step>, step: Step)
    requires IsPlan(plan, input)
    ensures step in plan <==>
      || (exists i :: 0 <= i < |input.targets| && Declared(input.skills, input.targets[i].skill).Some?
            && step == PlanForSkill(Declared(input.skills, input.targets[i].skill).value, input.targets[i],
                                    input.state, input.options))
      || (exists p :: IsOrphan(input, p) && step == OrphanStep(input, p))
  {
    var wanted := TargetSteps(input, input.targets);
    var orphans :| IsOrphanPlan(orphans, input) && plan == Sort(wanted + orphans);
    var pairs :| Enumerates(pairs, input) && orphans == OrphanSteps(input, pairs);
    SortMembers(wanted + orphans, step);
    WantedMembers(input, input.targets, step);
    OrphanMembers(input, pairs, step);
  }

  /** A recorded pair is removed exactly when it is undeclared or unavailable. */
  lemma RemovedIffOrphan(input: Input, plan: seq<Step>, pair: Pair)
    requires IsPlan(plan, input) && Recorded(input.state, pair) && input.valid(pair.0)
    ensures (exists step :: step in plan && step.action == Remove && (step.skill, step.id) == pair)
      <==> Declared(input.skills, pair.0).None? || pair.1 !in input.available
  {
    if step :| step in plan && step.action == Remove && (step.skill, step.id) == pair {
      PlanMembers(input, plan, step);
    }
    if IsOrphan(input, pair) {
      PlanMembers(input, plan, OrphanStep(input, pair));
    }
  }

  /** A target that needs nothing: at a recorded commit, or in place and recorded in its mode. */
  ghost predicate Settled(input: Input, target: Target)
    requires Declared(input.skills, target.skill).Some?
  {
    var skill := Declared(input.skills, target.skill).value;
    || AtRecordedCommit(skill, input.state, input.options)
    || (target.status == InPlace && Recorded(input.state, (skill.id, target.id))
        && RecordedMode(input.state[skill.id].providers[target.id]) == skill.mode)
  }

  /** Nothing is to be done exactly when every declared target is settled and nothing is orphaned. */
  lemma AllUnchangedIff(input: Input, plan: seq<Step>)
    requires IsPlan(plan, input)
    ensures (forall step :: step in plan ==> step.action == Unchanged) <==>
      && (forall i :: 0 <= i < |input.targets| && Declared(input.skills, input.targets[i].skill).Some? ==>
            Settled(input, input.targets[i]))
      && (forall p :: !IsOrphan(input, p))
  {
    if forall step :: step in plan ==> step.action == Unchanged {
      forall i | 0 <= i < |input.targets| && Declared(input.skills, input.targets[i].skill).Some?
        ensures Settled(input, input.targets[i])
      {
        PlanMembers(input, plan, PlanForSkill(Declared(input.skills, input.targets[i].skill).value,
                                              input.targets[i], input.state, input.options));
      }
      forall p ensures !IsOrphan(input, p) {
        if IsOrphan(input, p) {
          PlanMembers(input, plan, OrphanStep(input, p));
        }
      }
    }
    if (forall i :: 0 <= i < |input.targets| && Declared(input.skills, input.targets[i].skill).Some? ==>
          Settled(input, input.targets[i])) && (forall p :: !IsOrphan(input, p)) {
      forall step | step in plan ensures step.action == Unchanged {
        PlanMembers(input, plan, step);
      }
    }
  }
}
