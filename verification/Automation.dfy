/** The sweep over stored automation decisions. */
module Automation {
  import opened Order
  import opened Results
  import Repetition
  import Grouping

  datatype Kind = Accepted | Declined | Deferred

  /** What the sweep reads of a stored decision. */
  datatype Decision = Decision(id: int, kind: Kind, until: Option<string>, texts: set<string>)

  predicate IsInForce(d: Decision, today: string, artifactExists: bool)
  {
    match d.kind
    case Accepted => artifactExists
    case Declined => true
    case Deferred => d.until.None? || AtMost(today, d.until.value)
  }

  predicate Matches(d: Decision, texts: set<string>)
  {
    texts * d.texts != {}
  }

  /** Whether a decision is one the sweep judges by the groups. */
  predicate ReadsGroups(d: Decision, today: string)
  {
    d.kind.Declined? || (d.kind.Deferred? && IsInForce(d, today, true))
  }

  predicate NeedsGroups(decisions: seq<Decision>, today: string)
  {
    exists d :: d in decisions && ReadsGroups(d, today)
  }

  datatype Plan = Plan(extend: seq<(int, set<string>)>, delete: seq<int>)

  const NOTHING := Plan([], [])

  /** The texts of the groups that meet `d` and that `d` does not hold yet. */
  ghost function Added(d: Decision, groups: seq<set<string>>): set<string>
  {
    set k, t | 0 <= k < |groups| && Matches(d, groups[k]) && t in groups[k] && t !in d.texts :: t
  }

  ghost predicate MetBy(d: Decision, groups: seq<set<string>>)
  {
    exists k :: 0 <= k < |groups| && Matches(d, groups[k])
  }

  ghost predicate Deletes(d: Decision, groups: seq<set<string>>, today: string)
  {
    match d.kind
    case Accepted => false
    case Declined => !MetBy(d, groups)
    case Deferred => !IsInForce(d, today, true)
  }

  ghost predicate Extends(d: Decision, groups: seq<set<string>>, today: string)
  {
    ReadsGroups(d, today) && Added(d, groups) != {}
  }

  /** The plan, decision by decision. */
  ghost function Planned(decisions: seq<Decision>, groups: seq<set<string>>, today: string): Plan
  {
    if decisions == [] then NOTHING
    else
      var d, before := decisions[|decisions| - 1], Planned(decisions[..|decisions| - 1], groups, today);
      if Deletes(d, groups, today) then before.(delete := before.delete + [d.id])
      else if Extends(d, groups, today) then before.(extend := before.extend + [(d.id, Added(d, groups))])
      else before
  }

  lemma PlannedGrows(decisions: seq<Decision>, groups: seq<set<string>>, today: string, n: nat)
    requires n < |decisions|
    ensures var before, d := Planned(decisions[..n], groups, today), decisions[n];
      Planned(decisions[..n + 1], groups, today)
      == if Deletes(d, groups, today) then before.(delete := before.delete + [d.id])
         else if Extends(d, groups, today) then before.(extend := before.extend + [(d.id, Added(d, groups))])
         else before
  {
    assert decisions[..n + 1][..n] == decisions[..n];
  }

  method Scan(d: Decision, groups: seq<set<string>>) returns (matched: bool, added: set<string>)
    ensures matched <==> MetBy(d, groups)
    ensures added == Added(d, groups)
  {
    matched, added := false, {};
    for k := 0 to |groups|
      invariant matched <==> MetBy(d, groups[..k])
      invariant added == Added(d, groups[..k])
    {
      assert groups[..k + 1] == groups[..k] + [groups[k]];
      if Matches(d, groups[k]) {
        assert Matches(d, groups[..k + 1][k]);
        matched := true;
        added := added + (groups[k] - d.texts);
      }
    }
    assert groups[..|groups|] == groups;
  }

  method PlanSweep(decisions: seq<Decision>, groups: seq<set<string>>, today: string) returns (plan: Plan)
    ensures plan == Planned(decisions, groups, today)
  {
    plan := NOTHING;
    for n := 0 to |decisions|
      invariant plan == Planned(decisions[..n], groups, today)
    {
      var d := decisions[n];
      PlannedGrows(decisions, groups, today, n);
      if d.kind.Accepted? {
      } else if d.kind.Deferred? && !IsInForce(d, today, true) {
        plan := plan.(delete := plan.delete + [d.id]);
      } else {
        var matched, added := Scan(d, groups);
        if !matched && d.kind.Declined? {
          plan := plan.(delete := plan.delete + [d.id]);
        } else if added != {} {
          plan := plan.(extend := plan.extend + [(d.id, added)]);
        }
      }
    }
    assert decisions[..|decisions|] == decisions;
  }

  // ----- carrying the plan out -----

  ghost predicate DistinctIds(decisions: seq<Decision>)
  {
    forall i, j :: 0 <= i < j < |decisions| ==> decisions[i].id != decisions[j].id
  }

  ghost function Gained(plan: Plan, id: int): set<string>
  {
    set k, t | 0 <= k < |plan.extend| && plan.extend[k].0 == id && t in plan.extend[k].1 :: t
  }

  /** The stored decisions after the plan: texts added, then decisions deleted. */
  ghost function Applied(decisions: seq<Decision>, plan: Plan): seq<Decision>
  {
    if decisions == [] then []
    else
      var d := decisions[|decisions| - 1];
      Applied(decisions[..|decisions| - 1], plan)
      + if d.id in plan.delete then [] else [d.(texts := d.texts + Gained(plan, d.id))]
  }

  /** What the sweep leaves of the decisions it keeps. */
  ghost function Swept(decisions: seq<Decision>, groups: seq<set<string>>, today: string): seq<Decision>
  {
    if decisions == [] then []
    else
      var d := decisions[|decisions| - 1];
      Swept(decisions[..|decisions| - 1], groups, today)
      + if Deletes(d, groups, today) then [] else [After(d, groups, today)]
  }

  ghost function After(d: Decision, groups: seq<set<string>>, today: string): Decision
  {
    if ReadsGroups(d, today) then d.(texts := d.texts + Added(d, groups)) else d
  }

  lemma {:induction false} DeletedIds(decisions: seq<Decision>, groups: seq<set<string>>, today: string, id: int)
    ensures id in Planned(decisions, groups, today).delete
       <==> exists d :: d in decisions && d.id == id && Deletes(d, groups, today)
  {
    if decisions != [] {
      var n := |decisions| - 1;
      DeletedIds(decisions[..n], groups, today, id);
      assert decisions == decisions[..n] + [decisions[n]];
    }
  }

  lemma {:induction false} GainedTexts(
      decisions: seq<Decision>, groups: seq<set<string>>, today: string, id: int, t: string)
    ensures t in Gained(Planned(decisions, groups, today), id)
       <==> exists d :: d in decisions && d.id == id && !Deletes(d, groups, today)
                        && ReadsGroups(d, today) && t in Added(d, groups)
  {
    if decisions != [] {
      var n := |decisions| - 1;
      var d, before, plan := decisions[n], Planned(decisions[..n], groups, today), Planned(decisions, groups, today);
      GainedTexts(decisions[..n], groups, today, id, t);
      assert decisions == decisions[..n] + [d];
      if plan.extend != before.extend {
        assert plan.extend == before.extend + [(d.id, Added(d, groups))];
        GainedAppended(before, plan, d.id, Added(d, groups), id);
      } else {
        assert Gained(plan, id) == Gained(before, id);
      }
    }
  }

  lemma GainedAppended(before: Plan, plan: Plan, newId: int, texts: set<string>, id: int)
    requires plan.extend == before.extend + [(newId, texts)]
    ensures Gained(plan, id) == Gained(before, id) + if newId == id then texts else {}
  {
    forall t | t in Gained(before, id) ensures t in Gained(plan, id) {
      var k :| 0 <= k < |before.extend| && before.extend[k].0 == id && t in before.extend[k].1;
      assert plan.extend[k] == before.extend[k];
    }
    assert plan.extend[|before.extend|] == (newId, texts);
  }

  /** With distinct ids, the plan does to each decision what its own verdict says. */
  lemma PlanPerDecision(decisions: seq<Decision>, groups: seq<set<string>>, today: string, d: Decision)
    requires DistinctIds(decisions) && d in decisions
    ensures var plan := Planned(decisions, groups, today);
      && (d.id in plan.delete <==> Deletes(d, groups, today))
      && Gained(plan, d.id) == if !Deletes(d, groups, today) && ReadsGroups(d, today) then Added(d, groups) else {}
  {
    var plan := Planned(decisions, groups, today);
    DeletedIds(decisions, groups, today, d.id);
    assert forall e :: e in decisions && e.id == d.id ==> e == d;
    forall t ensures t in Gained(plan, d.id)
      <==> !Deletes(d, groups, today) && ReadsGroups(d, today) && t in Added(d, groups)
    {
      GainedTexts(decisions, groups, today, d.id, t);
    }
  }

  lemma {:induction false} AppliedIsSwept(
      decisions: seq<Decision>, groups: seq<set<string>>, today: string, n: nat)
    requires DistinctIds(decisions) && n <= |decisions|
    ensures Applied(decisions[..n], Planned(decisions, groups, today)) == Swept(decisions[..n], groups, today)
  {
    if n > 0 {
      AppliedIsSwept(decisions, groups, today, n - 1);
      assert decisions[..n][..n - 1] == decisions[..n - 1];
      PlanPerDecision(decisions, groups, today, decisions[n - 1]);
      assert decisions[n - 1].texts + {} == decisions[n - 1].texts;
    }
  }

  /** The texts that share a group with `a`. */
  ghost function Star(groups: seq<set<string>>, a: string): set<string>
  {
    set k, t | 0 <= k < |groups| && a in groups[k] && t in groups[k] :: t
  }

  /** A group that meets the texts around some text lies within them. */
  ghost predicate StarsAreClosed(groups: seq<set<string>>)
  {
    forall k, a, t | 0 <= k < |groups| && t in groups[k] && t in Star(groups, a) :: groups[k] <= Star(groups, a)
  }

  lemma MetIsGained(d: Decision, groups: seq<set<string>>, today: string, k: nat)
    requires k < |groups| && Matches(d, groups[k]) && ReadsGroups(d, today)
    ensures groups[k] <= After(d, groups, today).texts
  {
  }

  /** What is met through a text of `d` lies in what `d` gains. */
  lemma StarIsGained(d: Decision, groups: seq<set<string>>, today: string, a: string)
    requires a in d.texts && ReadsGroups(d, today)
    ensures Star(groups, a) <= After(d, groups, today).texts
  {
    forall t | t in Star(groups, a) ensures t in After(d, groups, today).texts {
      var k: nat :| k < |groups| && a in groups[k] && t in groups[k];
      assert a in groups[k] * d.texts;
      MetIsGained(d, groups, today, k);
    }
  }

  /** With closed stars, there is nothing left to do to a decision that the sweep keeps. */
  lemma KeptIsSettled(d: Decision, groups: seq<set<string>>, today: string)
    requires StarsAreClosed(groups) && !Deletes(d, groups, today)
    ensures var a := After(d, groups, today); !Deletes(a, groups, today) && !Extends(a, groups, today)
  {
    var a := After(d, groups, today);
    if ReadsGroups(d, today) {
      if k :| 0 <= k < |groups| && Matches(d, groups[k]) {
        var t :| t in groups[k] * d.texts;
        assert t in groups[k] * a.texts;
      }
      forall k: nat | k < |groups| && Matches(a, groups[k]) ensures groups[k] <= a.texts {
        var t :| t in groups[k] * a.texts;
        if t in d.texts {
          assert t in groups[k] * d.texts;
          MetIsGained(d, groups, today, k);
        } else {
          var l :| 0 <= l < |groups| && Matches(d, groups[l]) && t in groups[l];
          var x :| x in groups[l] * d.texts;
          assert t in Star(groups, x);
          StarIsGained(d, groups, today, x);
        }
      }
    }
  }

  lemma {:induction false} SettledPlan(
      decisions: seq<Decision>, groups: seq<set<string>>, today: string)
    requires forall d :: d in decisions ==> !Deletes(d, groups, today) && !Extends(d, groups, today)
    ensures Planned(decisions, groups, today) == NOTHING
  {
    if decisions != [] {
      SettledPlan(decisions[..|decisions| - 1], groups, today);
    }
  }

  lemma {:induction false} SweptAreSettled(
      decisions: seq<Decision>, groups: seq<set<string>>, today: string, a: Decision)
    requires StarsAreClosed(groups) && a in Swept(decisions, groups, today)
    ensures !Deletes(a, groups, today) && !Extends(a, groups, today)
  {
    var n := |decisions| - 1;
    var d := decisions[n];
    if a in Swept(decisions[..n], groups, today) {
      SweptAreSettled(decisions[..n], groups, today, a);
    } else {
      KeptIsSettled(d, groups, today);
    }
  }

  lemma ClosedIsIdempotent(decisions: seq<Decision>, groups: seq<set<string>>, today: string)
    requires DistinctIds(decisions) && StarsAreClosed(groups)
    ensures Planned(Applied(decisions, Planned(decisions, groups, today)), groups, today) == NOTHING
  {
    AppliedIsSwept(decisions, groups, today, |decisions|);
    assert decisions[..|decisions|] == decisions;
    forall a | a in Swept(decisions, groups, today) ensures !Deletes(a, groups, today) && !Extends(a, groups, today) {
      SweptAreSettled(decisions, groups, today, a);
    }
    SettledPlan(Swept(decisions, groups, today), groups, today);
  }

  lemma OneSwept(d: Decision, groups: seq<set<string>>, today: string)
    requires !Deletes(d, groups, today)
    ensures Applied([d], Planned([d], groups, today)) == [After(d, groups, today)]
  {
    AppliedIsSwept([d], groups, today, 1);
    assert [d][..1] == [d] && [d][..0] == [];
    assert Swept([], groups, today) == [];
  }

  /** A group that meets the star of `a` without lying in it leaves a declined decision on `a` unsettled. */
  lemma OpenStarNeedsAnotherSweep(groups: seq<set<string>>, k: nat, a: string, t: string, today: string)
    requires k < |groups| && t in groups[k] && t in Star(groups, a) && !(groups[k] <= Star(groups, a))
    ensures var decisions := [Decision(1, Declined, None, {a})];
      Planned(Applied(decisions, Planned(decisions, groups, today)), groups, today) != NOTHING
  {
    var d := Decision(1, Declined, None, {a});
    var l :| 0 <= l < |groups| && a in groups[l] && t in groups[l];
    assert a in groups[l] * d.texts;
    assert Matches(d, groups[l]);
    OneSwept(d, groups, today);
    var e := After(d, groups, today);
    assert e.texts == Star(groups, a) by {
      forall x ensures x in e.texts <==> x in Star(groups, a) {
        if x in Added(d, groups) {
          var m :| 0 <= m < |groups| && Matches(d, groups[m]) && x in groups[m];
          assert a in groups[m];
        }
        if x in Star(groups, a) && x != a {
          var m :| 0 <= m < |groups| && a in groups[m] && x in groups[m];
          assert a in groups[m] * d.texts;
        }
      }
    }
    assert t in groups[k] * e.texts;
    var u :| u in groups[k] && u !in Star(groups, a);
    assert u in Added(e, groups);
    assert [e][..0] == [];
    assert Planned([], groups, today) == NOTHING;
  }

  /** The condition on the groups that makes sweeping idempotent, for whatever decisions are stored. */
  lemma SweepIsIdempotentIff(groups: seq<set<string>>, today: string)
    ensures (forall decisions | DistinctIds(decisions) ::
               Planned(Applied(decisions, Planned(decisions, groups, today)), groups, today) == NOTHING)
       <==> StarsAreClosed(groups)
  {
    if StarsAreClosed(groups) {
      forall decisions | DistinctIds(decisions)
        ensures Planned(Applied(decisions, Planned(decisions, groups, today)), groups, today) == NOTHING
      {
        ClosedIsIdempotent(decisions, groups, today);
      }
    } else {
      var k: nat, a, t :| k < |groups| && t in groups[k] && t in Star(groups, a) && !(groups[k] <= Star(groups, a));
      OpenStarNeedsAnotherSweep(groups, k, a, t, today);
      assert DistinctIds([Decision(1, Declined, None, {a})]);
    }
  }

  ghost predicate Disjoint(groups: seq<set<string>>)
  {
    forall k, l :: 0 <= k < l < |groups| ==> groups[k] !! groups[l]
  }

  /** In disjoint groups a star is its one group. */
  lemma DisjointIsClosed(groups: seq<set<string>>)
    requires Disjoint(groups)
    ensures StarsAreClosed(groups)
  {
    forall k, a, t | 0 <= k < |groups| && t in groups[k] && t in Star(groups, a)
      ensures groups[k] <= Star(groups, a)
    {
      var l :| 0 <= l < |groups| && a in groups[l] && t in groups[l];
      assert k == l;
    }
  }

  ghost function TextSets(groups: seq<Repetition.Group>): seq<set<string>>
  {
    seq(|groups|, k requires 0 <= k < |groups| => Repetition.TextsOf(groups[k].members))
  }

  /** The plan of one sweep: the groups are formed only when some decision reads them. */
  ghost function SweepPlan(decisions: seq<Decision>, groups: seq<set<string>>, today: string): Plan
  {
    Planned(decisions, if NeedsGroups(decisions, today) then groups else [], today)
  }

  /** One sweep: its plan carried out. */
  ghost function Sweep(decisions: seq<Decision>, groups: seq<set<string>>, today: string): seq<Decision>
  {
    Applied(decisions, SweepPlan(decisions, groups, today))
  }

  /** A sweep fed by the grouping is idempotent, whichever of the two runs forms the groups. */
  lemma SweepOfGroupsIsIdempotent(
      edge: Repetition.Edges, prints: seq<Repetition.Fingerprint>, groups: seq<Repetition.Group>,
      decisions: seq<Decision>, today: string)
    requires Repetition.IsGrouping(edge, prints, groups) && DistinctIds(decisions)
    ensures var sets := TextSets(groups);
      SweepPlan(Sweep(decisions, sets, today), sets, today) == NOTHING
  {
    var sets := TextSets(groups);
    forall k: nat, l: nat | k < l < |groups| ensures sets[k] !! sets[l] {
      Grouping.DisjointTexts(edge, prints, groups, k, l);
    }
    DisjointIsClosed(sets);
    ClosedIsIdempotent(decisions, sets, today);
    SwitchDoesNotMatter(decisions, sets, today);
    SwitchDoesNotMatter(Applied(decisions, Planned(decisions, sets, today)), sets, today);
  }

  lemma SwitchDoesNotMatter(decisions: seq<Decision>, groups: seq<set<string>>, today: string)
    ensures SweepPlan(decisions, groups, today) == Planned(decisions, groups, today)
  {
    if !NeedsGroups(decisions, today) {
      UnreadGroupsDoNotMatter(decisions, [], groups, today);
    }
  }

  /** Overlapping groups break it: the texts gained in one sweep meet another group in the next. */
  lemma OverlapNeedsAnotherSweep()
    ensures var groups := [{"b", "c"}, {"a", "b"}];
      var once := Applied([Decision(1, Declined, None, {"a"})], Plan([(1, {"b"})], []));
      && Planned([Decision(1, Declined, None, {"a"})], groups, "") == Plan([(1, {"b"})], [])
      && Planned(once, groups, "") != NOTHING
  {
    var groups := [{"b", "c"}, {"a", "b"}];
    var d := Decision(1, Declined, None, {"a"});
    assert "a" in groups[1] * d.texts;
    assert groups[0] * d.texts == {};
    assert "b" in groups[1] && "b" !in d.texts;
    assert Added(d, groups) == {"b"};
    assert Planned([d][..0], groups, "") == NOTHING;
    var plan := Plan([(1, {"b"})], []);
    assert plan.extend[0] == (1, {"b"});
    var e := d.(texts := {"a", "b"});
    assert Gained(plan, 1) == {"b"};
    assert d.texts + {"b"} == e.texts;
    assert Applied([d][..0], plan) == [];
    assert "b" in groups[0] * e.texts && "c" in groups[0] && "c" !in e.texts;
    assert "c" in Added(e, groups);
    assert Planned([e][..0], groups, "") == NOTHING;
  }

  /** What one plan does to each decision: the deletions exactly, and additions only from groups it meets. */
  lemma SweepVerdicts(decisions: seq<Decision>, groups: seq<set<string>>, today: string, d: Decision)
    requires DistinctIds(decisions) && d in decisions
    ensures var plan := Planned(decisions, groups, today);
      && (d.kind.Accepted? ==> d.id !in plan.delete && Gained(plan, d.id) == {})
      && (d.kind.Declined? ==> (d.id in plan.delete <==> forall g :: g in groups ==> g !! d.texts))
      && (d.kind.Deferred? ==> (d.id in plan.delete <==> d.until.Some? && Before(d.until.value, today)))
      && (forall t :: t in Gained(plan, d.id) ==> t !in d.texts && exists g :: g in groups && t in g && !(g !! d.texts))
      && (d.id !in plan.delete && !d.kind.Accepted? ==>
            forall g :: g in groups && !(g !! d.texts) ==> g <= d.texts + Gained(plan, d.id))
  {
    var plan := Planned(decisions, groups, today);
    PlanPerDecision(decisions, groups, today, d);
    forall g | g in groups ensures Matches(d, g) <==> !(g !! d.texts) {
      if Matches(d, g) {
        var t :| t in g * d.texts;
        assert t in g && t in d.texts;
      } else {
        assert forall t :: t in g ==> t !in g * d.texts;
      }
    }
    if d.kind.Declined? && d.id in plan.delete {
      forall g | g in groups ensures g !! d.texts {
        var k :| 0 <= k < |groups| && groups[k] == g;
        assert !Matches(d, groups[k]);
      }
    }
    if d.kind.Deferred? && d.until.Some? {
      Total(d.until.value, today);
      if Before(d.until.value, today) {
        Asymmetric(d.until.value, today);
        Irreflexive(today);
      }
    }
    forall t | t in Gained(plan, d.id) ensures t !in d.texts && exists g :: g in groups && t in g && !(g !! d.texts) {
      var k :| 0 <= k < |groups| && Matches(d, groups[k]) && t in groups[k] && t !in d.texts;
      assert groups[k] in groups;
    }
    if d.id !in plan.delete && !d.kind.Accepted? {
      forall g | g in groups && !(g !! d.texts) ensures g <= d.texts + Gained(plan, d.id) {
        var k :| 0 <= k < |groups| && groups[k] == g;
        assert Matches(d, groups[k]);
      }
    }
  }

  // ----- when the groups are needed -----

  lemma {:induction false} UnreadGroupsDoNotMatter(
      decisions: seq<Decision>, g1: seq<set<string>>, g2: seq<set<string>>, today: string)
    requires !NeedsGroups(decisions, today)
    ensures Planned(decisions, g1, today) == Planned(decisions, g2, today)
  {
    if decisions != [] {
      var n := |decisions| - 1;
      assert !ReadsGroups(decisions[n], today);
      assert forall d :: d in decisions[..n] ==> d in decisions;
      UnreadGroupsDoNotMatter(decisions[..n], g1, g2, today);
    }
  }

  lemma {:induction false} LengthBound(s: set<string>) returns (n: nat)
    ensures forall x :: x in s ==> |x| < n
    decreases |s|
  {
    if s == {} {
      n := 0;
    } else {
      var a :| a in s;
      n := LengthBound(s - {a});
      n := n + |a| + 1;
    }
  }

  lemma FreshText(s: set<string>) returns (x: string)
    ensures x !in s
  {
    var n := LengthBound(s);
    x := seq(n, _ => 'x');
  }

  /** `needs_groups` is exact: it holds just when the groups can change the plan. */
  lemma NeedsGroupsIsExact(decisions: seq<Decision>, today: string)
    requires DistinctIds(decisions) && forall d :: d in decisions ==> d.texts != {}
    ensures NeedsGroups(decisions, today)
       <==> exists g1, g2 :: Planned(decisions, g1, today) != Planned(decisions, g2, today)
  {
    if NeedsGroups(decisions, today) {
      var d :| d in decisions && ReadsGroups(d, today);
      var x := FreshText(d.texts);
      var none: seq<set<string>> := [];
      var one := [d.texts + {x}];
      PlanPerDecision(decisions, none, today, d);
      PlanPerDecision(decisions, one, today, d);
      var t :| t in d.texts;
      assert t in one[0] * d.texts;
      assert Matches(d, one[0]);
      assert x in Added(d, one);
      assert Added(d, none) == {};
      assert Planned(decisions, none, today) != Planned(decisions, one, today);
    } else {
      forall g1, g2 ensures Planned(decisions, g1, today) == Planned(decisions, g2, today) {
        UnreadGroupsDoNotMatter(decisions, g1, g2, today);
      }
    }
  }
}
