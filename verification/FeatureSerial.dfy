/** Exactly when concurrent feature updates are serial, and what happens when they are not. */
module FeatureSerial {
  import opened Results
  import opened FeatureUpdate

  // ----- building runs -----

  lemma OnlyStart<R, V, E>(c: Calls<R, V, E>, files: map<string, File<R>>)
    ensures IsRun(c, files, [Start(c, files)])
  {
  }

  lemma Longer<R, V, E>(
      c: Calls<R, V, E>, files: map<string, File<R>>, run: seq<State<R, V, E>>, next: State<R, V, E>)
    requires IsRun(c, files, run) && Step(c, run[|run| - 1], next)
    ensures IsRun(c, files, run + [next])
  {
    var longer := run + [next];
    forall k | 0 < k < |longer| ensures Step(c, longer[k - 1], longer[k]) {
      assert longer[k - 1] == run[k - 1];
    }
  }

  lemma CallGoesOn<R, V, E>(
      c: Calls<R, V, E>, files: map<string, File<R>>, run: seq<State<R, V, E>>, next: State<R, V, E>, t: nat)
    requires IsRun(c, files, run) && CallStep(c, run[|run| - 1], next, t)
    ensures IsRun(c, files, run + [next])
  {
    Longer(c, files, run, next);
  }

  lemma ReadGoesOn<R, V, E>(
      c: Calls<R, V, E>, files: map<string, File<R>>, run: seq<State<R, V, E>>, next: State<R, V, E>, r: nat)
    requires IsRun(c, files, run) && (StartRead(c, run[|run| - 1], next, r) || EndRead(c, run[|run| - 1], next, r))
    ensures IsRun(c, files, run + [next])
  {
    Longer(c, files, run, next);
  }

  ghost function Acquired<R, V, E>(c: Calls<R, V, E>, s: State<R, V, E>, t: nat): State<R, V, E>
    requires IsCall(c, s, t)
  {
    s.(phase := s.phase[t := Locked], holder := s.holder[c.targets[t] := t],
       ticket := s.ticket[t := s.clock], clock := s.clock + 1)
  }

  ghost function In<R, V, E>(s: State<R, V, E>, t: nat, phase: Phase<R, V, E>): State<R, V, E>
    requires t < |s.phase|
  {
    s.(phase := s.phase[t := phase])
  }

  /** An older file of a call's feature is stored anew as soon as the call has read it. */
  lemma CallMigrates<R, V, E>(c: Calls<R, V, E>, files: map<string, File<R>>, t: nat, before: seq<State<R, V, E>>)
    returns (run: seq<State<R, V, E>>)
    requires IsRun(c, files, before)
    requires var s := before[|before| - 1];
      IsCall(c, s, t) && s.phase[t].Started? && c.targets[t] !in s.holder
      && c.targets[t] in s.files && s.files[c.targets[t]].version < CURRENT
    ensures IsRun(c, files, run)
    ensures var s, m := before[|before| - 1], c.targets[t];
      var rec := c.migrate(s.files[m].version, s.files[m].rec);
      run[|run| - 1] == In(Acquired(c, s, t), t, Loaded(rec)).(files := s.files[m := File(CURRENT, rec)])
  {
    var s, m := before[|before| - 1], c.targets[t];
    var rec := c.migrate(s.files[m].version, s.files[m].rec);
    var s1 := Acquired(c, s, t);
    CallGoesOn(c, files, before, s1, t);
    var s2 := In(s1, t, Migrating(rec));
    CallGoesOn(c, files, before + [s1], s2, t);
    var s3 := In(s2, t, Loaded(rec)).(files := s2.files[m := File(CURRENT, rec)]);
    CallGoesOn(c, files, before + [s1] + [s2], s3, t);
    run := before + [s1] + [s2] + [s3];
    assert In(s1, t, Loaded(rec)).phase == s3.phase;
  }

  // ----- what an older file breaks -----

  ghost predicate ChangedInSilence<R, V, E>(files: map<string, File<R>>, run: seq<State<R, V, E>>)
  {
    run != [] && run[|run| - 1].log == [] && run[|run| - 1].files != files
  }

  lemma OlderTarget<R, V, E>(c: Calls<R, V, E>, files: map<string, File<R>>, t: nat) returns (run: seq<State<R, V, E>>)
    requires t < |c.targets| && c.targets[t] in files && files[c.targets[t]].version < CURRENT
    ensures IsRun(c, files, run) && ChangedInSilence(files, run)
  {
    OnlyStart(c, files);
    run := CallMigrates(c, files, t, [Start(c, files)]);
    assert run[|run| - 1].files[c.targets[t]].version == CURRENT;
  }

  lemma OlderRead<R, V, E>(c: Calls<R, V, E>, files: map<string, File<R>>, r: nat) returns (run: seq<State<R, V, E>>)
    requires r < |c.readers| && c.readers[r] in files && files[c.readers[r]].version < CURRENT
    ensures IsRun(c, files, run) && ChangedInSilence(files, run)
  {
    var m, s := c.readers[r], Start(c, files);
    var rec := c.migrate(files[m].version, files[m].rec);
    OnlyStart(c, files);
    var s1 := s.(reading := s.reading[r := Holding(rec)]);
    ReadGoesOn(c, files, [s], s1, r);
    var s2 := s1.(files := files[m := File(CURRENT, rec)], reading := s1.reading[r := Finished]);
    ReadGoesOn(c, files, [s] + [s1], s2, r);
    run := [s] + [s1] + [s2];
    assert s2.files[m].version == CURRENT;
  }

  lemma SilentIsNotSerial<R, V, E>(c: Calls<R, V, E>, files: map<string, File<R>>, run: seq<State<R, V, E>>)
    requires ChangedInSilence(files, run)
    ensures !IsSerial(c, files, run[|run| - 1])
  {
  }

  lemma OlderIsNotSerial<R(!new), V(!new), E(!new)>(c: Calls<R, V, E>, files: map<string, File<R>>)
    requires !UpToDate(c, files)
    ensures exists run :: IsRun(c, files, run) && !IsSerial(c, files, run[|run| - 1])
  {
    var m :| m in files && IsUsed(c, m) && files[m].version < CURRENT;
    var run: seq<State<R, V, E>>;
    if m in c.targets {
      var t :| 0 <= t < |c.targets| && c.targets[t] == m;
      run := OlderTarget(c, files, t);
    } else {
      var r :| 0 <= r < |c.readers| && c.readers[r] == m;
      run := OlderRead(c, files, r);
    }
    SilentIsNotSerial(c, files, run);
  }

  /** From given files, with closures that keep to their features' names: every run is serial exactly when no file
      that is read is older than this version. */
  lemma SerialIffUpToDate<R(!new), V(!new), E(!new)>(c: Calls<R, V, E>, files: map<string, File<R>>)
    requires KeepsTargets(c, files)
    ensures (forall run | IsRun(c, files, run) :: IsSerial(c, files, run[|run| - 1])) <==> UpToDate(c, files)
  {
    if UpToDate(c, files) {
      forall run | IsRun(c, files, run) ensures IsSerial(c, files, run[|run| - 1]) {
        UpdatesAreSerial(c, files, run);
      }
    } else {
      OlderIsNotSerial(c, files);
    }
  }

  /** A refused call still leaves a rewritten file when the file was older. */
  lemma RefusedCallRewrites<R, V, E>(c: Calls<R, V, E>, files: map<string, File<R>>, t: nat)
    returns (run: seq<State<R, V, E>>)
    requires t < |c.targets| && c.targets[t] in files && files[c.targets[t]].version < CURRENT
    requires c.closure(t)(c.migrate(files[c.targets[t]].version, files[c.targets[t]].rec)).Err?
    ensures IsRun(c, files, run)
    ensures var s, m := run[|run| - 1], c.targets[t];
      |s.phase| == |c.targets| && s.phase[t].Ended? && s.phase[t].result.Err? && s.phase[t].result.error.Refused?
      && s.files == files[m := File(CURRENT, c.migrate(files[m].version, files[m].rec))] && s.files != files
  {
    OnlyStart(c, files);
    var before := CallMigrates(c, files, t, [Start(c, files)]);
    var s, m := before[|before| - 1], c.targets[t];
    var next := End(c, s, t, Err(Refused(c.closure(t)(s.phase[t].rec).error)));
    CallGoesOn(c, files, before, next, t);
    run := before + [next];
    assert next.files[m].version == CURRENT;
  }

  /** A reader without the lock can put the old record, migrated, over an update that has succeeded. */
  lemma ReaderLosesUpdate<R, V, E>(c: Calls<R, V, E>, files: map<string, File<R>>, t: nat, r: nat)
    returns (run: seq<State<R, V, E>>)
    requires t < |c.targets| && r < |c.readers| && c.targets[t] == c.readers[r]
    requires c.targets[t] in files && files[c.targets[t]].version < CURRENT
    requires var done := c.closure(t)(c.migrate(files[c.targets[t]].version, files[c.targets[t]].rec));
      done.Ok? && c.nameOf(done.value.0) == c.targets[t]
    ensures IsRun(c, files, run)
    ensures var s, m := run[|run| - 1], c.targets[t];
      |s.phase| == |c.targets| && s.phase[t].Ended? && s.phase[t].result.Ok? && s.log == [t]
      && s.files == files[m := File(CURRENT, c.migrate(files[m].version, files[m].rec))]
  {
    var m, s := c.targets[t], Start(c, files);
    var old_ := c.migrate(files[m].version, files[m].rec);
    OnlyStart(c, files);
    var s1 := s.(reading := s.reading[r := Holding(old_)]);
    ReadGoesOn(c, files, [s], s1, r);
    var before := CallMigrates(c, files, t, [s] + [s1]);
    var s2 := before[|before| - 1];
    var (rec, out) := c.closure(t)(old_).value;
    var s3 := In(s2, t, Applied(rec, out));
    CallGoesOn(c, files, before, s3, t);
    var s4 := End(c, s3, t, Ok(out)).(files := s3.files[m := File(CURRENT, rec)], log := [t]);
    assert Write(c, s3, s4, t) by {
      assert s3.log + [t] == [t];
    }
    CallGoesOn(c, files, before + [s3], s4, t);
    var s5 := s4.(files := s4.files[m := File(CURRENT, old_)], reading := s4.reading[r := Finished]);
    ReadGoesOn(c, files, before + [s3] + [s4], s5, r);
    run := before + [s3] + [s4] + [s5];
    assert s5.files == files[m := File(CURRENT, old_)];
  }

  // ----- what a closure that renames breaks -----

  /** One call runs from a current file to its write. */
  lemma CallRuns<R, V, E>(c: Calls<R, V, E>, files: map<string, File<R>>, t: nat) returns (run: seq<State<R, V, E>>)
    requires t < |c.targets| && c.targets[t] in files && files[c.targets[t]].version == CURRENT
    requires c.closure(t)(files[c.targets[t]].rec).Ok?
    requires var n := c.nameOf(c.closure(t)(files[c.targets[t]].rec).value.0);
      n !in files || files[n].version <= CURRENT
    ensures IsRun(c, files, run) && run[|run| - 1].log == [t]
    ensures var rec := c.closure(t)(files[c.targets[t]].rec).value.0;
      run[|run| - 1].files == files[c.nameOf(rec) := File(CURRENT, rec)]
  {
    var m, s := c.targets[t], Start(c, files);
    var (rec, out) := c.closure(t)(files[m].rec).value;
    OnlyStart(c, files);
    var s1 := Acquired(c, s, t);
    CallGoesOn(c, files, [s], s1, t);
    var s2 := In(s1, t, Loaded(files[m].rec));
    CallGoesOn(c, files, [s] + [s1], s2, t);
    var s3 := In(s2, t, Applied(rec, out));
    CallGoesOn(c, files, [s] + [s1] + [s2], s3, t);
    var s4 := End(c, s3, t, Ok(out)).(files := files[c.nameOf(rec) := File(CURRENT, rec)], log := [t]);
    assert Write(c, s3, s4, t) by {
      assert s3.log + [t] == [t];
    }
    CallGoesOn(c, files, [s] + [s1] + [s2] + [s3], s4, t);
    run := [s] + [s1] + [s2] + [s3] + [s4];
  }

  lemma WrongNameIsNotSerial<R(!new), V(!new), E(!new)>(c: Calls<R, V, E>, t: nat, rec: R)
    requires t < |c.targets| && c.closure(t)(rec).Ok?
    requires c.nameOf(c.closure(t)(rec).value.0) != c.targets[t]
    ensures var files := map[c.targets[t] := File(CURRENT, rec)];
      exists run :: IsRun(c, files, run) && !IsSerial(c, files, run[|run| - 1])
  {
    var m := c.targets[t];
    var files := map[m := File(CURRENT, rec)];
    var run := CallRuns(c, files, t);
    var s := run[|run| - 1];
    var n := c.nameOf(c.closure(t)(rec).value.0);
    assert [t][..0] == [];
    assert Replay(c, files, []) == Some(files);
    assert Replay(c, files, [t]) == Some(files[m := File(CURRENT, c.closure(t)(rec).value.0)]);
    assert n in s.files && n !in Replay(c, files, [t]).value;
  }

  /** Which file may stand under which name when a run starts. */
  type Placing<!R> = (string, File<R>) -> bool

  ghost predicate Placed<R>(allowed: Placing<R>, files: map<string, File<R>>)
  {
    forall m :: m in files ==> allowed(m, files[m])
  }

  ghost predicate AlwaysSerial<R(!new), V(!new), E(!new)>(c: Calls<R, V, E>, allowed: Placing<R>)
  {
    forall files, run | Placed(allowed, files) && IsRun(c, files, run) :: IsSerial(c, files, run[|run| - 1])
  }

  /** From any record that may stand under a call's feature, its closure gives a record of that name. */
  ghost predicate ClosuresKeep<R(!new), V, E>(c: Calls<R, V, E>, allowed: Placing<R>)
  {
    forall t: nat, rec | t < |c.targets| && allowed(c.targets[t], File(CURRENT, rec)) && c.closure(t)(rec).Ok? ::
      c.nameOf(c.closure(t)(rec).value.0) == c.targets[t]
  }

  ghost predicate NoneOlder<R(!new), V, E>(c: Calls<R, V, E>, allowed: Placing<R>)
  {
    forall m, f | IsUsed(c, m) && allowed(m, f) :: f.version >= CURRENT
  }

  lemma KeptIsSerial<R(!new), V(!new), E(!new)>(
      c: Calls<R, V, E>, allowed: Placing<R>, files: map<string, File<R>>, run: seq<State<R, V, E>>)
    requires forall rec :: allowed(c.nameOf(rec), File(CURRENT, rec))
    requires ClosuresKeep(c, allowed) && NoneOlder(c, allowed) && Placed(allowed, files) && IsRun(c, files, run)
    ensures IsSerial(c, files, run[|run| - 1])
  {
    forall t: nat, rec | t < |c.targets| && c.closure(t)(rec).Ok? && MayBeUnder(c, files, c.targets[t], rec)
      ensures c.nameOf(c.closure(t)(rec).value.0) == c.targets[t]
    {
      assert allowed(c.targets[t], File(CURRENT, rec));
    }
    UpdatesAreSerial(c, files, run);
  }

  /** Whatever files a run may start with: every run is serial exactly when the closures keep to their features'
      names and no file that is read may be older. */
  lemma SerialIff<R(!new), V(!new), E(!new)>(c: Calls<R, V, E>, allowed: Placing<R>)
    requires forall rec :: allowed(c.nameOf(rec), File(CURRENT, rec))
    ensures AlwaysSerial(c, allowed) <==> ClosuresKeep(c, allowed) && NoneOlder(c, allowed)
  {
    if ClosuresKeep(c, allowed) && NoneOlder(c, allowed) {
      forall files, run | Placed(allowed, files) && IsRun(c, files, run) ensures IsSerial(c, files, run[|run| - 1]) {
        KeptIsSerial(c, allowed, files, run);
      }
    }
    if !NoneOlder(c, allowed) {
      var m, f :| IsUsed(c, m) && allowed(m, f) && f.version < CURRENT;
      var files := map[m := f];
      assert m in files && !UpToDate(c, files) && Placed(allowed, files);
      OlderIsNotSerial(c, files);
    }
    if !ClosuresKeep(c, allowed) {
      var t: nat, rec :| t < |c.targets| && allowed(c.targets[t], File(CURRENT, rec)) && c.closure(t)(rec).Ok?
        && c.nameOf(c.closure(t)(rec).value.0) != c.targets[t];
      assert Placed(allowed, map[c.targets[t] := File(CURRENT, rec)]);
      WrongNameIsNotSerial(c, t, rec);
    }
  }

  /** Current files under their records' names. */
  ghost function UnderOwnNames<R, V, E>(c: Calls<R, V, E>): Placing<R>
  {
    (m: string, f: File<R>) => f.version == CURRENT && c.nameOf(f.rec) == m
  }

  /** Current files under any names, as after a feature's directory was renamed. */
  ghost function UnderAnyNames<R>(): Placing<R>
  {
    (m: string, f: File<R>) => f.version == CURRENT
  }

  /** With current files under their records' names: exactly when no closure renames a record of its feature. */
  lemma SerialIffNamesKept<R(!new), V(!new), E(!new)>(c: Calls<R, V, E>)
    ensures AlwaysSerial(c, UnderOwnNames(c)) <==>
      (forall t: nat, rec | t < |c.targets| && c.nameOf(rec) == c.targets[t] && c.closure(t)(rec).Ok? ::
        c.nameOf(c.closure(t)(rec).value.0) == c.targets[t])
  {
    SerialIff(c, UnderOwnNames(c));
  }

  /** With current files under any names: exactly when every closure gives its record the name of the feature it
      was asked to update. */
  lemma SerialIffNamesSet<R(!new), V(!new), E(!new)>(c: Calls<R, V, E>)
    ensures AlwaysSerial(c, UnderAnyNames()) <==>
      (forall t: nat, rec | t < |c.targets| && c.closure(t)(rec).Ok? ::
        c.nameOf(c.closure(t)(rec).value.0) == c.targets[t])
  {
    var allowed: Placing<R> := UnderAnyNames();
    SerialIff(c, allowed);
    assert forall m, f :: allowed(m, f) <==> f.version == CURRENT;
    if ClosuresKeep(c, allowed) {
      forall t: nat, rec | t < |c.targets| && c.closure(t)(rec).Ok?
        ensures c.nameOf(c.closure(t)(rec).value.0) == c.targets[t]
      {
        assert allowed(c.targets[t], File(CURRENT, rec));
      }
    }
  }

  // ----- runs that are one call after another -----

  ghost predicate OneAtATime<R, V, E>(run: seq<State<R, V, E>>)
  {
    forall k, t: nat, u: nat | 0 <= k < |run| && t < u < |run[k].phase| ::
      !(Active(run[k].phase[t]) && Active(run[k].phase[u]))
  }

  /** The files after the calls of `log` ran alone, each record written under its own name. */
  ghost function Alone<R, V, E>(
    c: Calls<R, V, E>, files: map<string, File<R>>, log: seq<nat>): Option<map<string, File<R>>>
  {
    if log == [] then Some(files)
    else
      var t, before := log[|log| - 1], Alone(c, files, log[..|log| - 1]);
      if before.None? then None
      else
        var called := Called(c, before.value, t);
        if called.None? then None
        else Some(before.value[c.nameOf(called.value.0) := File(CURRENT, called.value.0)])
  }

  ghost predicate AllCurrent<R>(files: map<string, File<R>>)
  {
    forall m :: m in files ==> files[m].version == CURRENT
  }

  /** What is true of one call while no other is at work. */
  ghost predicate AloneCall<R, V, E>(c: Calls<R, V, E>, s: State<R, V, E>, t: nat)
    requires IsCall(c, s, t)
  {
    var m := c.targets[t];
    match s.phase[t]
    case Migrating(_) => false
    case Loaded(rec) => t !in s.log && m in s.files && s.files[m].rec == rec
    case Applied(rec, out) => t !in s.log && m in s.files && c.closure(t)(s.files[m].rec) == Ok((rec, out))
    case Ended(result) => t in s.log <==> result.Ok?
    case _ => t !in s.log
  }

  ghost predicate AloneInv<R, V, E>(c: Calls<R, V, E>, files: map<string, File<R>>, s: State<R, V, E>)
  {
    && |s.phase| == |s.ticket| == |c.targets|
    && AllCurrent(s.files) && Alone(c, files, s.log) == Some(s.files)
    && (forall j, k :: 0 <= j < k < |s.log| ==> s.log[j] != s.log[k])
    && (forall t: nat :: t < |c.targets| ==> AloneCall(c, s, t))
    && (forall r :: 0 <= r < |s.reading| ==> !s.reading[r].Holding?)
  }

  lemma AloneLog<R, V, E>(
      c: Calls<R, V, E>, files: map<string, File<R>>, s: State<R, V, E>, t: nat, rec: R, out: V)
    requires Alone(c, files, s.log) == Some(s.files) && Called(c, s.files, t) == Some((rec, out))
    ensures Alone(c, files, s.log + [t]) == Some(s.files[c.nameOf(rec) := File(CURRENT, rec)])
  {
    assert (s.log + [t])[..|s.log|] == s.log;
  }

  lemma AloneWriteCalls<R, V, E>(
      c: Calls<R, V, E>, s: State<R, V, E>, s': State<R, V, E>, t: nat, u: nat)
    requires Write(c, s, s', t) && AloneCall(c, s, t) && u < |c.targets| && AloneCall(c, s, u)
    requires u != t ==> !Active(s.phase[u])
    ensures IsCall(c, s', u) && AloneCall(c, s', u)
  {
  }

  lemma AloneWrite<R, V, E>(
      c: Calls<R, V, E>, files: map<string, File<R>>, s: State<R, V, E>, s': State<R, V, E>, t: nat)
    requires AloneInv(c, files, s) && Write(c, s, s', t)
    requires forall u: nat :: u < |c.targets| && u != t ==> !Active(s.phase[u])
    ensures AloneInv(c, files, s')
  {
    assert AloneCall(c, s, t);
    var rec, out := s.phase[t].rec, s.phase[t].out;
    assert Called(c, s.files, t) == Some((rec, out));
    AloneLog(c, files, s, t, rec, out);
    forall u: nat | u < |c.targets| ensures AloneCall(c, s', u) {
      assert AloneCall(c, s, u);
      AloneWriteCalls(c, s, s', t, u);
    }
  }

  lemma AloneMove<R, V, E>(c: Calls<R, V, E>, s: State<R, V, E>, s': State<R, V, E>, t: nat)
    requires (CallStep(c, s, s', t) || Fail(c, s, s', t)) && !Write(c, s, s', t)
    requires AloneCall(c, s, t) && AllCurrent(s.files)
    ensures s'.files == s.files && s'.log == s.log && s'.reading == s.reading
    ensures |s'.phase| == |s.phase| && |s'.ticket| == |s.ticket| && AloneCall(c, s', t)
    ensures forall u: nat :: u < |s.phase| && u != t ==> s'.phase[u] == s.phase[u]
  {
  }

  lemma AloneKept<R, V, E>(
      c: Calls<R, V, E>, files: map<string, File<R>>, s: State<R, V, E>, s': State<R, V, E>, t: nat)
    requires AloneInv(c, files, s)
    requires s'.files == s.files && s'.log == s.log && |s'.phase| == |s.phase| && |s'.ticket| == |s.ticket|
    requires forall u: nat :: u < |s.phase| && u != t ==> s'.phase[u] == s.phase[u]
    requires t < |c.targets| ==> AloneCall(c, s', t)
    requires forall r :: 0 <= r < |s'.reading| ==> !s'.reading[r].Holding?
    ensures AloneInv(c, files, s')
  {
    forall u: nat | u < |c.targets| ensures AloneCall(c, s', u) {
      assert AloneCall(c, s, u);
    }
  }

  lemma AloneStep<R, V, E>(c: Calls<R, V, E>, files: map<string, File<R>>, s: State<R, V, E>, s': State<R, V, E>)
    requires AloneInv(c, files, s) && Step(c, s, s')
    requires forall t: nat, u: nat | t < u < |c.targets| :: !(Active(s.phase[t]) && Active(s.phase[u]))
    ensures AloneInv(c, files, s')
  {
    if t: nat :| CallStep(c, s, s', t) || Fail(c, s, s', t) {
      assert AloneCall(c, s, t);
      if Write(c, s, s', t) {
        AloneWriteOrNot(c, files, s, s', t);
      } else {
        AloneMove(c, s, s', t);
        AloneKept(c, files, s, s', t);
      }
    } else {
      AloneKept(c, files, s, s', |c.targets|);
    }
  }

  lemma AloneWriteOrNot<R, V, E>(
      c: Calls<R, V, E>, files: map<string, File<R>>, s: State<R, V, E>, s': State<R, V, E>, t: nat)
    requires AloneInv(c, files, s) && Write(c, s, s', t)
    requires forall t: nat, u: nat | t < u < |c.targets| :: !(Active(s.phase[t]) && Active(s.phase[u]))
    ensures AloneInv(c, files, s')
  {
    assert Active(s.phase[t]);
    assert forall u: nat :: u < t ==> !(Active(s.phase[u]) && Active(s.phase[t]));
    assert forall u: nat :: t < u < |c.targets| ==> !(Active(s.phase[t]) && Active(s.phase[u]));
    AloneWrite(c, files, s, s', t);
  }

  /** A run that never has two calls at work ends in the files that its successful calls leave alone. */
  lemma {:induction false} OneAtATimeIsAlone<R, V, E>(
      c: Calls<R, V, E>, files: map<string, File<R>>, run: seq<State<R, V, E>>, k: nat)
    requires AllCurrent(files) && IsRun(c, files, run) && OneAtATime(run) && k < |run|
    ensures AloneInv(c, files, run[k])
  {
    if k > 0 {
      OneAtATimeIsAlone(c, files, run, k - 1);
      AloneStep(c, files, run[k - 1], run[k]);
    }
  }

  // ----- an update lost to a renaming -----

  datatype Named = Named(name: string, count: int)

  /** Call 0 renames feature `a` to `b`; call 1 counts feature `b` up. */
  ghost function Renaming(): Calls<Named, (), ()>
  {
    Calls(["a", "b"],
          (t: nat) => (r: Named) => if t == 0 then Ok((Named("b", 10), ())) else Ok((r.(count := r.count + 1), ())),
          (r: Named) => r.name, [], (v: nat, r: Named) => r)
  }

  ghost function Now(r: Named): File<Named>
  {
    File(CURRENT, r)
  }

  ghost function TwoRecords(): map<string, File<Named>>
  {
    map["a" := Now(Named("a", 0)), "b" := Now(Named("b", 0))]
  }

  ghost function RenamingRun(): seq<State<Named, (), ()>>
  {
    var files := TwoRecords();
    var a0, b0, b1, b10 := Named("a", 0), Named("b", 0), Named("b", 1), Named("b", 10);
    [ State(files, map[], [Started, Started], [], [0, 0], 0, []),
      State(files, map["b" := 1], [Started, Locked], [], [0, 0], 1, []),
      State(files, map["b" := 1], [Started, Loaded(b0)], [], [0, 0], 1, []),
      State(files, map["b" := 1], [Started, Applied(b1, ())], [], [0, 0], 1, []),
      State(files, map["b" := 1, "a" := 0], [Locked, Applied(b1, ())], [], [1, 0], 2, []),
      State(files, map["b" := 1, "a" := 0], [Loaded(a0), Applied(b1, ())], [], [1, 0], 2, []),
      State(files, map["b" := 1, "a" := 0], [Applied(b10, ()), Applied(b1, ())], [], [1, 0], 2, []),
      State(files["b" := Now(b10)], map["b" := 1], [Ended(Ok(())), Applied(b1, ())], [], [1, 0], 2, [0]),
      State(files["b" := Now(b1)], map[], [Ended(Ok(())), Ended(Ok(()))], [], [1, 0], 2, [0, 1]) ]
  }

  lemma CountingSteps()
    ensures var c, run := Renaming(), RenamingRun();
      CallStep(c, run[0], run[1], 1) && CallStep(c, run[1], run[2], 1) && CallStep(c, run[2], run[3], 1)
  {
  }

  lemma RenamingSteps()
    ensures var c, run := Renaming(), RenamingRun();
      CallStep(c, run[3], run[4], 0) && CallStep(c, run[4], run[5], 0) && CallStep(c, run[5], run[6], 0)
  {
  }

  lemma WritingSteps()
    ensures var c, run := Renaming(), RenamingRun();
      CallStep(c, run[6], run[7], 0) && CallStep(c, run[7], run[8], 1)
  {
    var c, run := Renaming(), RenamingRun();
    assert End(c, run[6], 0, Ok(())).holder == map["b" := 1];
    assert End(c, run[7], 1, Ok(())).holder == map[];
    assert run[8].files == run[7].files["b" := Now(Named("b", 1))];
    assert Write(c, run[6], run[7], 0) && Write(c, run[7], run[8], 1);
  }

  lemma RenamingStart()
    ensures RenamingRun()[0] == Start(Renaming(), TwoRecords())
  {
    assert seq(2, _ => 0) == [0, 0];
    var start: seq<Phase<Named, (), ()>> := seq(2, _ => Started);
    assert start == [Started, Started];
    var none: seq<Reading<Named>> := seq(0, _ => Waiting);
    assert none == [];
  }

  lemma RenamingStep(k: nat)
    requires 0 < k <= 8
    ensures CallStep(Renaming(), RenamingRun()[k - 1], RenamingRun()[k], if 4 <= k <= 7 then 0 else 1)
  {
    if k <= 3 {
      CountingSteps();
    } else if k <= 6 {
      RenamingSteps();
    } else {
      WritingSteps();
    }
  }

  lemma IsRenamingRun()
    ensures IsRun(Renaming(), TwoRecords(), RenamingRun())
  {
    RenamingStart();
    forall k | 0 < k < |RenamingRun()| ensures Step(Renaming(), RenamingRun()[k - 1], RenamingRun()[k]) {
      RenamingStep(k);
    }
  }

  lemma RenamingAlone()
    ensures var c, files := Renaming(), TwoRecords();
      && Alone(c, files, [0, 1]) == Some(files["b" := Now(Named("b", 11))])
      && Alone(c, files, [1, 0]) == Some(files["b" := Now(Named("b", 10))])
  {
    var c, files := Renaming(), TwoRecords();
    assert [0][..0] == [] && [1][..0] == [] && [0, 1][..1] == [0] && [1, 0][..1] == [1];
    assert Alone(c, files, []) == Some(files);
    assert Alone(c, files, [0]) == Some(files["b" := Now(Named("b", 10))]);
    assert Alone(c, files, [1]) == Some(files["b" := Now(Named("b", 1))]);
    assert files["b" := Now(Named("b", 10))]["b" := Now(Named("b", 11))] == files["b" := Now(Named("b", 11))];
    assert files["b" := Now(Named("b", 1))]["b" := Now(Named("b", 10))] == files["b" := Now(Named("b", 10))];
  }

  lemma ThreeReachTwo(log: seq<nat>)
    requires |log| > 2 && forall j, k :: 0 <= j < k < |log| ==> log[j] != log[k]
    ensures exists k :: 0 <= k < |log| && log[k] >= 2
  {
    assert log[0] != log[1] && log[0] != log[2] && log[1] != log[2];
  }

  lemma BothOrders(log: seq<nat>)
    requires 0 in log && 1 in log && (forall k :: 0 <= k < |log| ==> log[k] < 2)
    requires forall j, k :: 0 <= j < k < |log| ==> log[j] != log[k]
    ensures log == [0, 1] || log == [1, 0]
  {
    if |log| > 2 {
      ThreeReachTwo(log);
    }
  }

  lemma {:induction false} AloneBelow<R, V, E>(c: Calls<R, V, E>, files: map<string, File<R>>, log: seq<nat>)
    requires Alone(c, files, log).Some?
    ensures forall k :: 0 <= k < |log| ==> log[k] < |c.targets|
  {
    if log != [] {
      AloneBelow(c, files, log[..|log| - 1]);
      assert log == log[..|log| - 1] + [log[|log| - 1]];
    }
  }

  /** A renamed record is written under a name whose lock the call does not hold, and another call's write covers
      it: both calls succeed, in files in which no run that has one call at work at a time ends. */
  lemma RenamingLosesAnUpdate(run: seq<State<Named, (), ()>>)
    requires IsRun(Renaming(), TwoRecords(), run) && OneAtATime(run)
    requires var s := run[|run| - 1];
      |s.phase| == 2 && s.phase[0] == Ended(Ok(())) && s.phase[1] == Ended(Ok(()))
    ensures IsRun(Renaming(), TwoRecords(), RenamingRun())
    ensures var lost := RenamingRun()[8];
      lost.phase == [Ended(Ok(())), Ended(Ok(()))] && run[|run| - 1].files != lost.files
  {
    IsRenamingRun();
    var c, files, s := Renaming(), TwoRecords(), run[|run| - 1];
    OneAtATimeIsAlone(c, files, run, |run| - 1);
    assert AloneCall(c, s, 0) && AloneCall(c, s, 1);
    AloneBelow(c, files, s.log);
    BothOrders(s.log);
    RenamingAlone();
    assert s.files["b"] != Now(Named("b", 1));
  }
}
