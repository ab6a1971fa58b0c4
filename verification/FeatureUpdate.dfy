/** `Feature::update` and the lock-free `Feature::read`: concurrent use of the feature records, step by step. */
module FeatureUpdate {
  import opened Results

  /** The schema version of a record written now. */
  const CURRENT: nat := 3

  /** Why a call failed: the closure refused, or something outside it did. */
  datatype Failure<+E> = Refused(error: E) | NotFound | TooNew | Io

  /** A record file: the version it is stored in, and the record. */
  datatype File<+R> = File(version: nat, rec: R)

  /** Where one call of `update` stands. */
  datatype Phase<+R, +V, +E> =
    | Started
    | Locked
    | Migrating(rec: R)
    | Loaded(rec: R)
    | Applied(rec: R, out: V)
    | Ended(result: Result<V, Failure<E>>)

  /** Where one lock-free read stands; one that found an older file holds the migrated record to store it. */
  datatype Reading<+R> = Waiting | Holding(rec: R) | Finished

  /** The calls: which feature each is for and its closure; the name a record is written under; the features
      that are read without a lock; and the migration of a record from an older version. */
  datatype Calls<!R, !V, !E> = Calls(
    targets: seq<string>, closure: nat -> R -> Result<(R, V), E>, nameOf: R -> string,
    readers: seq<string>, migrate: (nat, R) -> R)

  /** The record files, who holds each feature's lock, and where each call and each read stands. `ticket`
      numbers the calls in the order they took a lock and `log` lists those that wrote, in that order. */
  datatype State<R, V, E> = State(
    files: map<string, File<R>>, holder: map<string, nat>, phase: seq<Phase<R, V, E>>, reading: seq<Reading<R>>,
    ticket: seq<nat>, clock: nat, log: seq<nat>)

  ghost function Start<R, V, E>(c: Calls<R, V, E>, files: map<string, File<R>>): State<R, V, E>
  {
    var n := |c.targets|;
    State(files, map[], seq(n, _ => Started), seq(|c.readers|, _ => Waiting), seq(n, _ => 0), 0, [])
  }

  ghost predicate IsCall<R, V, E>(c: Calls<R, V, E>, s: State<R, V, E>, t: nat)
  {
    t < |c.targets| == |s.phase| == |s.ticket|
  }

  /** The state with call `t` ended, its lock released. */
  ghost function End<R, V, E>(
    c: Calls<R, V, E>, s: State<R, V, E>, t: nat, result: Result<V, Failure<E>>): State<R, V, E>
    requires IsCall(c, s, t)
  {
    var m := c.targets[t];
    s.(phase := s.phase[t := Ended(result)],
       holder := if m in s.holder && s.holder[m] == t then s.holder - {m} else s.holder)
  }

  ghost predicate Acquire<R, V, E>(c: Calls<R, V, E>, s: State<R, V, E>, s': State<R, V, E>, t: nat)
  {
    IsCall(c, s, t) && s.phase[t].Started? && c.targets[t] !in s.holder
    && s' == s.(phase := s.phase[t := Locked], holder := s.holder[c.targets[t] := t],
                ticket := s.ticket[t := s.clock], clock := s.clock + 1)
  }

  /** Reads the file: a newer version is refused, an older one is migrated in memory. */
  ghost predicate Load<R, V, E>(c: Calls<R, V, E>, s: State<R, V, E>, s': State<R, V, E>, t: nat)
  {
    IsCall(c, s, t) && s.phase[t].Locked?
    && var m := c.targets[t];
    s' == if m !in s.files then End(c, s, t, Err(NotFound))
          else if s.files[m].version > CURRENT then End(c, s, t, Err(TooNew))
          else if s.files[m].version < CURRENT then
            s.(phase := s.phase[t := Migrating(c.migrate(s.files[m].version, s.files[m].rec))])
          else s.(phase := s.phase[t := Loaded(s.files[m].rec)])
  }

  /** A migrated record is stored before it is used. */
  ghost predicate Persist<R, V, E>(c: Calls<R, V, E>, s: State<R, V, E>, s': State<R, V, E>, t: nat)
  {
    IsCall(c, s, t) && s.phase[t].Migrating?
    && var rec := s.phase[t].rec;
    s' == s.(files := s.files[c.targets[t] := File(CURRENT, rec)], phase := s.phase[t := Loaded(rec)])
  }

  ghost predicate Apply<R, V, E>(c: Calls<R, V, E>, s: State<R, V, E>, s': State<R, V, E>, t: nat)
  {
    IsCall(c, s, t) && s.phase[t].Loaded?
    && match c.closure(t)(s.phase[t].rec)
       case Ok((rec, out)) => s' == s.(phase := s.phase[t := Applied(rec, out)])
       case Err(e) => s' == End(c, s, t, Err(Refused(e)))
  }

  /** The record is written under its own name, whichever lock is held; a newer file there is left alone. */
  ghost predicate Write<R, V, E>(c: Calls<R, V, E>, s: State<R, V, E>, s': State<R, V, E>, t: nat)
  {
    IsCall(c, s, t) && s.phase[t].Applied?
    && var rec, n := s.phase[t].rec, c.nameOf(s.phase[t].rec);
    s' == if n in s.files && s.files[n].version > CURRENT then End(c, s, t, Err(TooNew))
          else End(c, s, t, Ok(s.phase[t].out)).(files := s.files[n := File(CURRENT, rec)], log := s.log + [t])
  }

  /** The directory is missing, or the lock, a read or a write fails: nothing is written. */
  ghost predicate Fail<R, V, E>(c: Calls<R, V, E>, s: State<R, V, E>, s': State<R, V, E>, t: nat)
  {
    IsCall(c, s, t) && !s.phase[t].Ended?
    && (s' == End(c, s, t, Err(Io)) || (s.phase[t].Started? && s' == End(c, s, t, Err(NotFound))))
  }

  ghost predicate CallStep<R, V, E>(c: Calls<R, V, E>, s: State<R, V, E>, s': State<R, V, E>, t: nat)
  {
    Acquire(c, s, s', t) || Load(c, s, s', t) || Persist(c, s, s', t) || Apply(c, s, s', t) || Write(c, s, s', t)
  }

  ghost predicate IsRead<R, V, E>(c: Calls<R, V, E>, s: State<R, V, E>, r: nat)
  {
    r < |c.readers| == |s.reading|
  }

  /** `Feature::read` takes no lock: it reads the file, and migrates an older one in memory. */
  ghost predicate StartRead<R, V, E>(c: Calls<R, V, E>, s: State<R, V, E>, s': State<R, V, E>, r: nat)
  {
    IsRead(c, s, r) && s.reading[r].Waiting?
    && var m := c.readers[r];
    s' == s.(reading := s.reading[r :=
               if m in s.files && s.files[m].version < CURRENT
               then Holding(c.migrate(s.files[m].version, s.files[m].rec)) else Finished])
  }

  /** It stores what it migrated, over whatever the file holds by then. */
  ghost predicate EndRead<R, V, E>(c: Calls<R, V, E>, s: State<R, V, E>, s': State<R, V, E>, r: nat)
  {
    IsRead(c, s, r) && s.reading[r].Holding?
    && s' == s.(files := s.files[c.readers[r] := File(CURRENT, s.reading[r].rec)],
                reading := s.reading[r := Finished])
  }

  ghost predicate Step<R, V, E>(c: Calls<R, V, E>, s: State<R, V, E>, s': State<R, V, E>)
  {
    || (exists t: nat :: CallStep(c, s, s', t) || Fail(c, s, s', t))
    || (exists r: nat :: StartRead(c, s, s', r) || EndRead(c, s, s', r))
  }

  ghost predicate IsRun<R, V, E>(c: Calls<R, V, E>, files: map<string, File<R>>, run: seq<State<R, V, E>>)
  {
    run != [] && run[0] == Start(c, files) && forall k :: 0 < k < |run| ==> Step(c, run[k - 1], run[k])
  }

  // ----- locks -----

  ghost predicate Active<R, V, E>(phase: Phase<R, V, E>)
  {
    !phase.Started? && !phase.Ended?
  }

  ghost predicate Holds<R, V, E>(c: Calls<R, V, E>, s: State<R, V, E>, t: nat)
    requires IsCall(c, s, t)
  {
    c.targets[t] in s.holder && s.holder[c.targets[t]] == t
  }

  /** The calls at work are those that hold their feature's lock. */
  ghost predicate LockInv<R, V, E>(c: Calls<R, V, E>, s: State<R, V, E>)
  {
    && |s.phase| == |s.ticket| == |c.targets|
    && (forall t: nat :: t < |c.targets| && Active(s.phase[t]) ==> Holds(c, s, t))
    && (forall m :: m in s.holder ==>
          s.holder[m] < |c.targets| && c.targets[s.holder[m]] == m && Active(s.phase[s.holder[m]]))
  }

  lemma EndLockInv<R, V, E>(c: Calls<R, V, E>, s: State<R, V, E>, t: nat, result: Result<V, Failure<E>>)
    requires LockInv(c, s) && IsCall(c, s, t)
    ensures LockInv(c, End(c, s, t, result))
  {
    var s' := End(c, s, t, result);
    forall u: nat | u < |c.targets| && Active(s'.phase[u]) ensures Holds(c, s', u) {
      assert Holds(c, s, u);
    }
  }

  lemma AcquireLockInv<R, V, E>(c: Calls<R, V, E>, s: State<R, V, E>, s': State<R, V, E>, t: nat)
    requires LockInv(c, s) && Acquire(c, s, s', t)
    ensures LockInv(c, s')
  {
    forall u: nat | u < |c.targets| && Active(s'.phase[u]) ensures Holds(c, s', u) {
      if u != t {
        assert Holds(c, s, u) && c.targets[u] != c.targets[t];
      }
    }
  }

  lemma GoOnLockInv<R, V, E>(c: Calls<R, V, E>, s: State<R, V, E>, s': State<R, V, E>, t: nat, phase: Phase<R, V, E>)
    requires LockInv(c, s) && IsCall(c, s, t) && Active(s.phase[t]) && Active(phase)
    requires s'.phase == s.phase[t := phase] && s'.holder == s.holder && s'.ticket == s.ticket
    ensures LockInv(c, s')
  {
    forall u: nat | u < |c.targets| && Active(s'.phase[u]) ensures Holds(c, s', u) {
      assert Holds(c, s, u);
    }
  }

  lemma SameLockInv<R, V, E>(c: Calls<R, V, E>, s: State<R, V, E>, s': State<R, V, E>)
    requires LockInv(c, s) && s'.phase == s.phase && s'.holder == s.holder && s'.ticket == s.ticket
    ensures LockInv(c, s')
  {
    forall u: nat | u < |c.targets| && Active(s'.phase[u]) ensures Holds(c, s', u) {
      assert Holds(c, s, u);
    }
  }

  lemma CallLockInv<R, V, E>(c: Calls<R, V, E>, s: State<R, V, E>, s': State<R, V, E>, t: nat)
    requires LockInv(c, s) && CallStep(c, s, s', t)
    ensures LockInv(c, s')
  {
    if Acquire(c, s, s', t) {
      AcquireLockInv(c, s, s', t);
    } else if Active(s'.phase[t]) {
      GoOnLockInv(c, s, s', t, s'.phase[t]);
    } else {
      EndLockInv(c, s, t, s'.phase[t].result);
      SameLockInv(c, End(c, s, t, s'.phase[t].result), s');
    }
  }

  lemma StepLockInv<R, V, E>(c: Calls<R, V, E>, s: State<R, V, E>, s': State<R, V, E>)
    requires LockInv(c, s) && Step(c, s, s')
    ensures LockInv(c, s')
  {
    if t: nat :| CallStep(c, s, s', t) {
      CallLockInv(c, s, s', t);
    } else if t: nat :| Fail(c, s, s', t) {
      EndLockInv(c, s, t, s'.phase[t].result);
    } else {
      SameLockInv(c, s, s');
    }
  }

  lemma {:induction false} RunLockInv<R, V, E>(
      c: Calls<R, V, E>, files: map<string, File<R>>, run: seq<State<R, V, E>>, k: nat)
    requires IsRun(c, files, run) && k < |run|
    ensures LockInv(c, run[k])
  {
    if k > 0 {
      RunLockInv(c, files, run, k - 1);
      StepLockInv(c, run[k - 1], run[k]);
    }
  }

  /** In every state of every run some call can move until every call has ended; none waits for ever on a lock. */
  lemma NeverStuck<R(!new), V(!new), E(!new)>(
      c: Calls<R, V, E>, files: map<string, File<R>>, run: seq<State<R, V, E>>, t: nat)
    requires IsRun(c, files, run) && t < |c.targets|
    ensures var s := run[|run| - 1];
      |s.phase| == |c.targets| && (!s.phase[t].Ended? ==> exists s', u: nat :: CallStep(c, s, s', u))
  {
    RunLockInv(c, files, run, |run| - 1);
    var s := run[|run| - 1];
    if !s.phase[t].Ended? {
      var m := c.targets[t];
      CanMove(c, s, if s.phase[t].Started? && m in s.holder then s.holder[m] else t);
    }
  }

  lemma CanMove<R(!new), V(!new), E(!new)>(c: Calls<R, V, E>, s: State<R, V, E>, u: nat)
    requires IsCall(c, s, u) && (Active(s.phase[u]) || (s.phase[u].Started? && c.targets[u] !in s.holder))
    ensures exists s' :: CallStep(c, s, s', u)
  {
    var m := c.targets[u];
    match s.phase[u]
    case Started =>
      var next := s.(phase := s.phase[u := Locked], holder := s.holder[m := u],
                     ticket := s.ticket[u := s.clock], clock := s.clock + 1);
      assert CallStep(c, s, next, u);
    case Locked =>
      var next :=
        if m !in s.files then End(c, s, u, Err(NotFound))
        else if s.files[m].version > CURRENT then End(c, s, u, Err(TooNew))
        else if s.files[m].version < CURRENT then
          s.(phase := s.phase[u := Migrating(c.migrate(s.files[m].version, s.files[m].rec))])
        else s.(phase := s.phase[u := Loaded(s.files[m].rec)]);
      assert CallStep(c, s, next, u);
    case Migrating(rec) =>
      assert CallStep(c, s, s.(files := s.files[m := File(CURRENT, rec)], phase := s.phase[u := Loaded(rec)]), u);
    case Loaded(rec) =>
      match c.closure(u)(rec) {
        case Ok((rec', out)) => assert CallStep(c, s, s.(phase := s.phase[u := Applied(rec', out)]), u);
        case Err(e) => assert CallStep(c, s, End(c, s, u, Err(Refused(e))), u);
      }
    case Applied(rec, out) =>
      var n := c.nameOf(rec);
      var next :=
        if n in s.files && s.files[n].version > CURRENT then End(c, s, u, Err(TooNew))
        else End(c, s, u, Ok(out)).(files := s.files[n := File(CURRENT, rec)], log := s.log + [u]);
      assert CallStep(c, s, next, u);
  }

  // ----- running the calls one after another -----

  /** What a successful call makes of its feature's file when it runs alone. */
  ghost function Called<R, V, E>(c: Calls<R, V, E>, files: map<string, File<R>>, t: nat): Option<(R, V)>
  {
    if t >= |c.targets| || c.targets[t] !in files || files[c.targets[t]].version > CURRENT then None
    else
      var f := files[c.targets[t]];
      match c.closure(t)(if f.version < CURRENT then c.migrate(f.version, f.rec) else f.rec)
      case Ok((rec, out)) => Some((rec, out))
      case Err(_) => None
  }

  /** The files after the calls of `log` ran alone, one after another, each on its own feature's file;
      `None` when one would fail. */
  ghost function Replay<R, V, E>(
    c: Calls<R, V, E>, files: map<string, File<R>>, log: seq<nat>): Option<map<string, File<R>>>
  {
    if log == [] then Some(files)
    else
      var t, before := log[|log| - 1], Replay(c, files, log[..|log| - 1]);
      if before.None? then None
      else
        var called := Called(c, before.value, t);
        if called.None? then None else Some(before.value[c.targets[t] := File(CURRENT, called.value.0)])
  }

  /** What call `log[k]` returns when the calls of `log` run alone, one after another. */
  ghost function ReplayOut<R, V, E>(
    c: Calls<R, V, E>, files: map<string, File<R>>, log: seq<nat>, k: nat): Option<V>
    requires k < |log|
  {
    var before := Replay(c, files, log[..k]);
    if before.None? then None
    else
      var called := Called(c, before.value, log[k]);
      if called.None? then None else Some(called.value.1)
  }

  ghost predicate SameTarget<R, V, E>(c: Calls<R, V, E>, t: nat, u: nat)
  {
    t < |c.targets| && u < |c.targets| && c.targets[t] == c.targets[u]
  }

  /** The files are what the successful calls leave when they run alone one after another, each returned what
      it returns then, calls on one feature stand in the order they took its lock, and a call is among them
      exactly if it succeeded. */
  ghost predicate IsSerial<R, V, E>(c: Calls<R, V, E>, files: map<string, File<R>>, s: State<R, V, E>)
  {
    && |s.phase| == |s.ticket| == |c.targets|
    && Replay(c, files, s.log) == Some(s.files)
    && (forall j, k :: 0 <= j < k < |s.log| ==> s.log[j] != s.log[k])
    && (forall t: nat :: t < |c.targets| ==> (t in s.log <==> s.phase[t].Ended? && s.phase[t].result.Ok?))
    && (forall k: nat :: k < |s.log| ==>
          s.log[k] < |c.targets| && ReplayOut(c, files, s.log, k).Some?
          && s.phase[s.log[k]] == Ended(Ok(ReplayOut(c, files, s.log, k).value)))
    && (forall j, k :: 0 <= j < k < |s.log| && SameTarget(c, s.log[j], s.log[k]) ==>
          s.ticket[s.log[j]] < s.ticket[s.log[k]])
  }

  // ----- what seriality takes -----

  /** A closure gives a record that bears the name of the feature the call is for, from any record of that name
      and from the one its file starts with, whatever name that one bears. */
  ghost predicate KeepsTargets<R(!new), V, E>(c: Calls<R, V, E>, files: map<string, File<R>>)
  {
    forall t: nat, rec | t < |c.targets| && c.closure(t)(rec).Ok? && MayBeUnder(c, files, c.targets[t], rec) ::
      c.nameOf(c.closure(t)(rec).value.0) == c.targets[t]
  }

  /** A record of this name, or the one the file of this name starts with. */
  ghost predicate MayBeUnder<R, V, E>(c: Calls<R, V, E>, files: map<string, File<R>>, m: string, rec: R)
  {
    c.nameOf(rec) == m || (m in files && files[m] == File(CURRENT, rec))
  }

  ghost predicate IsUsed<R, V, E>(c: Calls<R, V, E>, m: string)
  {
    m in c.targets || m in c.readers
  }

  /** No file that is read is older than this version. */
  ghost predicate UpToDate<R, V, E>(c: Calls<R, V, E>, files: map<string, File<R>>)
  {
    forall m :: m in files && IsUsed(c, m) ==> files[m].version >= CURRENT
  }

  // ----- the invariant -----

  /** What is true of one call. */
  ghost predicate CallInv<R(!new), V, E>(c: Calls<R, V, E>, s: State<R, V, E>, t: nat)
    requires IsCall(c, s, t)
  {
    var m := c.targets[t];
    match s.phase[t]
    case Started => t !in s.log
    case Locked => Holds(c, s, t) && t !in s.log
    case Migrating(_) => false
    case Loaded(rec) => Holds(c, s, t) && t !in s.log && m in s.files && s.files[m] == File(CURRENT, rec)
    case Applied(rec, out) =>
      Holds(c, s, t) && t !in s.log && m in s.files && s.files[m].version == CURRENT
      && c.closure(t)(s.files[m].rec) == Ok((rec, out))
    case Ended(result) => t in s.log <==> result.Ok?
  }

  ghost predicate CallsInv<R(!new), V, E>(c: Calls<R, V, E>, s: State<R, V, E>)
    requires |s.phase| == |s.ticket| == |c.targets|
  {
    forall t: nat :: t < |c.targets| ==> CallInv(c, s, t)
  }

  /** A file of a feature that is called for is as it started, or holds a current record of that name. */
  ghost predicate FileInv<R(!new), V, E>(c: Calls<R, V, E>, files: map<string, File<R>>, s: State<R, V, E>)
  {
    && UpToDate(c, s.files)
    && (forall m :: m in s.files && m in c.targets ==>
          (m in files && s.files[m] == files[m]) || (s.files[m].version == CURRENT && c.nameOf(s.files[m].rec) == m))
    && |s.reading| == |c.readers|
    && (forall r :: 0 <= r < |s.reading| ==> !s.reading[r].Holding?)
  }

  ghost predicate Inv<R(!new), V, E>(c: Calls<R, V, E>, files: map<string, File<R>>, s: State<R, V, E>)
  {
    && LockInv(c, s)
    && CallsInv(c, s)
    && FileInv(c, files, s)
    && LogInv(c, files, s)
    && TicketInv(c, s)
  }

  /** The files are the replay of the log, and each logged call returned what the replay returns. */
  ghost predicate LogInv<R(!new), V, E>(c: Calls<R, V, E>, files: map<string, File<R>>, s: State<R, V, E>)
  {
    && (forall k :: 0 <= k < |s.log| ==> s.log[k] < |c.targets|)
    && (forall j, k :: 0 <= j < k < |s.log| ==> s.log[j] != s.log[k])
    && Replay(c, files, s.log) == Some(s.files)
    && (forall k: nat :: k < |s.log| && s.log[k] < |s.phase| ==>
          ReplayOut(c, files, s.log, k).Some? && s.phase[s.log[k]] == Ended(Ok(ReplayOut(c, files, s.log, k).value)))
  }

  /** Calls on one feature write in the order they took its lock. */
  ghost predicate TicketInv<R(!new), V, E>(c: Calls<R, V, E>, s: State<R, V, E>)
    requires |s.phase| == |s.ticket| == |c.targets|
  {
    && (forall t: nat :: t < |c.targets| && !s.phase[t].Started? && (Active(s.phase[t]) || t in s.log) ==>
          s.ticket[t] < s.clock)
    && (forall j, k :: 0 <= j < k < |s.log| && SameTarget(c, s.log[j], s.log[k]) ==>
          s.ticket[s.log[j]] < s.ticket[s.log[k]])
    && (forall m, j :: m in s.holder && 0 <= j < |s.log| && SameTarget(c, s.log[j], s.holder[m]) ==>
          s.ticket[s.log[j]] < s.ticket[s.holder[m]])
  }

  lemma StartInv<R(!new), V, E>(c: Calls<R, V, E>, files: map<string, File<R>>)
    requires UpToDate(c, files)
    ensures Inv(c, files, Start(c, files))
  {
  }

  lemma AcquireCalls<R(!new), V, E>(c: Calls<R, V, E>, s: State<R, V, E>, s': State<R, V, E>, t: nat)
    requires LockInv(c, s) && CallsInv(c, s) && Acquire(c, s, s', t)
    ensures CallsInv(c, s')
  {
    assert CallInv(c, s, t);
    forall u: nat | u < |c.targets| ensures CallInv(c, s', u) {
      assert CallInv(c, s, u);
      if u != t && Active(s.phase[u]) {
        assert Holds(c, s, u) && c.targets[u] != c.targets[t];
      }
    }
  }

  lemma AcquireTickets<R(!new), V, E>(c: Calls<R, V, E>, s: State<R, V, E>, s': State<R, V, E>, t: nat)
    requires LockInv(c, s) && TicketInv(c, s) && Acquire(c, s, s', t) && t !in s.log
    requires forall k :: 0 <= k < |s.log| ==> s.log[k] < |c.targets| && s.phase[s.log[k]].Ended?
    ensures |s'.phase| == |s'.ticket| == |c.targets| && TicketInv(c, s')
  {
    assert forall k :: 0 <= k < |s.log| ==> s.log[k] != t && s'.ticket[s.log[k]] == s.ticket[s.log[k]];
    assert forall k :: 0 <= k < |s.log| ==> s.log[k] in s.log && s.ticket[s.log[k]] < s.clock;
    assert forall m :: m in s.holder ==> s.holder[m] != t;
  }

  /** The log stays right as long as no logged call moves. */
  lemma LogStays<R(!new), V, E>(c: Calls<R, V, E>, files: map<string, File<R>>, s: State<R, V, E>, s': State<R, V, E>)
    requires LogInv(c, files, s) && s'.files == s.files && s'.log == s.log && |s'.phase| == |s.phase|
    requires forall u: nat :: u < |s.phase| && u in s.log ==> s'.phase[u] == s.phase[u]
    ensures LogInv(c, files, s')
  {
  }

  /** So do the tickets as long as no call starts and no lock is taken. */
  lemma TicketsStay<R(!new), V, E>(c: Calls<R, V, E>, s: State<R, V, E>, s': State<R, V, E>)
    requires |s.phase| == |s.ticket| == |c.targets| && TicketInv(c, s)
    requires |s'.phase| == |s.phase| && s'.ticket == s.ticket && s'.clock == s.clock && s'.log == s.log
    requires forall t: nat :: t < |c.targets| && Active(s'.phase[t]) ==> Active(s.phase[t])
    requires forall t: nat :: t < |c.targets| && s.phase[t].Started? ==> t !in s.log
    requires forall m :: m in s'.holder ==> m in s.holder && s'.holder[m] == s.holder[m]
    ensures TicketInv(c, s')
  {
  }

  lemma NotLogged<R(!new), V, E>(c: Calls<R, V, E>, s: State<R, V, E>)
    requires |s.phase| == |s.ticket| == |c.targets| && CallsInv(c, s)
    ensures forall t: nat :: t < |c.targets| && !s.phase[t].Ended? ==> t !in s.log
    ensures forall t: nat :: t < |c.targets| && t in s.log ==> s.phase[t].Ended?
  {
    forall t: nat | t < |c.targets| && !s.phase[t].Ended? ensures t !in s.log {
      assert CallInv(c, s, t);
    }
  }

  lemma LoggedHaveEnded<R(!new), V, E>(c: Calls<R, V, E>, files: map<string, File<R>>, s: State<R, V, E>)
    requires |s.phase| == |s.ticket| == |c.targets| && CallsInv(c, s) && LogInv(c, files, s)
    ensures forall k :: 0 <= k < |s.log| ==> s.log[k] < |c.targets| && s.phase[s.log[k]].Ended?
  {
    NotLogged(c, s);
    assert forall k :: 0 <= k < |s.log| ==> s.log[k] in s.log;
  }

  lemma AcquireInv<R(!new), V, E>(
      c: Calls<R, V, E>, files: map<string, File<R>>, s: State<R, V, E>, s': State<R, V, E>, t: nat)
    requires Inv(c, files, s) && Acquire(c, s, s', t) && LockInv(c, s')
    ensures Inv(c, files, s')
  {
    NotLogged(c, s);
    AcquireCalls(c, s, s', t);
    LoggedHaveEnded(c, files, s);
    AcquireTickets(c, s, s', t);
    LogStays(c, files, s, s');
  }

  lemma EndCalls<R(!new), V, E>(c: Calls<R, V, E>, s: State<R, V, E>, t: nat, e: Failure<E>)
    requires LockInv(c, s) && CallsInv(c, s) && IsCall(c, s, t) && !s.phase[t].Ended?
    ensures CallsInv(c, End(c, s, t, Err(e)))
  {
    var s' := End(c, s, t, Err(e));
    assert CallInv(c, s, t);
    forall u: nat | u < |c.targets| ensures CallInv(c, s', u) {
      assert CallInv(c, s, u);
    }
  }

  /** Ending a call without writing. */
  lemma EndInv<R(!new), V, E>(
      c: Calls<R, V, E>, files: map<string, File<R>>, s: State<R, V, E>, t: nat, e: Failure<E>)
    requires Inv(c, files, s) && IsCall(c, s, t) && !s.phase[t].Ended?
    ensures Inv(c, files, End(c, s, t, Err(e)))
  {
    var s' := End(c, s, t, Err(e));
    EndLockInv(c, s, t, Err(e));
    EndCalls(c, s, t, e);
    NotLogged(c, s);
    LogStays(c, files, s, s');
    TicketsStay(c, s, s');
  }

  lemma GoOnCalls<R(!new), V, E>(c: Calls<R, V, E>, s: State<R, V, E>, t: nat, phase: Phase<R, V, E>)
    requires |s.phase| == |s.ticket| == |c.targets| && CallsInv(c, s) && t < |c.targets|
    requires CallInv(c, s.(phase := s.phase[t := phase]), t)
    ensures CallsInv(c, s.(phase := s.phase[t := phase]))
  {
    var s' := s.(phase := s.phase[t := phase]);
    forall u: nat | u < |c.targets| ensures CallInv(c, s', u) {
      assert CallInv(c, s, u);
    }
  }

  /** A call that goes on under its lock, without writing. */
  lemma GoOnInv<R(!new), V, E>(
      c: Calls<R, V, E>, files: map<string, File<R>>, s: State<R, V, E>, t: nat, phase: Phase<R, V, E>)
    requires Inv(c, files, s) && t < |c.targets| && Active(s.phase[t]) && Active(phase)
    requires CallInv(c, s.(phase := s.phase[t := phase]), t)
    ensures Inv(c, files, s.(phase := s.phase[t := phase]))
  {
    var s' := s.(phase := s.phase[t := phase]);
    GoOnLockInv(c, s, s', t, phase);
    GoOnCalls(c, s, t, phase);
    NotLogged(c, s);
    LogStays(c, files, s, s');
    TicketsStay(c, s, s');
  }

  lemma LoadInv<R(!new), V, E>(
      c: Calls<R, V, E>, files: map<string, File<R>>, s: State<R, V, E>, s': State<R, V, E>, t: nat)
    requires Inv(c, files, s) && Load(c, s, s', t)
    ensures Inv(c, files, s')
  {
    assert CallInv(c, s, t);
    var m := c.targets[t];
    assert IsUsed(c, m);
    if m !in s.files {
      EndInv(c, files, s, t, NotFound);
    } else if s.files[m].version > CURRENT {
      EndInv(c, files, s, t, TooNew);
    } else {
      GoOnInv(c, files, s, t, Loaded(s.files[m].rec));
    }
  }

  lemma ApplyInv<R(!new), V, E>(
      c: Calls<R, V, E>, files: map<string, File<R>>, s: State<R, V, E>, s': State<R, V, E>, t: nat)
    requires Inv(c, files, s) && Apply(c, s, s', t)
    ensures Inv(c, files, s')
  {
    assert CallInv(c, s, t);
    match c.closure(t)(s.phase[t].rec)
    case Ok((rec, out)) => GoOnInv(c, files, s, t, Applied(rec, out));
    case Err(e) => EndInv(c, files, s, t, Refused(e));
  }

  /** The facts of a write: the call held its feature's lock and stored what its closure made of the file. */
  lemma WriteFacts<R(!new), V, E>(
      c: Calls<R, V, E>, files: map<string, File<R>>, s: State<R, V, E>, s': State<R, V, E>, t: nat)
    requires KeepsTargets(c, files) && Inv(c, files, s) && Write(c, s, s', t)
    ensures var m, rec, out := c.targets[t], s.phase[t].rec, s.phase[t].out;
      && Holds(c, s, t) && t !in s.log && Called(c, s.files, t) == Some((rec, out))
      && c.nameOf(rec) == m
      && s'.files == s.files[m := File(CURRENT, rec)] && s'.log == s.log + [t] && s'.reading == s.reading
      && s'.phase == s.phase[t := Ended(Ok(out))] && s'.holder == s.holder - {m}
      && s'.ticket == s.ticket && s'.clock == s.clock
  {
    assert CallInv(c, s, t);
    var m := c.targets[t];
    assert m in c.targets;
    var f := s.files[m];
    assert c.nameOf(c.closure(t)(f.rec).value.0) == m;
  }

  lemma ReplayAppend<R, V, E>(c: Calls<R, V, E>, files: map<string, File<R>>, log: seq<nat>, t: nat)
    ensures (log + [t])[..|log|] == log
    ensures forall k: nat :: k < |log| ==> ReplayOut(c, files, log + [t], k) == ReplayOut(c, files, log, k)
  {
    forall k: nat | k < |log| ensures ReplayOut(c, files, log + [t], k) == ReplayOut(c, files, log, k) {
      assert (log + [t])[..k] == log[..k];
    }
  }

  lemma WriteLogInv<R(!new), V, E>(
      c: Calls<R, V, E>, files: map<string, File<R>>, s: State<R, V, E>, s': State<R, V, E>, t: nat)
    requires KeepsTargets(c, files) && Inv(c, files, s) && Write(c, s, s', t)
    ensures LogInv(c, files, s')
  {
    WriteFacts(c, files, s, s', t);
    ReplayAppend(c, files, s.log, t);
    var n := |s.log|;
    assert Replay(c, files, s'.log) == Some(s'.files);
    forall k: nat | k < |s'.log| && s'.log[k] < |s'.phase|
      ensures ReplayOut(c, files, s'.log, k).Some?
           && s'.phase[s'.log[k]] == Ended(Ok(ReplayOut(c, files, s'.log, k).value))
    {
      if k < n {
        assert s'.log[k] == s.log[k] != t;
      }
    }
  }

  lemma WriteTicketInv<R(!new), V, E>(
      c: Calls<R, V, E>, files: map<string, File<R>>, s: State<R, V, E>, s': State<R, V, E>, t: nat)
    requires KeepsTargets(c, files) && Inv(c, files, s) && Write(c, s, s', t)
    ensures |s'.phase| == |s'.ticket| == |c.targets| && TicketInv(c, s')
  {
    WriteFacts(c, files, s, s', t);
    var m := c.targets[t];
    assert m in s.holder && s.holder[m] == t;
    forall j, k | 0 <= j < k < |s'.log| && SameTarget(c, s'.log[j], s'.log[k])
      ensures s'.ticket[s'.log[j]] < s'.ticket[s'.log[k]]
    {
      assert s'.log[j] == s.log[j];
      if k == |s.log| {
        assert SameTarget(c, s.log[j], s.holder[m]);
      } else {
        assert s'.log[k] == s.log[k];
      }
    }
    forall q, j | q in s'.holder && 0 <= j < |s'.log| && SameTarget(c, s'.log[j], s'.holder[q])
      ensures s'.ticket[s'.log[j]] < s'.ticket[s'.holder[q]]
    {
      assert q in s.holder && q != m && c.targets[s.holder[q]] == q;
      assert s'.log[j] == s.log[j];
    }
  }

  lemma WriteCallInv<R(!new), V, E>(
      c: Calls<R, V, E>, files: map<string, File<R>>, s: State<R, V, E>, s': State<R, V, E>, t: nat, u: nat)
    requires KeepsTargets(c, files) && Inv(c, files, s) && Write(c, s, s', t) && u < |c.targets|
    ensures IsCall(c, s', u) && CallInv(c, s', u)
  {
    WriteFacts(c, files, s, s', t);
    assert CallInv(c, s, u);
    if u != t && Active(s.phase[u]) {
      assert Holds(c, s, u) && c.targets[u] != c.targets[t];
    }
  }

  lemma WriteCalls<R(!new), V, E>(
      c: Calls<R, V, E>, files: map<string, File<R>>, s: State<R, V, E>, s': State<R, V, E>, t: nat)
    requires KeepsTargets(c, files) && Inv(c, files, s) && Write(c, s, s', t)
    ensures |s'.phase| == |s'.ticket| == |c.targets| && CallsInv(c, s')
  {
    WriteFacts(c, files, s, s', t);
    forall u: nat | u < |c.targets| ensures CallInv(c, s', u) {
      WriteCallInv(c, files, s, s', t, u);
    }
  }

  lemma WriteFiles<R(!new), V, E>(
      c: Calls<R, V, E>, files: map<string, File<R>>, s: State<R, V, E>, s': State<R, V, E>, m: string, rec: R)
    requires FileInv(c, files, s) && s'.files == s.files[m := File(CURRENT, rec)] && s'.reading == s.reading
    requires c.nameOf(rec) == m
    ensures FileInv(c, files, s')
  {
  }

  lemma WriteInv<R(!new), V, E>(
      c: Calls<R, V, E>, files: map<string, File<R>>, s: State<R, V, E>, s': State<R, V, E>, t: nat)
    requires KeepsTargets(c, files) && Inv(c, files, s) && Write(c, s, s', t) && LockInv(c, s')
    ensures Inv(c, files, s')
  {
    WriteFacts(c, files, s, s', t);
    WriteCalls(c, files, s, s', t);
    WriteFiles(c, files, s, s', c.targets[t], s.phase[t].rec);
    WriteLogInv(c, files, s, s', t);
    WriteTicketInv(c, files, s, s', t);
  }

  lemma ReadInv<R(!new), V, E>(
      c: Calls<R, V, E>, files: map<string, File<R>>, s: State<R, V, E>, s': State<R, V, E>, r: nat)
    requires Inv(c, files, s) && (StartRead(c, s, s', r) || EndRead(c, s, s', r))
    ensures Inv(c, files, s')
  {
    assert IsUsed(c, c.readers[r]);
    assert s' == s.(reading := s.reading[r := Finished]);
    SameLockInv(c, s, s');
    forall u: nat | u < |c.targets| ensures CallInv(c, s', u) {
      assert CallInv(c, s, u);
    }
    LogStays(c, files, s, s');
  }

  /** Every step of any call or read keeps the invariant, as long as closures keep to their features' names. */
  lemma StepInv<R(!new), V, E>(
      c: Calls<R, V, E>, files: map<string, File<R>>, s: State<R, V, E>, s': State<R, V, E>)
    requires KeepsTargets(c, files) && Inv(c, files, s) && Step(c, s, s')
    ensures Inv(c, files, s')
  {
    StepLockInv(c, s, s');
    if t: nat :| CallStep(c, s, s', t) || Fail(c, s, s', t) {
      assert CallInv(c, s, t);
      if Acquire(c, s, s', t) {
        AcquireInv(c, files, s, s', t);
      } else if Load(c, s, s', t) {
        LoadInv(c, files, s, s', t);
      } else if Apply(c, s, s', t) {
        ApplyInv(c, files, s, s', t);
      } else if Write(c, s, s', t) {
        WriteInv(c, files, s, s', t);
      } else {
        EndInv(c, files, s, t, Io);
        EndInv(c, files, s, t, NotFound);
      }
    } else {
      var r: nat :| StartRead(c, s, s', r) || EndRead(c, s, s', r);
      ReadInv(c, files, s, s', r);
    }
  }

  lemma {:induction false} RunInv<R(!new), V, E>(
      c: Calls<R, V, E>, files: map<string, File<R>>, run: seq<State<R, V, E>>, k: nat)
    requires KeepsTargets(c, files) && UpToDate(c, files) && IsRun(c, files, run) && k < |run|
    ensures Inv(c, files, run[k])
  {
    if k == 0 {
      StartInv(c, files);
    } else {
      RunInv(c, files, run, k - 1);
      StepInv(c, files, run[k - 1], run[k]);
    }
  }

  /** In every interleaving of calls and reads, at every moment, the calls are serial. The files need not be
      stored under the names their records bear. */
  lemma UpdatesAreSerial<R(!new), V, E>(
      c: Calls<R, V, E>, files: map<string, File<R>>, run: seq<State<R, V, E>>)
    requires KeepsTargets(c, files) && UpToDate(c, files) && IsRun(c, files, run)
    ensures IsSerial(c, files, run[|run| - 1])
  {
    RunInv(c, files, run, |run| - 1);
    var s := run[|run| - 1];
    forall t: nat | t < |c.targets| ensures t in s.log <==> s.phase[t].Ended? && s.phase[t].result.Ok? {
      assert CallInv(c, s, t);
    }
  }
}
