/** `bounded_map` as a system of steps: worker threads, an atomic ticket counter, a channel and its receiver. */
module Batch {
  import opened Order
  import opened Results

  // ----- one call of the user's closure -----

  datatype Payload = Str(message: string) | Owned(message: string) | Opaque

  datatype Call<+R, +F> = Returned(result: Result<R, F>) | Panicked(payload: Payload)

  datatype Failure<+F> = Own(failure: F) | WorkerPanic(idx: nat, message: string)

  /** What the worker sends for item `idx`: the closure's result, or its panic as a failure. */
  function Sent<R, F>(idx: nat, call: Call<R, F>): Result<R, Failure<F>>
  {
    match call
    case Returned(Ok(value)) => Ok(value)
    case Returned(Err(failure)) => Err(Own(failure))
    case Panicked(payload) =>
      Err(WorkerPanic(idx, if payload.Opaque? then "unknown panic in batch worker" else payload.message))
  }

  // ----- the system -----

  datatype Worker = Idle | Running(idx: nat) | Stopped

  /** An index and what came of its item. */
  type Message<V> = (nat, V)

  datatype State<V> = State(next: nat, workers: seq<Worker>, channel: seq<Message<V>>, received: seq<Message<V>>)

  function Clamp(limit: nat, n: nat): nat
    requires n > 0
  {
    if limit < 1 then 1 else if limit > n then n else limit
  }

  ghost predicate Init<V>(n: nat, limit: nat, s: State<V>)
    requires n > 0
  {
    s == State(0, seq(Clamp(limit, n), _ => Idle), [], [])
  }

  /** A worker takes the next ticket, and stops when it is past the last item. */
  ghost predicate Claim<V>(n: nat, s: State<V>, t: State<V>, w: nat)
  {
    w < |s.workers| && s.workers[w].Idle?
    && t == s.(next := s.next + 1, workers := s.workers[w := if s.next < n then Running(s.next) else Stopped])
  }

  /** A worker finishes its item and sends the outcome. */
  ghost predicate Finish<V(!new)>(outcome: nat -> V, s: State<V>, t: State<V>, w: nat)
  {
    w < |s.workers| && s.workers[w].Running?
    && var i := s.workers[w].idx;
    t == s.(workers := s.workers[w := Idle], channel := s.channel + [(i, outcome(i))])
  }

  /** The receiver takes the oldest message. */
  ghost predicate Receive<V>(s: State<V>, t: State<V>)
  {
    s.channel != [] && t == s.(channel := s.channel[1..], received := s.received + [s.channel[0]])
  }

  ghost predicate Step<V(!new)>(n: nat, outcome: nat -> V, s: State<V>, t: State<V>)
  {
    (exists w: nat :: Claim(n, s, t, w)) || (exists w: nat :: Finish(outcome, s, t, w)) || Receive(s, t)
  }

  /** Every worker has returned, dropping its sender, and the channel is drained. */
  ghost predicate Done<V>(s: State<V>)
  {
    (forall w :: 0 <= w < |s.workers| ==> s.workers[w].Stopped?) && s.channel == []
  }

  /** Any interleaving of the workers and the receiver. */
  ghost predicate IsRun<V(!new)>(n: nat, limit: nat, outcome: nat -> V, run: seq<State<V>>)
    requires n > 0
  {
    run != [] && Init(n, limit, run[0])
    && forall k :: 0 < k < |run| ==> Step(n, outcome, run[k - 1], run[k])
  }

  // ----- the invariant -----

  /** How often item `i` is being run, is on its way, or has arrived. */
  ghost function Places<V(!new)>(outcome: nat -> V, s: State<V>, i: nat): nat
  {
    multiset(s.workers)[Running(i)] + multiset(s.channel)[(i, outcome(i))] + multiset(s.received)[(i, outcome(i))]
  }

  ghost predicate Genuine<V(!new)>(n: nat, outcome: nat -> V, messages: seq<Message<V>>)
  {
    forall k :: 0 <= k < |messages| ==> messages[k].0 < n && messages[k].1 == outcome(messages[k].0)
  }

  /** Each claimed item is in exactly one place and each unclaimed one in none; messages tell the
      truth; a worker stops only when every item is claimed. */
  ghost predicate Inv<V(!new)>(n: nat, limit: nat, outcome: nat -> V, s: State<V>)
    requires n > 0
  {
    && |s.workers| == Clamp(limit, n)
    && (forall i: nat :: Places(outcome, s, i) == if i < Min(s.next, n) then 1 else 0)
    && Genuine(n, outcome, s.channel) && Genuine(n, outcome, s.received)
    && (Stopped in s.workers ==> s.next >= n)
  }

  lemma InitInv<V(!new)>(n: nat, limit: nat, outcome: nat -> V, s: State<V>)
    requires n > 0 && Init(n, limit, s)
    ensures Inv(n, limit, outcome, s)
  {
    assert forall x :: x in s.workers ==> x == Idle;
    forall i: nat ensures multiset(s.workers)[Running(i)] == 0 {
      assert Running(i) !in s.workers;
    }
  }

  lemma StepInv<V(!new)>(n: nat, limit: nat, outcome: nat -> V, s: State<V>, t: State<V>)
    requires n > 0 && Inv(n, limit, outcome, s) && Step(n, outcome, s, t)
    ensures Inv(n, limit, outcome, t)
  {
    if w: nat :| Claim(n, s, t, w) {
      ClaimInv(n, limit, outcome, s, t, w);
    } else if w: nat :| Finish(outcome, s, t, w) {
      FinishInv(n, limit, outcome, s, t, w);
    } else {
      ReceiveInv(n, limit, outcome, s, t);
    }
  }

  lemma ClaimInv<V(!new)>(n: nat, limit: nat, outcome: nat -> V, s: State<V>, t: State<V>, w: nat)
    requires n > 0 && Inv(n, limit, outcome, s) && Claim(n, s, t, w)
    ensures Inv(n, limit, outcome, t)
  {
    var now := t.workers[w];
    assert multiset(t.workers) == multiset(s.workers) - multiset{Idle} + multiset{now};
    forall i: nat ensures Places(outcome, t, i) == if i < Min(t.next, n) then 1 else 0 {
      assert Places(outcome, s, i) == if i < Min(s.next, n) then 1 else 0;
    }
    assert forall x :: x in t.workers ==> x == now || x in s.workers;
  }

  lemma FinishInv<V(!new)>(n: nat, limit: nat, outcome: nat -> V, s: State<V>, t: State<V>, w: nat)
    requires n > 0 && Inv(n, limit, outcome, s) && Finish(outcome, s, t, w)
    ensures Inv(n, limit, outcome, t)
  {
    var j := s.workers[w].idx;
    assert Running(j) in multiset(s.workers);
    assert Places(outcome, s, j) >= 1;
    assert multiset(t.workers) == multiset(s.workers) - multiset{Running(j)} + multiset{Idle};
    forall i: nat ensures Places(outcome, t, i) == Places(outcome, s, i) {
    }
    assert forall x :: x in t.workers ==> x == Idle || x in s.workers;
  }

  lemma ReceiveInv<V(!new)>(n: nat, limit: nat, outcome: nat -> V, s: State<V>, t: State<V>)
    requires n > 0 && Inv(n, limit, outcome, s) && Receive(s, t)
    ensures Inv(n, limit, outcome, t)
  {
    assert s.channel == [s.channel[0]] + t.channel;
    forall i: nat ensures Places(outcome, t, i) == Places(outcome, s, i) {
    }
  }

  // ----- termination -----

  function Weight(worker: Worker): nat
  {
    match worker
    case Idle => 1
    case Running(_) => 3
    case Stopped => 0
  }

  ghost function Load(workers: seq<Worker>): nat
  {
    if workers == [] then 0 else Weight(workers[0]) + Load(workers[1..])
  }

  lemma {:induction false} LoadUpdate(workers: seq<Worker>, w: nat, worker: Worker)
    requires w < |workers|
    ensures Load(workers[w := worker]) == Load(workers) - Weight(workers[w]) + Weight(worker)
  {
    if w > 0 {
      assert workers[w := worker][1..] == workers[1..][w - 1 := worker];
      LoadUpdate(workers[1..], w - 1, worker);
    } else {
      assert workers[w := worker][1..] == workers[1..];
    }
  }

  /** An upper bound on the steps still to come. */
  ghost function Measure<V>(n: nat, s: State<V>): nat
  {
    4 * (n - Min(s.next, n)) + Load(s.workers) + |s.channel|
  }

  lemma StepDecreases<V(!new)>(n: nat, outcome: nat -> V, s: State<V>, t: State<V>)
    requires Step(n, outcome, s, t)
    ensures Measure(n, t) < Measure(n, s)
  {
    if w: nat :| Claim(n, s, t, w) {
      LoadUpdate(s.workers, w, t.workers[w]);
    } else if w: nat :| Finish(outcome, s, t, w) {
      LoadUpdate(s.workers, w, Idle);
    }
  }

  /** Until the call is done, some thread can move. */
  lemma NeverStuck<V(!new)>(n: nat, outcome: nat -> V, s: State<V>)
    ensures Done(s) <==> !exists t :: Step(n, outcome, s, t)
  {
    if !Done(s) {
      var t := Successor(n, outcome, s);
    } else {
      assert forall w: nat :: w < |s.workers| ==> s.workers[w].Stopped?;
    }
  }

  lemma Successor<V(!new)>(n: nat, outcome: nat -> V, s: State<V>) returns (t: State<V>)
    requires !Done(s)
    ensures Step(n, outcome, s, t)
  {
    if s.channel != [] {
      t := s.(channel := s.channel[1..], received := s.received + [s.channel[0]]);
      assert Receive(s, t);
    } else {
      var w: nat :| w < |s.workers| && !s.workers[w].Stopped?;
      if s.workers[w].Idle? {
        t := s.(next := s.next + 1, workers := s.workers[w := if s.next < n then Running(s.next) else Stopped]);
        assert Claim(n, s, t, w);
      } else {
        var i := s.workers[w].idx;
        t := s.(workers := s.workers[w := Idle], channel := s.channel + [(i, outcome(i))]);
        assert Finish(outcome, s, t, w);
      }
    }
  }

  // ----- the sorted result -----

  function Insert<V>(m: Message<V>, ms: seq<Message<V>>): (r: seq<Message<V>>)
    ensures multiset(r) == multiset(ms) + multiset{m}
  {
    if ms == [] || m.0 <= ms[0].0 then [m] + ms
    else
      assert ms == [ms[0]] + ms[1..];
      [ms[0]] + Insert(m, ms[1..])
  }

  /** The stable sort by index. */
  function SortByIndex<V>(ms: seq<Message<V>>): (r: seq<Message<V>>)
    ensures multiset(r) == multiset(ms)
  {
    if ms == [] then []
    else
      assert ms == [ms[0]] + ms[1..];
      Insert(ms[0], SortByIndex(ms[1..]))
  }

  ghost predicate Ordered<V>(ms: seq<Message<V>>)
  {
    forall i, j :: 0 <= i < j < |ms| ==> ms[i].0 <= ms[j].0
  }

  lemma {:induction false} InsertOrdered<V>(m: Message<V>, ms: seq<Message<V>>)
    requires Ordered(ms)
    ensures Ordered(Insert(m, ms))
  {
    if ms != [] && m.0 > ms[0].0 {
      InsertOrdered(m, ms[1..]);
      var r := Insert(m, ms[1..]);
      forall j | 0 <= j < |r| ensures ms[0].0 <= r[j].0 {
        assert r[j] in multiset(r);
        assert r[j] == m || r[j] in ms[1..];
      }
    }
  }

  lemma {:induction false} SortOrdered<V>(ms: seq<Message<V>>)
    ensures Ordered(SortByIndex(ms))
  {
    if ms != [] {
      SortOrdered(ms[1..]);
      InsertOrdered(ms[0], SortByIndex(ms[1..]));
    }
  }

  lemma HighestIsLast<V(!new)>(n: nat, outcome: nat -> V, r: seq<Message<V>>)
    requires n > 0 && Ordered(r) && Genuine(n, outcome, r)
    requires multiset(r)[(n - 1, outcome(n - 1))] == 1
    ensures r != [] && r[|r| - 1] == (n - 1, outcome(n - 1))
    ensures Genuine(n - 1, outcome, r[..|r| - 1])
  {
    var last := (n - 1, outcome(n - 1));
    assert last in multiset(r);
    assert last in r;
    var k :| 0 <= k < |r| && r[k] == last;
    assert r[|r| - 1].0 >= r[k].0;
    assert r[|r| - 1] == last;
    OnlyOnce(r, last);
  }

  lemma OnlyOnce<T>(r: seq<T>, x: T)
    requires r != [] && r[|r| - 1] == x && multiset(r)[x] == 1
    ensures x !in r[..|r| - 1]
  {
    assert r == r[..|r| - 1] + [x];
    assert multiset(r)[x] == multiset(r[..|r| - 1])[x] + 1;
  }

  /** Each index below `n` once, ordered, is the list of indices in order. */
  lemma FrontCounts<V(!new)>(n: nat, outcome: nat -> V, r: seq<Message<V>>, front: seq<Message<V>>)
    requires n > 0 && r == front + [(n - 1, outcome(n - 1))]
    requires forall i: nat :: i < n ==> multiset(r)[(i, outcome(i))] == 1
    ensures forall i: nat :: i < n - 1 ==> multiset(front)[(i, outcome(i))] == 1
  {
    assert multiset(r) == multiset(front) + multiset{(n - 1, outcome(n - 1))};
    forall i: nat | i < n - 1 ensures multiset(front)[(i, outcome(i))] == 1 {
      assert multiset(r)[(i, outcome(i))] == 1;
    }
  }

  lemma CutHighest<V(!new)>(n: nat, outcome: nat -> V, r: seq<Message<V>>) returns (front: seq<Message<V>>)
    requires n > 0 && Ordered(r) && Genuine(n, outcome, r)
    requires forall i: nat :: i < n ==> multiset(r)[(i, outcome(i))] == 1
    ensures r == front + [(n - 1, outcome(n - 1))]
    ensures Ordered(front) && Genuine(n - 1, outcome, front)
    ensures forall i: nat :: i < n - 1 ==> multiset(front)[(i, outcome(i))] == 1
  {
    HighestIsLast(n, outcome, r);
    front := r[..|r| - 1];
    assert r == front + [(n - 1, outcome(n - 1))];
    FrontCounts(n, outcome, r, front);
  }

  lemma {:induction false} OrderedIsIndexed<V(!new)>(n: nat, outcome: nat -> V, r: seq<Message<V>>)
    requires Ordered(r) && Genuine(n, outcome, r)
    requires forall i: nat :: i < n ==> multiset(r)[(i, outcome(i))] == 1
    ensures |r| == n && forall i :: 0 <= i < n ==> r[i] == (i, outcome(i))
    decreases n
  {
    if n > 0 {
      var front := CutHighest(n, outcome, r);
      OrderedIsIndexed(n - 1, outcome, front);
    } else {
      assert |r| > 0 ==> r[0].0 < 0;
    }
  }

  /** What `bounded_map` returns once the receiver's loop ends. */
  function Output<V>(s: State<V>): seq<V>
  {
    var sorted := SortByIndex(s.received);
    seq(|sorted|, i requires 0 <= i < |sorted| => sorted[i].1)
  }

  lemma AllReceived<V(!new)>(n: nat, limit: nat, outcome: nat -> V, s: State<V>)
    requires n > 0 && Inv(n, limit, outcome, s) && Done(s)
    ensures forall i: nat | i < n :: multiset(s.received)[(i, outcome(i))] == 1
  {
    assert s.workers[0] in s.workers;
    assert forall x :: x in s.workers ==> x == Stopped;
    forall i: nat | i < n ensures multiset(s.received)[(i, outcome(i))] == 1 {
      assert Running(i) !in multiset(s.workers);
      assert Places(outcome, s, i) == 1;
    }
  }

  lemma DoneIsComplete<V(!new)>(n: nat, limit: nat, outcome: nat -> V, s: State<V>)
    requires n > 0 && Inv(n, limit, outcome, s) && Done(s)
    ensures Output(s) == seq(n, i requires 0 <= i < n => outcome(i))
  {
    AllReceived(n, limit, outcome, s);
    var r := SortByIndex(s.received);
    SortOrdered(s.received);
    forall k | 0 <= k < |r| ensures r[k].0 < n && r[k].1 == outcome(r[k].0) {
      assert r[k] in multiset(r);
      assert r[k] in s.received;
    }
    OrderedIsIndexed(n, outcome, r);
  }

  // ----- every run -----

  lemma {:induction false} RunInv<V(!new)>(n: nat, limit: nat, outcome: nat -> V, run: seq<State<V>>, k: nat)
    requires n > 0 && IsRun(n, limit, outcome, run) && k < |run|
    ensures Inv(n, limit, outcome, run[k])
    ensures Measure(n, run[k]) + k <= Measure(n, run[0])
  {
    if k == 0 {
      InitInv(n, limit, outcome, run[0]);
    } else {
      RunInv(n, limit, outcome, run, k - 1);
      StepInv(n, limit, outcome, run[k - 1], run[k]);
      StepDecreases(n, outcome, run[k - 1], run[k]);
    }
  }

  lemma {:induction false} IdleLoad(c: nat)
    ensures Load(seq(c, _ => Idle)) == c
  {
    if c > 0 {
      assert seq(c, _ => Idle)[1..] == seq(c - 1, _ => Idle);
      IdleLoad(c - 1);
    }
  }

  ghost function RunningItems(workers: seq<Worker>): set<nat>
  {
    set w | 0 <= w < |workers| && workers[w].Running? :: workers[w].idx
  }

  lemma {:induction false} RunningBound(workers: seq<Worker>)
    ensures |RunningItems(workers)| <= |workers|
  {
    if workers != [] {
      var n := |workers| - 1;
      RunningBound(workers[..n]);
      var one: set<nat> := if workers[n].Running? then {workers[n].idx} else {};
      assert RunningItems(workers) == RunningItems(workers[..n]) + one by {
        forall i | i in RunningItems(workers) ensures i in RunningItems(workers[..n]) + one {
          var w :| 0 <= w < |workers| && workers[w].Running? && workers[w].idx == i;
          if w < n {
            assert workers[..n][w] == workers[w];
          }
        }
        forall i | i in RunningItems(workers[..n]) ensures i in RunningItems(workers) {
          var w :| 0 <= w < n && workers[..n][w].Running? && workers[..n][w].idx == i;
          assert workers[w] == workers[..n][w];
        }
      }
    }
  }

  /** In every interleaving: at most `limit` items run at once, one where the limit is nothing, and never
      more than there are; no two workers run the same one; the run is bounded; and where no thread can
      move any more, entry `i` of the result is item `i`'s. */
  lemma EveryRunIsOrderly<V(!new)>(n: nat, limit: nat, outcome: nat -> V, run: seq<State<V>>)
    requires n > 0 && IsRun(n, limit, outcome, run)
    ensures |run| <= 5 * n + 1
    ensures forall k :: 0 <= k < |run| ==> |RunningItems(run[k].workers)| <= n
    ensures limit >= 1 ==> forall k :: 0 <= k < |run| ==> |RunningItems(run[k].workers)| <= limit
    ensures limit == 0 ==> forall k :: 0 <= k < |run| ==> |RunningItems(run[k].workers)| <= 1
    ensures forall k, i: nat :: 0 <= k < |run| ==> Places(outcome, run[k], i) <= 1
    ensures var last := run[|run| - 1];
      (!exists t :: Step(n, outcome, last, t)) ==> Output(last) == seq(n, i requires 0 <= i < n => outcome(i))
  {
    var last := |run| - 1;
    RunInv(n, limit, outcome, run, last);
    IdleLoad(Clamp(limit, n));
    forall k | 0 <= k < |run| ensures |RunningItems(run[k].workers)| <= Clamp(limit, n) {
      RunInv(n, limit, outcome, run, k);
      RunningBound(run[k].workers);
    }
    forall k, i: nat | 0 <= k < |run| ensures Places(outcome, run[k], i) <= 1 {
      RunInv(n, limit, outcome, run, k);
    }
    NeverStuck(n, outcome, run[last]);
    if Done(run[last]) {
      DoneIsComplete(n, limit, outcome, run[last]);
    }
  }

  // ----- the bound is reached -----

  /** The first `k` of `c` workers run the first `k` items. */
  ghost function Claimed(c: nat, k: nat): seq<Worker>
  {
    seq(c, w requires 0 <= w < c => if w < k then Running(w) else Idle)
  }

  lemma {:induction false} ClaimOnly<V(!new)>(n: nat, limit: nat, outcome: nat -> V, k: nat)
    returns (run: seq<State<V>>)
    requires n > 0 && k <= Clamp(limit, n)
    ensures IsRun(n, limit, outcome, run)
    ensures run[|run| - 1] == State(k, Claimed(Clamp(limit, n), k), [], [])
  {
    var c := Clamp(limit, n);
    var s: State<V> := State(k, Claimed(c, k), [], []);
    if k == 0 {
      assert Claimed(c, 0) == seq(c, _ => Idle);
      run := [s];
    } else {
      var before := ClaimOnly(n, limit, outcome, k - 1);
      assert Claimed(c, k) == Claimed(c, k - 1)[k - 1 := Running(k - 1)];
      assert Claim(n, before[|before| - 1], s, k - 1);
      run := before + [s];
    }
  }

  lemma OneMoreClaimed(c: nat, k: nat)
    requires 0 < k <= c
    ensures RunningItems(Claimed(c, k)) == RunningItems(Claimed(c, k - 1)) + {k - 1}
  {
    var now, before := Claimed(c, k), Claimed(c, k - 1);
    forall i | i in RunningItems(before) + {k - 1} ensures i in RunningItems(now) {
      assert now[i] == Running(i);
    }
    forall i | i in RunningItems(now) ensures i in RunningItems(before) + {k - 1} {
      assert i < k - 1 ==> before[i] == Running(i);
    }
  }

  lemma {:induction false} ClaimedItems(c: nat, k: nat)
    requires k <= c
    ensures |RunningItems(Claimed(c, k))| == k
    ensures forall i :: i in RunningItems(Claimed(c, k)) ==> i < k
  {
    if k > 0 {
      ClaimedItems(c, k - 1);
      OneMoreClaimed(c, k);
    }
  }

  /** The pool is as wide as it may be: some schedule runs `limit` items at once, one where the limit is
      nothing, and all of them where there are no more than that. */
  lemma BoundIsReached<V(!new)>(n: nat, limit: nat, outcome: nat -> V) returns (run: seq<State<V>>)
    requires n > 0
    ensures IsRun(n, limit, outcome, run)
    ensures var together := |RunningItems(run[|run| - 1].workers)|;
      && (1 <= limit <= n ==> together == limit)
      && (limit == 0 ==> together == 1)
      && (limit > n ==> together == n)
  {
    var c := Clamp(limit, n);
    run := ClaimOnly(n, limit, outcome, c);
    ClaimedItems(c, c);
  }

  /** `out` is something `bounded_map` can return for the closure's calls. */
  ghost predicate Returns<R(!new), F(!new)>(n: nat, limit: nat, call: nat -> Call<R, F>, out: seq<Result<R, Failure<F>>>)
  {
    if n == 0 then out == []
    else exists run :: IsRun(n, limit, i => Sent(i, call(i)), run) && Done(run[|run| - 1]) && out == Output(run[|run| - 1])
  }

  /** The result is the same on every schedule: item `i`'s own outcome at place `i`. */
  lemma BoundedMapIsMap<R(!new), F(!new)>(n: nat, limit: nat, call: nat -> Call<R, F>, out: seq<Result<R, Failure<F>>>)
    requires Returns(n, limit, call, out)
    ensures |out| == n && forall i :: 0 <= i < n ==> out[i] == Sent(i, call(i))
  {
    if n > 0 {
      var outcome := (i: nat) => Sent(i, call(i));
      var run :| IsRun(n, limit, outcome, run) && Done(run[|run| - 1]) && out == Output(run[|run| - 1]);
      RunInv(n, limit, outcome, run, |run| - 1);
      DoneIsComplete(n, limit, outcome, run[|run| - 1]);
    }
  }

  lemma SentSays<R(!new), F(!new)>(idx: nat, call: Call<R, F>, out: Result<R, Failure<F>>)
    requires out == Sent(idx, call)
    ensures forall value :: out == Ok(value) <==> call == Returned(Ok(value))
    ensures forall failure :: out == Err(Own(failure)) <==> call == Returned(Err(failure))
    ensures forall at, message :: out == Err(WorkerPanic(at, message)) <==>
      at == idx && (call == Panicked(Str(message)) || call == Panicked(Owned(message))
                    || (call == Panicked(Opaque) && message == "unknown panic in batch worker"))
  {
  }

  /** A closure's value and failure come back as they are; a panic comes back as a failure of its own
      item, with the message where the payload is text. */
  lemma OutcomesAreTheCalls<R(!new), F(!new)>(
      n: nat, limit: nat, call: nat -> Call<R, F>, out: seq<Result<R, Failure<F>>>, i: nat)
    requires Returns(n, limit, call, out) && i < n
    ensures i < |out|
    ensures forall value :: out[i] == Ok(value) <==> call(i) == Returned(Ok(value))
    ensures forall failure :: out[i] == Err(Own(failure)) <==> call(i) == Returned(Err(failure))
    ensures forall at, message :: out[i] == Err(WorkerPanic(at, message)) <==>
      at == i && (call(i) == Panicked(Str(message)) || call(i) == Panicked(Owned(message))
                  || (call(i) == Panicked(Opaque) && message == "unknown panic in batch worker"))
  {
    BoundedMapIsMap(n, limit, call, out);
    SentSays(i, call(i), out[i]);
  }

  // ----- a batch over features -----

  datatype BatchItem<+V> = BatchItem(feature: string, outcome: V)

  /** `run_feature_batch`: the features zipped with the results. */
  function Zipped<V>(features: seq<string>, results: seq<V>): seq<BatchItem<V>>
  {
    var n := Min(|features|, |results|);
    seq(n, i requires 0 <= i < n => BatchItem(features[i], results[i]))
  }

  /** Every feature is reported once, in order, with the outcome of its own call. */
  lemma FeatureBatchPairs<R(!new), F(!new)>(
      features: seq<string>, limit: nat, call: nat -> Call<R, F>, out: seq<Result<R, Failure<F>>>)
    requires Returns(|features|, limit, call, out)
    ensures var items := Zipped(features, out);
      |items| == |features|
      && forall i :: 0 <= i < |features| ==> items[i] == BatchItem(features[i], Sent(i, call(i)))
  {
    BoundedMapIsMap(|features|, limit, call, out);
  }
}
