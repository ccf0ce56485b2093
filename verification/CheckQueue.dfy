/**
 The parallel check queue of `src/checkqueue.h` as a state machine. Thread 0 is the master, the
 others are workers. One step is one critical section of `Loop`, one executed check, one call of
 `Add`, or the start of a thread; every interleaving of these is a run.
 */
module CheckQueue {

  /** A verification job: calling it yields `ok`. */
  datatype Check = Check(id: nat, ok: bool)

  datatype Thread =
    | Outside                                             // not inside Loop
    | Running(batch: seq<Check>, pos: nat, fOk: bool)     // holds nNow == |batch| checks, pos of them are done
    | Sleeping(notified: bool)                            // blocked in cond.wait

  datatype State = State(
    nBatchSize: nat,
    queue: seq<Check>,
    nIdle: int,
    nTotal: int,
    fAllOk: bool,
    nTodo: int,
    threads: seq<Thread>,
    added: seq<Check>,            // history: everything passed to Add since the last Wait returned
    finished: multiset<Check>,    // history: the checks of those whose batches have been accounted for
    returned: seq<bool>)          // history: what the calls of Wait have returned

  datatype Step =
    | Add(checks: seq<Check>, woken: set<nat>)   // the master adds checks and notifies sleeping workers
    | Start(t: nat)                              // a worker starts, or the master calls Wait
    | Lock(t: nat)                               // enter the critical section at the top of the loop
    | Wake(t: nat)                               // cond.wait returns (notified or spuriously)
    | Execute(t: nat)                            // evaluate the next check of the batch

  const MASTER: nat := 0

  // ----- Steps -----

  function Max(a: int, b: int): int { if a < b then b else a }
  function Min(a: int, b: int): int { if a < b then a else b }

  /** How many checks a thread takes at once. */
  function BatchSize(s: State): int
    requires s.nTotal + s.nIdle + 1 > 0
  {
    Max(1, Min(s.nBatchSize, |s.queue| / (s.nTotal + s.nIdle + 1)))
  }

  /** The last `n` checks of the queue, in the order in which `queue.back()` yields them. */
  function Taken(queue: seq<Check>, n: nat): (batch: seq<Check>)
    requires n <= |queue|
    ensures |batch| == n
    ensures multiset(batch) + multiset(queue[..|queue| - n]) == multiset(queue)
  {
    if n == 0 then
      assert queue[..|queue|] == queue;
      []
    else
      var rest := queue[..|queue| - 1];
      assert queue == rest + [queue[|queue| - 1]];
      assert rest[..|rest| - (n - 1)] == queue[..|queue| - n];
      [queue[|queue| - 1]] + Taken(rest, n - 1)
  }

  /** From the test of `queue.empty()` on: take a batch, go to sleep, or let the master return. */
  function Decide(s: State, t: nat): State
    requires t < |s.threads|
    requires s.nTotal + s.nIdle + 1 > 0
  {
    if s.queue == [] then
      if t == MASTER && s.nTodo == 0 then
        s.(nTotal := s.nTotal - 1, fAllOk := true, threads := s.threads[t := Outside],
           added := [], finished := multiset{}, returned := s.returned + [s.fAllOk])
      else
        s.(nIdle := s.nIdle + 1, threads := s.threads[t := Sleeping(false)])
    else
      BatchSizeFits(s);
      var n := BatchSize(s);
      s.(queue := s.queue[..|s.queue| - n], threads := s.threads[t := Running(Taken(s.queue, n), 0, s.fAllOk)])
  }

  lemma MulAtLeast(q: nat, d: nat)
    requires d >= 1
    ensures q * d >= q
  {
  }

  lemma BatchSizeFits(s: State)
    requires s.nTotal + s.nIdle + 1 > 0 && s.queue != []
    ensures 1 <= BatchSize(s) <= |s.queue|
  {
    var d := s.nTotal + s.nIdle + 1;
    MulAtLeast(|s.queue| / d, d);
  }

  /** `condMaster.notify_one`. */
  function NotifyMaster(threads: seq<Thread>): (r: seq<Thread>)
    requires |threads| > 0
    ensures |r| == |threads|
  {
    if threads[MASTER].Sleeping? then threads[MASTER := Sleeping(true)] else threads
  }

  /** What `cond.wait` returning changes before the queue is looked at again. */
  function WakeUp(s: State): State { s.(nIdle := s.nIdle - 1) }

  /** The clean-up of the previous round, or the registration of a thread that has just entered. */
  function CleanUp(s: State, t: nat): (r: State)
    requires t < |s.threads| && s.threads[t].Running?
    ensures |r.threads| == |s.threads|
  {
    var me := s.threads[t];
    if |me.batch| > 0 then
      var nTodo := s.nTodo - |me.batch|;
      s.(fAllOk := s.fAllOk && me.fOk, nTodo := nTodo,
         threads := if nTodo == 0 && t != MASTER then NotifyMaster(s.threads) else s.threads,
         finished := s.finished + multiset(me.batch))
    else
      s.(nTotal := s.nTotal + 1)
  }

  function Notify(threads: seq<Thread>, woken: set<nat>): (r: seq<Thread>)
    ensures |r| == |threads|
  {
    seq(|threads|, i requires 0 <= i < |threads| =>
      if i in woken && threads[i].Sleeping? then Sleeping(true) else threads[i])
  }

  predicate SleepingWorker(threads: seq<Thread>, t: nat) {
    0 < t < |threads| && threads[t] == Sleeping(false)
  }

  /** Whom `condWorker` may wake when `n` checks were added: nobody, one sleeper, or all of them. */
  ghost predicate Notifies(threads: seq<Thread>, n: nat, woken: set<nat>) {
    if n == 0 then woken == {}
    else if n == 1 then
      if exists t: nat :: SleepingWorker(threads, t) then exists t: nat :: SleepingWorker(threads, t) && woken == {t}
      else woken == {}
    else forall t: nat :: t in woken <==> SleepingWorker(threads, t)
  }

  ghost predicate Enabled(s: State, step: Step) {
    match step
    case Add(checks, woken) => |s.threads| > 0 && s.threads[MASTER].Outside? && Notifies(s.threads, |checks|, woken)
    case Start(t) => t < |s.threads| && s.threads[t].Outside?
    case Lock(t) => t < |s.threads| && s.threads[t].Running? && s.threads[t].pos == |s.threads[t].batch|
    case Wake(t) => t < |s.threads| && s.threads[t].Sleeping?
    case Execute(t) => t < |s.threads| && s.threads[t].Running? && s.threads[t].pos < |s.threads[t].batch|
  }

  /** `Add`, under the lock. */
  function AddStep(s: State, checks: seq<Check>, woken: set<nat>): State {
    s.(queue := s.queue + checks, nTodo := s.nTodo + |checks|, threads := Notify(s.threads, woken),
       added := s.added + checks)
  }

  function StartStep(s: State, t: nat): State
    requires t < |s.threads|
  {
    s.(threads := s.threads[t := Running([], 0, true)])
  }

  /** One turn of the loop that executes a batch: after a failure the remaining checks are skipped. */
  function ExecuteStep(s: State, t: nat): State
    requires t < |s.threads| && s.threads[t].Running? && s.threads[t].pos < |s.threads[t].batch|
  {
    var me := s.threads[t];
    s.(threads := s.threads[t := Running(me.batch, me.pos + 1, me.fOk && me.batch[me.pos].ok)])
  }

  ghost function Next(s: State, step: Step): State
    requires Inv(s) && Enabled(s, step)
  {
    match step
    case Add(checks, woken) => AddStep(s, checks, woken)
    case Start(t) => StartStep(s, t)
    case Lock(t) => CleanUpLocked(s, t); LockedCounts(CleanUp(s, t), t); Decide(CleanUp(s, t), t)
    case Wake(t) => WakeLocked(s, t); LockedCounts(WakeUp(s), t); Decide(WakeUp(s), t)
    case Execute(t) => ExecuteStep(s, t)
  }

  // ----- Sums over the threads -----

  function Sum(threads: seq<Thread>, f: Thread -> nat): int {
    if threads == [] then 0 else f(threads[0]) + Sum(threads[1..], f)
  }

  function Batches(threads: seq<Thread>): multiset<Check> {
    if threads == [] then multiset{} else BatchOf(threads[0]) + Batches(threads[1..])
  }

  function BatchOf(t: Thread): multiset<Check> { if t.Running? then multiset(t.batch) else multiset{} }
  function InBatch(t: Thread): nat { if t.Running? then |t.batch| else 0 }
  function Idle(t: Thread): nat { if t.Sleeping? then 1 else 0 }
  function Counted(t: Thread): nat { if t.Sleeping? || (t.Running? && t.batch != []) then 1 else 0 }

  lemma {:induction false} SumUpdate(threads: seq<Thread>, i: nat, t: Thread, f: Thread -> nat)
    requires i < |threads|
    ensures Sum(threads[i := t], f) == Sum(threads, f) - f(threads[i]) + f(t)
  {
    if i == 0 {
      assert threads[0 := t][1..] == threads[1..];
    } else {
      assert threads[i := t][1..] == threads[1..][i - 1 := t];
      SumUpdate(threads[1..], i - 1, t, f);
    }
  }

  lemma {:induction false} BatchesSplit(threads: seq<Thread>, i: nat)
    requires i < |threads|
    ensures Batches(threads) == Batches(threads[i := Outside]) + BatchOf(threads[i])
  {
    if i == 0 {
      assert threads[0 := Outside][1..] == threads[1..];
    } else {
      assert threads[i := Outside][1..] == threads[1..][i - 1 := Outside];
      BatchesSplit(threads[1..], i - 1);
    }
  }

  lemma {:induction false} SumNonNegative(threads: seq<Thread>, f: Thread -> nat)
    ensures Sum(threads, f) >= 0
  {
    if threads != [] {
      SumNonNegative(threads[1..], f);
    }
  }

  lemma {:induction false} SumAt(threads: seq<Thread>, i: nat, f: Thread -> nat)
    requires i < |threads|
    ensures Sum(threads, f) >= f(threads[i])
  {
    SumNonNegative(threads[1..], f);
    if i > 0 {
      SumAt(threads[1..], i - 1, f);
    }
  }

  lemma {:induction false} SumZero(threads: seq<Thread>, f: Thread -> nat)
    ensures Sum(threads, f) == 0 <==> forall i | 0 <= i < |threads| :: f(threads[i]) == 0
  {
    if threads != [] {
      SumNonNegative(threads[1..], f);
      SumZero(threads[1..], f);
      if Sum(threads[1..], f) == 0 {
        forall i | 0 < i < |threads| ensures f(threads[i]) == 0 {
          assert threads[i] == threads[1..][i - 1];
        }
      } else {
        var i :| 0 <= i < |threads[1..]| && f(threads[1..][i]) != 0;
        assert f(threads[i + 1]) != 0;
      }
    }
  }

  // ----- The invariant -----

  predicate AllHold(checks: seq<Check>) {
    forall i | 0 <= i < |checks| :: checks[i].ok
  }

  /** A thread's batch cannot turn the result false any more. */
  predicate Clean(t: Thread) {
    t.Running? ==> t.fOk && forall i | t.pos <= i < |t.batch| :: t.batch[i].ok
  }

  predicate ThreadOk(t: Thread) {
    t.Running? ==> t.pos <= |t.batch| && (t.batch == [] ==> t.fOk)
  }

  predicate AllClean(threads: seq<Thread>) {
    forall i | 0 <= i < |threads| :: Clean(threads[i])
  }

  /** The three counters, exactly. */
  ghost predicate CountsOk(s: State) {
    && s.nTodo == |s.queue| + Sum(s.threads, InBatch)
    && s.nIdle == Sum(s.threads, Idle)
    && s.nTotal == Sum(s.threads, Counted)
  }

  /** No check is lost or duplicated: each added one is queued, in one batch, or finished. */
  ghost predicate Conserved(s: State) {
    multiset(s.added) == multiset(s.queue) + Batches(s.threads) + s.finished
  }

  /** The verdict so far, together with what is still open, decides whether all added checks hold. */
  predicate VerdictOk(s: State) {
    AllHold(s.added) <==> s.fAllOk && AllHold(s.queue) && AllClean(s.threads)
  }

  /** A sleeping master that nobody has notified still waits for something. */
  predicate MasterOk(s: State)
    requires |s.threads| > 0
  {
    && (s.threads[MASTER].Sleeping? ==> s.queue == [])
    && (s.threads[MASTER] == Sleeping(false) ==> s.nTodo > 0)
  }

  ghost predicate Inv(s: State) {
    && |s.threads| > 0
    && (forall i | 0 <= i < |s.threads| :: ThreadOk(s.threads[i]))
    && CountsOk(s) && Conserved(s) && VerdictOk(s) && MasterOk(s)
  }

  /** A queue with `n` threads (the master among them), none of which has entered yet. */
  function Init(nBatchSize: nat, n: nat): State
    requires n > 0
  {
    State(nBatchSize, [], 0, 0, true, 0, seq(n, _ => Outside), [], multiset{}, [])
  }

  lemma InitInv(nBatchSize: nat, n: nat)
    requires n > 0
    ensures Inv(Init(nBatchSize, n))
  {
    var s := Init(nBatchSize, n);
    SumZero(s.threads, InBatch);
    SumZero(s.threads, Idle);
    SumZero(s.threads, Counted);
    NoBatches(s.threads);
  }

  lemma {:induction false} NoBatches(threads: seq<Thread>)
    requires forall i | 0 <= i < |threads| :: InBatch(threads[i]) == 0
    ensures Batches(threads) == multiset{}
  {
    if threads != [] {
      NoBatches(threads[1..]);
    }
  }

  /** Replacing one thread, as it shows in the counters. */
  lemma Replace(threads: seq<Thread>, i: nat, t: Thread)
    requires i < |threads|
    ensures Sum(threads[i := t], InBatch) == Sum(threads, InBatch) - InBatch(threads[i]) + InBatch(t)
    ensures Sum(threads[i := t], Idle) == Sum(threads, Idle) - Idle(threads[i]) + Idle(t)
    ensures Sum(threads[i := t], Counted) == Sum(threads, Counted) - Counted(threads[i]) + Counted(t)
  {
    SumUpdate(threads, i, t, InBatch);
    SumUpdate(threads, i, t, Idle);
    SumUpdate(threads, i, t, Counted);
  }

  /** Replacing one thread, as it shows in the multiset of checks held. */
  lemma ReplaceBatch(threads: seq<Thread>, i: nat, t: Thread)
    requires i < |threads|
    ensures Batches(threads) == Batches(threads[i := Outside]) + BatchOf(threads[i])
    ensures Batches(threads[i := t]) == Batches(threads[i := Outside]) + BatchOf(t)
  {
    var us := threads[i := t];
    assert us[i := Outside] == threads[i := Outside] && us[i] == t;
    BatchesSplit(threads, i);
    BatchesSplit(us, i);
  }

  /** Notifying sleepers changes none of the sums. */
  lemma {:induction false} NotifySums(threads: seq<Thread>, after: seq<Thread>)
    requires |threads| == |after|
    requires forall i | 0 <= i < |threads| :: after[i] == threads[i] || (after[i].Sleeping? && threads[i].Sleeping?)
    ensures Sum(after, InBatch) == Sum(threads, InBatch)
    ensures Sum(after, Idle) == Sum(threads, Idle)
    ensures Sum(after, Counted) == Sum(threads, Counted)
    ensures Batches(after) == Batches(threads)
    ensures AllClean(after) <==> AllClean(threads)
  {
    if threads != [] {
      NotifySums(threads[1..], after[1..]);
    }
    assert forall i | 0 <= i < |threads| :: Clean(after[i]) == Clean(threads[i]);
  }

  lemma AllHoldConcat(a: seq<Check>, b: seq<Check>)
    ensures AllHold(a + b) <==> AllHold(a) && AllHold(b)
  {
    assert forall i | 0 <= i < |a| :: (a + b)[i] == a[i];
    assert forall i | 0 <= i < |b| :: (a + b)[|a| + i] == b[i];
  }

  lemma AllHoldMultiset(a: seq<Check>, b: seq<Check>)
    requires multiset(a) == multiset(b)
    ensures AllHold(a) <==> AllHold(b)
  {
    forall c ensures c in a <==> c in b {
      assert c in a <==> c in multiset(a);
      assert c in b <==> c in multiset(b);
    }
    assert AllHold(a) <==> forall c | c in a :: c.ok;
    assert AllHold(b) <==> forall c | c in b :: c.ok;
  }

  lemma AddInv(s: State, checks: seq<Check>, woken: set<nat>)
    requires Inv(s) && Enabled(s, Add(checks, woken))
    ensures Inv(AddStep(s, checks, woken))
  {
    NotifySums(s.threads, Notify(s.threads, woken));
    AllHoldConcat(s.added, checks);
    AllHoldConcat(s.queue, checks);
  }

  lemma StartInv(s: State, t: nat)
    requires Inv(s) && Enabled(s, Start(t))
    ensures Inv(StartStep(s, t))
  {
    var me, u := Running([], 0, true), StartStep(s, t);
    Replace(s.threads, t, me);
    assert CountsOk(u);
    ReplaceBatch(s.threads, t, me);
    assert Batches(u.threads) == Batches(s.threads);
    assert Conserved(u);
    CleanReplace(s.threads, t, me);
    assert VerdictOk(u);
  }

  lemma CleanReplace(threads: seq<Thread>, i: nat, t: Thread)
    requires i < |threads|
    ensures AllClean(threads) <==> AllClean(threads[i := Outside]) && Clean(threads[i])
    ensures AllClean(threads[i := t]) <==> AllClean(threads[i := Outside]) && Clean(t)
  {
    var ts, us := threads[i := Outside], threads[i := t];
    assert forall j | 0 <= j < |threads| && j != i :: threads[j] == ts[j] == us[j];
    assert ts[i] == Outside && us[i] == t;
    if AllClean(ts) && Clean(threads[i]) {
      forall j | 0 <= j < |threads| ensures Clean(threads[j]) { assert j != i ==> Clean(ts[j]); }
    }
    if AllClean(ts) && Clean(t) {
      forall j | 0 <= j < |us| ensures Clean(us[j]) { assert j != i ==> Clean(ts[j]); }
    }
    if AllClean(threads) {
      forall j | 0 <= j < |ts| ensures Clean(ts[j]) { assert j != i ==> Clean(threads[j]); }
    }
    if AllClean(us) {
      forall j | 0 <= j < |ts| ensures Clean(ts[j]) { assert j != i ==> Clean(us[j]); }
    }
  }

  lemma ExecuteInv(s: State, t: nat)
    requires Inv(s) && Enabled(s, Execute(t))
    ensures Inv(ExecuteStep(s, t))
  {
    var me, r := s.threads[t], ExecuteStep(s, t);
    assert CountsOk(r) by { Replace(s.threads, t, r.threads[t]); }
    assert Conserved(r) by { ReplaceBatch(s.threads, t, r.threads[t]); }
    assert VerdictOk(r) by {
      CleanReplace(s.threads, t, r.threads[t]);
      assert Clean(me) <==> Clean(r.threads[t]);
    }
  }

  /** The state in which thread `t` holds the lock: it owns no batch and does not sleep, but is counted. */
  ghost predicate Locked(s: State, t: nat) {
    t < |s.threads| && Inv(s.(threads := s.threads[t := Outside], nTotal := s.nTotal - 1))
  }

  lemma CleanUpLocked(s: State, t: nat)
    requires Inv(s) && Enabled(s, Lock(t))
    ensures Locked(CleanUp(s, t), t)
    ensures CleanUp(s, t).added == s.added && CleanUp(s, t).returned == s.returned && CleanUp(s, t).queue == s.queue
  {
    if s.threads[t].batch == [] {
      EnterLocked(s, t);
    } else {
      FinishLocked(s, t);
    }
  }

  lemma EnterLocked(s: State, t: nat)
    requires Inv(s) && t < |s.threads| && s.threads[t].Running? && s.threads[t].batch == []
    ensures Inv(s.(threads := s.threads[t := Outside]))
  {
    var l := s.(threads := s.threads[t := Outside]);
    assert CountsOk(l) by { Replace(s.threads, t, Outside); }
    assert Conserved(l) by { ReplaceBatch(s.threads, t, Outside); }
    assert VerdictOk(l) by { CleanReplace(s.threads, t, Outside); }
  }

  lemma FinishLocked(s: State, t: nat)
    requires Inv(s) && Enabled(s, Lock(t)) && s.threads[t].batch != []
    ensures Locked(CleanUp(s, t), t)
  {
    var me, ts := s.threads[t], s.threads[t := Outside];
    var nTodo := s.nTodo - |me.batch|;
    // the state in which the batch is accounted for but the master has not been notified yet
    var l := s.(fAllOk := s.fAllOk && me.fOk, nTodo := nTodo, nTotal := s.nTotal - 1, threads := ts,
                finished := s.finished + multiset(me.batch));
    assert CountsOk(l) by { Replace(s.threads, t, Outside); }
    assert Conserved(l) by {
      ReplaceBatch(s.threads, t, Outside);
      ToFinished(multiset(s.queue), Batches(ts), multiset(me.batch), s.finished);
    }
    assert VerdictOk(l) by { CleanReplace(s.threads, t, Outside); }
    assert nTodo >= 0 by { SumNonNegative(ts, InBatch); }
    var r := CleanUp(s, t);
    if nTodo == 0 && t != MASTER {
      NotifiedInv(l);
      assert r.threads[t := Outside] == NotifyMaster(ts);
      assert r.(threads := r.threads[t := Outside], nTotal := r.nTotal - 1) == l.(threads := NotifyMaster(ts));
    } else {
      assert r.(threads := r.threads[t := Outside], nTotal := r.nTotal - 1) == l;
    }
  }

  lemma NotifiedInv(l: State)
    requires |l.threads| > 0 && forall i | 0 <= i < |l.threads| :: ThreadOk(l.threads[i])
    requires CountsOk(l) && Conserved(l) && VerdictOk(l)
    requires l.threads[MASTER].Sleeping? ==> l.queue == []
    ensures Inv(l.(threads := NotifyMaster(l.threads)))
  {
    NotifySums(l.threads, NotifyMaster(l.threads));
  }

  lemma WakeLocked(s: State, t: nat)
    requires Inv(s) && Enabled(s, Wake(t))
    ensures Locked(WakeUp(s), t)
  {
    AwakeInv(s, t, s.(nIdle := s.nIdle - 1, threads := s.threads[t := Outside], nTotal := s.nTotal - 1));
  }

  lemma AwakeInv(s: State, t: nat, u: State)
    requires Inv(s) && Enabled(s, Wake(t))
    requires u == s.(nIdle := s.nIdle - 1, threads := s.threads[t := Outside], nTotal := s.nTotal - 1)
    ensures Inv(u)
  {
    Replace(s.threads, t, Outside);
    assert CountsOk(u);
    ReplaceBatch(s.threads, t, Outside);
    assert Batches(u.threads) == Batches(s.threads);
    assert Conserved(u);
    CleanReplace(s.threads, t, Outside);
    assert VerdictOk(u);
  }

  /** When the master returns, nothing is queued or in flight, every check was done, and the verdict is right. */
  lemma DecideReturns(s: State)
    requires Locked(s, MASTER) && s.queue == [] && s.nTodo == 0
    ensures s.fAllOk <==> AllHold(s.added)
    ensures multiset(s.added) == s.finished
    ensures forall i | 0 < i < |s.threads| :: InBatch(s.threads[i]) == 0
  {
    var ts := s.threads[MASTER := Outside];
    SumZero(ts, InBatch);
    NoBatches(ts);
    forall i | 0 <= i < |ts| ensures Clean(ts[i]) {
      assert ThreadOk(ts[i]) && InBatch(ts[i]) == 0;
    }
    forall i | 0 < i < |s.threads| ensures InBatch(s.threads[i]) == 0 {
      assert s.threads[i] == ts[i];
    }
  }

  lemma LockedCounts(s: State, t: nat)
    requires Locked(s, t)
    ensures s.nTotal + s.nIdle + 1 > 0
  {
    SumNonNegative(s.threads[t := Outside], Counted);
    SumNonNegative(s.threads[t := Outside], Idle);
  }

  lemma DecideInv(s: State, t: nat)
    requires Locked(s, t) && s.nTotal + s.nIdle + 1 > 0
    ensures Inv(Decide(s, t))
  {
    if s.queue != [] {
      TakeInv(s, t);
    } else if t == MASTER && s.nTodo == 0 {
      ReturnInv(s);
    } else {
      SleepInv(s, t);
    }
  }

  lemma ReturnInv(s: State)
    requires Locked(s, MASTER) && s.nTotal + s.nIdle + 1 > 0 && s.queue == [] && s.nTodo == 0
    ensures Inv(Decide(s, MASTER))
  {
    DecideReturns(s);
    var ts := s.threads[MASTER := Outside];
    forall i | 0 <= i < |ts| ensures InBatch(ts[i]) == 0 && Clean(ts[i]) {
      assert i > 0 ==> ts[i] == s.threads[i];
      assert ThreadOk(ts[i]);
    }
    assert Conserved(Decide(s, MASTER)) by { NoBatches(ts); }
  }

  lemma SleepInv(s: State, t: nat)
    requires Locked(s, t) && s.nTotal + s.nIdle + 1 > 0 && s.queue == [] && !(t == MASTER && s.nTodo == 0)
    ensures Inv(Decide(s, t))
  {
    var ts, r := s.threads[t := Outside], Decide(s, t);
    assert r.threads == ts[t := Sleeping(false)] && ts[t] == Outside;
    assert CountsOk(r) by { Replace(ts, t, Sleeping(false)); }
    assert Conserved(r) by { ReplaceBatch(ts, t, Sleeping(false)); }
    assert VerdictOk(r) by { CleanReplace(ts, t, Sleeping(false)); }
    assert MasterOk(r) by { SumNonNegative(ts, InBatch); }
  }

  lemma TakeInv(s: State, t: nat)
    requires Locked(s, t) && s.nTotal + s.nIdle + 1 > 0 && s.queue != []
    ensures Inv(Decide(s, t))
  {
    BatchSizeFits(s);
    var n := BatchSize(s);
    TakeBatchInv(s, t, Taken(s.queue, n), s.queue[..|s.queue| - n]);
  }

  lemma TakeBatchInv(s: State, t: nat, batch: seq<Check>, rest: seq<Check>)
    requires Locked(s, t) && s.queue != [] && batch != []
    requires |batch| + |rest| == |s.queue| && multiset(batch) + multiset(rest) == multiset(s.queue)
    ensures Inv(s.(queue := rest, threads := s.threads[t := Running(batch, 0, s.fAllOk)]))
  {
    var ts, me := s.threads[t := Outside], Running(batch, 0, s.fAllOk);
    var r := s.(queue := rest, threads := ts[t := me]);
    assert ts[t := me] == s.threads[t := me] && ts[t := Outside] == ts;
    assert CountsOk(r) by { Replace(ts, t, me); }
    assert Conserved(r) by {
      ReplaceBatch(ts, t, me);
      FromQueue(multiset(batch), multiset(rest), Batches(ts), s.finished);
    }
    assert VerdictOk(r) by {
      CleanReplace(ts, t, me);
      AllHoldTaken(s.queue, batch, rest);
    }
  }

  lemma FromQueue(batch: multiset<Check>, rest: multiset<Check>, held: multiset<Check>, finished: multiset<Check>)
    ensures rest + (held + batch) + finished == (batch + rest) + held + finished
  {
  }

  lemma ToFinished(queue: multiset<Check>, held: multiset<Check>, batch: multiset<Check>, finished: multiset<Check>)
    ensures queue + held + (finished + batch) == queue + (held + batch) + finished
  {
  }

  lemma AllHoldTaken(queue: seq<Check>, batch: seq<Check>, rest: seq<Check>)
    requires multiset(batch) + multiset(rest) == multiset(queue)
    ensures AllHold(queue) <==> AllHold(batch) && AllHold(rest)
  {
    AllHoldConcat(batch, rest);
    AllHoldMultiset(batch + rest, queue);
  }

  /** Every step of every thread keeps the invariant. */
  lemma NextInv(s: State, step: Step)
    requires Inv(s) && Enabled(s, step)
    ensures Inv(Next(s, step))
  {
    match step
    case Add(checks, woken) => AddInv(s, checks, woken);
    case Start(t) => StartInv(s, t);
    case Execute(t) => ExecuteInv(s, t);
    case Lock(t) =>
      CleanUpLocked(s, t);
      LockedCounts(CleanUp(s, t), t);
      DecideInv(CleanUp(s, t), t);
    case Wake(t) =>
      WakeLocked(s, t);
      LockedCounts(WakeUp(s), t);
      DecideInv(WakeUp(s), t);
  }

  // ----- What Wait returns, over whole runs -----

  /** Is this the step with which the master leaves `Wait`? */
  ghost predicate Returns(s: State, step: Step)
    requires Inv(s) && Enabled(s, step)
  {
    NextInv(s, step);
    !s.threads[MASTER].Outside? && Next(s, step).threads[MASTER].Outside?
  }

  /** A returning `Wait` reports exactly whether every check added since the last one holds. */
  lemma WaitVerdict(s: State, step: Step)
    requires Inv(s) && Enabled(s, step)
    ensures Returns(s, step) ==> Next(s, step).returned == s.returned + [AllHold(s.added)] && Next(s, step).added == []
    ensures !Returns(s, step) ==>
              Next(s, step).returned == s.returned &&
              Next(s, step).added == if step.Add? then s.added + step.checks else s.added
  {
    hide Inv, Locked;
    if step.Lock? {
      CleanUpLocked(s, step.t);
      DecideVerdict(CleanUp(s, step.t), step.t);
    } else if step.Wake? {
      WakeLocked(s, step.t);
      DecideVerdict(WakeUp(s), step.t);
    }
  }

  lemma DecideVerdict(s: State, t: nat)
    requires Locked(s, t)
    ensures s.nTotal + s.nIdle + 1 > 0
    ensures var r := Decide(s, t);
            if t == MASTER && r.threads[t].Outside? then r.returned == s.returned + [AllHold(s.added)] && r.added == []
            else
              && r.returned == s.returned && r.added == s.added
              && (t != MASTER ==> r.threads[MASTER] == s.threads[MASTER])
  {
    LockedCounts(s, t);
    if t == MASTER && s.queue == [] && s.nTodo == 0 {
      DecideReturns(s);
    }
  }

  ghost predicate Runs(s: State, steps: seq<Step>)
    requires Inv(s)
    decreases |steps|
  {
    steps == [] || (Enabled(s, steps[0]) && (NextInv(s, steps[0]); Runs(Next(s, steps[0]), steps[1..])))
  }

  ghost function After(s: State, steps: seq<Step>): State
    requires Inv(s) && Runs(s, steps)
    decreases |steps|
  {
    if steps == [] then s else NextInv(s, steps[0]); After(Next(s, steps[0]), steps[1..])
  }

  /** The reference: collect what is added and, whenever the master returns, judge the collection. */
  ghost function Verdicts(s: State, steps: seq<Step>, pending: seq<Check>): seq<bool>
    requires Inv(s) && Runs(s, steps)
    decreases |steps|
  {
    if steps == [] then []
    else
      NextInv(s, steps[0]);
      var rest := if steps[0].Add? then pending + steps[0].checks else pending;
      if Returns(s, steps[0]) then [AllHold(pending)] + Verdicts(Next(s, steps[0]), steps[1..], [])
      else Verdicts(Next(s, steps[0]), steps[1..], rest)
  }

  /** What one step adds to the results of `Wait`. */
  ghost function Verdict(s: State, step: Step): seq<bool>
    requires Inv(s) && Enabled(s, step)
  {
    if Returns(s, step) then [AllHold(s.added)] else []
  }

  lemma VerdictsStep(s: State, steps: seq<Step>) returns (n: State, v: seq<bool>)
    requires Inv(s) && Runs(s, steps) && steps != []
    ensures Inv(n) && Runs(n, steps[1..]) && After(s, steps) == After(n, steps[1..])
    ensures n.returned == s.returned + v
    ensures Verdicts(s, steps, s.added) == v + Verdicts(n, steps[1..], n.added)
  {
    NextInv(s, steps[0]);
    WaitVerdict(s, steps[0]);
    n, v := Next(s, steps[0]), Verdict(s, steps[0]);
  }

  /** For every interleaving of the master and any number of workers, the invariant holds in every state. */
  lemma {:induction false} RunInv(s: State, steps: seq<Step>)
    requires Inv(s) && Runs(s, steps)
    ensures Inv(After(s, steps))
    decreases |steps|
  {
    if steps != [] {
      NextInv(s, steps[0]);
      RunInv(Next(s, steps[0]), steps[1..]);
    }
  }

  lemma Assemble(all: seq<bool>, next: seq<bool>, before: seq<bool>, v: seq<bool>, rest: seq<bool>)
    requires all == next + rest && next == before + v
    ensures all == before + (v + rest)
  {
  }

  /** Over every run the results of `Wait` are, in order, whether all checks added before that `Wait` hold. */
  lemma {:induction false} RunVerdicts(s: State, steps: seq<Step>)
    requires Inv(s) && Runs(s, steps)
    ensures After(s, steps).returned == s.returned + Verdicts(s, steps, s.added)
    decreases |steps|
  {
    if steps != [] {
      var n, v := VerdictsStep(s, steps);
      RunVerdicts(n, steps[1..]);
      Assemble(After(s, steps).returned, n.returned, s.returned, v, Verdicts(n, steps[1..], n.added));
    }
  }

  // ----- Progress -----

  /** A step that does not depend on new work, new threads or a spurious wake-up. */
  predicate Productive(s: State, step: Step) {
    step.Lock? || step.Execute? || (step.Wake? && step.t < |s.threads| && s.threads[step.t] == Sleeping(true))
  }

  /** A master that sleeps and has not been notified waits for a batch some worker is still holding. */
  lemma SleepingMasterIsAwaited(s: State)
    requires Inv(s) && s.threads[MASTER] == Sleeping(false)
    ensures exists t :: 0 < t < |s.threads| && s.threads[t].Running? && s.threads[t].batch != []
  {
    SumZero(s.threads, InBatch);
  }

  /** No lost wake-up: while the master is inside `Wait`, some thread can make progress. */
  lemma Progress(s: State)
    requires Inv(s) && !s.threads[MASTER].Outside?
    ensures exists step :: Enabled(s, step) && Productive(s, step)
  {
    if s.threads[MASTER] == Sleeping(true) {
      assert Enabled(s, Wake(MASTER)) && Productive(s, Wake(MASTER));
    } else {
      var t: nat := MASTER;
      if s.threads[MASTER] == Sleeping(false) {
        SleepingMasterIsAwaited(s);
        t :| 0 < t < |s.threads| && s.threads[t].Running? && s.threads[t].batch != [];
      }
      if s.threads[t].pos < |s.threads[t].batch| {
        assert Enabled(s, Execute(t)) && Productive(s, Execute(t));
      } else {
        assert ThreadOk(s.threads[t]);
        assert Enabled(s, Lock(t)) && Productive(s, Lock(t));
      }
    }
  }

  function Potential(t: Thread): nat {
    match t
    case Outside => 0
    case Sleeping(notified) => if notified then 1 else 0
    case Running(batch, pos, _) => if pos <= |batch| then 2 + |batch| - pos else 2
  }

  ghost function Work(s: State): int { 3 * |s.queue| + Sum(s.threads, Potential) }

  /** Every productive step uses up work, so a `Wait` to which nothing is added comes to an end. */
  lemma ProductiveStepsEnd(s: State, step: Step)
    requires Inv(s) && Enabled(s, step) && Productive(s, step)
    ensures 0 <= Work(Next(s, step)) < Work(s)
  {
    var t, r := step.t, Next(s, step);
    SumNonNegative(r.threads, Potential);
    if step.Execute? {
      SumUpdate(s.threads, t, r.threads[t], Potential);
    } else if step.Wake? {
      WakeLocked(s, t);
      DecideWork(WakeUp(s), t);
    } else {
      LockWork(s, t);
    }
  }

  lemma LockWork(s: State, t: nat)
    requires Inv(s) && Enabled(s, Lock(t))
    ensures Work(Next(s, Lock(t))) < Work(s)
  {
    CleanUpLocked(s, t);
    var r := CleanUp(s, t);
    if r.threads != s.threads {
      SumUpdate(s.threads, MASTER, Sleeping(true), Potential);
    }
    assert r.threads[t] == s.threads[t] && Work(r) <= Work(s) + 1;
    DecideWork(r, t);
  }

  /** A run of productive steps is no longer than the work there was. */
  lemma {:induction false} ProductiveRunIsBounded(s: State, steps: seq<Step>)
    requires Inv(s) && Runs(s, steps) && ProductiveRun(s, steps)
    ensures |steps| <= Work(s)
    decreases |steps|
  {
    SumNonNegative(s.threads, Potential);
    if steps != [] {
      NextInv(s, steps[0]);
      ProductiveStepsEnd(s, steps[0]);
      ProductiveRunIsBounded(Next(s, steps[0]), steps[1..]);
    }
  }

  ghost predicate ProductiveRun(s: State, steps: seq<Step>)
    requires Inv(s) && Runs(s, steps)
    decreases |steps|
  {
    steps == [] || (Productive(s, steps[0]) && (NextInv(s, steps[0]); ProductiveRun(Next(s, steps[0]), steps[1..])))
  }

  /** The work that a step brings in: added checks with the threads they wake, and threads that start. */
  function Supply(step: Step, nThreads: nat): nat {
    match step
    case Add(checks, _) => 3 * |checks| + nThreads
    case Start(_) => 2
    case _ => 0
  }

  lemma {:induction false} SumRises(a: seq<Thread>, b: seq<Thread>, f: Thread -> nat)
    requires |a| == |b| && forall i | 0 <= i < |a| :: f(b[i]) <= f(a[i]) + 1
    ensures Sum(b, f) <= Sum(a, f) + |a|
  {
    if a != [] {
      forall i | 0 <= i < |a[1..]| ensures f(b[1..][i]) <= f(a[1..][i]) + 1 {
        assert f(b[i + 1]) <= f(a[i + 1]) + 1;
      }
      SumRises(a[1..], b[1..], f);
    }
  }

  /** Whatever the step is, work grows by no more than it brings in, and falls by one if it is productive. */
  lemma StepWork(s: State, step: Step)
    requires Inv(s) && Enabled(s, step)
    ensures Work(Next(s, step)) + (if Productive(s, step) then 1 else 0) <= Work(s) + Supply(step, |s.threads|)
    ensures |Next(s, step).threads| == |s.threads|
  {
    if Productive(s, step) {
      ProductiveStepsEnd(s, step);
    } else {
      match step
      case Add(checks, woken) =>
        SumRises(s.threads, Notify(s.threads, woken), Potential);
      case Start(t) =>
        SumUpdate(s.threads, t, Running([], 0, true), Potential);
      case Wake(t) =>
        WakeLocked(s, t);
        DecideWork(WakeUp(s), t);
      case _ =>
    }
  }

  /** How many steps of a run are productive. */
  ghost function ProductiveCount(s: State, steps: seq<Step>): nat
    requires Inv(s) && Runs(s, steps)
    decreases |steps|
  {
    if steps == [] then 0
    else
      NextInv(s, steps[0]);
      (if Productive(s, steps[0]) then 1 else 0) + ProductiveCount(Next(s, steps[0]), steps[1..])
  }

  function Supplies(steps: seq<Step>, nThreads: nat): nat {
    if steps == [] then 0 else Supply(steps[0], nThreads) + Supplies(steps[1..], nThreads)
  }

  /**
   In any run, with additions, late starts and spurious wake-ups between them, there are no more productive steps than
   there was work and than was brought in.
   */
  lemma {:induction false} ProductiveStepsAreBounded(s: State, steps: seq<Step>)
    requires Inv(s) && Runs(s, steps)
    ensures ProductiveCount(s, steps) <= Work(s) + Supplies(steps, |s.threads|)
    decreases |steps|
  {
    SumNonNegative(s.threads, Potential);
    if steps != [] {
      NextInv(s, steps[0]);
      StepWork(s, steps[0]);
      ProductiveStepsAreBounded(Next(s, steps[0]), steps[1..]);
    }
  }

  lemma DecideWork(s: State, t: nat)
    requires Locked(s, t)
    ensures s.nTotal + s.nIdle + 1 > 0
    ensures var r := Decide(s, t);
            Work(r) - Work(s) + Potential(s.threads[t]) <= 0
  {
    LockedCounts(s, t);
    var r := Decide(s, t);
    SumUpdate(s.threads, t, r.threads[t], Potential);
    if s.queue != [] {
      BatchSizeFits(s);
    }
  }
}
