/**
 The parallel check queue as a transition system: one master, any number of
 workers, and one transition per critical section or executed check.

 Each check added gets an identity, so that a session (the checks added between
 two returns of `Wait`) can be compared with the verdict `Wait` returns for it.
 */
module CheckQueue {
  import opened Numbers

  /**
   Where a thread is in `Loop`.  `AtLock` is before the lock at the top of the
   do-loop, with the size and result of the batch just executed (size 0 on the
   first iteration); `Locked` is inside a critical section, at the inner
   while loop; `Notified` has been woken but does not hold the lock yet.
   */
  datatype Thread =
    | Outside
    | AtLock(nNow: nat, fOk: bool)
    | Locked
    | Waiting
    | Notified
    | Working(batch: seq<nat>, done: nat, fOk: bool)

  /** What `Wait` returned, with the checks of the session and the results of those executed. */
  datatype Session = Session(verdict: bool, added: set<nat>, results: map<nat, bool>)

  /** Thread 0 is the master. */
  datatype State = State(
    queue: seq<nat>,
    threads: seq<Thread>,
    nIdle: int,
    nTotal: int,
    fAllOk: bool,
    nTodo: int,
    nBatchSize: nat,
    nextId: nat,
    added: set<nat>,
    results: map<nat, bool>,
    log: seq<Session>)

  function Start(workers: nat, nBatchSize: nat): State {
    State([], seq(workers + 1, _ => Outside), 0, 0, true, 0, nBatchSize, 0, {}, map[], [])
  }

  datatype Step =
    | Enter(i: nat)                        // a thread calls Loop
    | Lock(i: nat)                         // the critical section at the top of the do-loop
    | Wake(i: nat)                         // return from the condition wait, also spuriously
    | Exec(i: nat, result: bool)           // the next check of the batch
    | Finish(i: nat)                       // end of the batch
    | Add(count: nat, woken: nat)          // the master adds checks; one is announced to thread `woken`

  predicate Enabled(s: State, step: Step) {
    match step
    case Enter(i) => i < |s.threads| && s.threads[i].Outside?
    case Lock(i) => i < |s.threads| && s.threads[i].AtLock?
    case Wake(i) => i < |s.threads| && (s.threads[i].Waiting? || s.threads[i].Notified?)
    case Exec(i, _) => i < |s.threads| && s.threads[i].Working? && s.threads[i].done < |s.threads[i].batch|
    case Finish(i) => i < |s.threads| && s.threads[i].Working? && s.threads[i].done == |s.threads[i].batch|
    // only the master adds, and not while it waits; condWorker.notify_one picks a waiting worker if there is one
    case Add(count, woken) =>
      && |s.threads| > 0 && s.threads[0].Outside?
      && (count == 1 ==> (0 < woken < |s.threads| && s.threads[woken].Waiting?) ||
                         forall i :: 0 < i < |s.threads| ==> !s.threads[i].Waiting?)
  }

  function Woken(t: Thread): Thread {
    if t.Waiting? then Notified else t
  }

  function Reversed(q: seq<nat>): (r: seq<nat>) {
    if q == [] then [] else Reversed(q[1..]) + [q[0]]
  }

  /** How many checks a thread takes: at least one and never more than there are. */
  function BatchSize(s: State): (nNow: nat)
    requires s.queue != []
    ensures 1 <= nNow <= |s.queue|
  {
    var workers := s.nTotal + s.nIdle + 1;
    var share := if workers > 0 then DivAtMost(|s.queue|, workers); |s.queue| / workers else 0;
    var capped := if share < s.nBatchSize then share else s.nBatchSize;
    if capped > 1 then capped else 1
  }

  /** The clean-up after a batch, on getting the lock at the top of the do-loop. */
  function CleanUp(s: State, i: nat): State
    requires i < |s.threads| && s.threads[i].AtLock?
  {
    var t := s.threads[i];
    if t.nNow == 0 then s.(nTotal := s.nTotal + 1, threads := s.threads[i := Locked])
    else
      var nTodo := s.nTodo - t.nNow;
      var threads := if nTodo == 0 && i != 0 then s.threads[0 := Woken(s.threads[0])] else s.threads;
      s.(fAllOk := s.fAllOk && t.fOk, nTodo := nTodo, threads := threads[i := Locked])
  }

  /** Getting the lock back after a wait. */
  function EndWait(s: State, i: nat): State
    requires i < |s.threads|
  {
    s.(nIdle := s.nIdle - 1, threads := s.threads[i := Locked])
  }

  /** The inner while loop and what follows under the lock: return, wait, or take a batch off the back. */
  function TestQueue(s: State, i: nat): State
    requires i < |s.threads|
  {
    if s.queue == [] then
      if i == 0 && s.nTodo == 0 then
        s.(nTotal := s.nTotal - 1, threads := s.threads[i := Outside], fAllOk := true,
        added := {}, results := map[], log := s.log + [Session(s.fAllOk, s.added, s.results)])
      else
        s.(nIdle := s.nIdle + 1, threads := s.threads[i := Waiting])
    else
      var rest := |s.queue| - BatchSize(s);
      s.(queue := s.queue[..rest], threads := s.threads[i := Working(Reversed(s.queue[rest..]), 0, s.fAllOk)])
  }

  /** The next check of a batch is run unless a failure is known already. */
  function ExecNext(s: State, i: nat, result: bool): State
    requires i < |s.threads| && s.threads[i].Working? && s.threads[i].done < |s.threads[i].batch|
  {
    var t := s.threads[i];
    if t.fOk then
      s.(threads := s.threads[i := t.(done := t.done + 1, fOk := result)], results := s.results[t.batch[t.done] := result])
    else
      s.(threads := s.threads[i := t.(done := t.done + 1)])
  }

  /** condWorker.notify_one after one check, notify_all after several. */
  function WakeWorkers(ts: seq<Thread>, count: nat, woken: nat): seq<Thread> {
    if count == 1 && 0 < woken < |ts| then ts[woken := Woken(ts[woken])]
    else if count > 1 then seq(|ts|, k requires 0 <= k < |ts| => if k == 0 then ts[k] else Woken(ts[k]))
    else ts
  }

  function NewIds(first: nat, count: nat): seq<nat> {
    seq(count, k requires 0 <= k => first + k)
  }

  function AddChecks(s: State, count: nat, woken: nat): State {
    s.(queue := s.queue + NewIds(s.nextId, count), nTodo := s.nTodo + count,
    nextId := s.nextId + count, added := s.added + (set id | id in NewIds(s.nextId, count)),
    threads := WakeWorkers(s.threads, count, woken))
  }

  function Next(s: State, step: Step): State
    requires Enabled(s, step)
  {
    match step
    case Enter(i) => s.(threads := s.threads[i := AtLock(0, true)])
    case Lock(i) => TestQueue(CleanUp(s, i), i)
    case Wake(i) => TestQueue(EndWait(s, i), i)
    case Exec(i, result) => ExecNext(s, i, result)
    case Finish(i) => s.(threads := s.threads[i := AtLock(|s.threads[i].batch|, s.threads[i].fOk)])
    case Add(count, woken) => AddChecks(s, count, woken)
  }

  /** A behaviour of `workers` worker threads and the master, in any interleaving. */
  ghost predicate IsRun(workers: nat, nBatchSize: nat, states: seq<State>, steps: seq<Step>) {
    && |states| == |steps| + 1
    && states[0] == Start(workers, nBatchSize)
    && forall k :: 0 <= k < |steps| ==> Enabled(states[k], steps[k]) && states[k + 1] == Next(states[k], steps[k])
  }

  // --------------------------------------------------------------------- sums over threads

  /** Checks a thread has taken off the queue and not yet accounted for. */
  function Load(t: Thread): nat {
    match t
    case Working(batch, _, _) => |batch|
    case AtLock(nNow, _) => nNow
    case _ => 0
  }

  function IsIdle(t: Thread): nat {
    if t.Waiting? || t.Notified? then 1 else 0
  }

  function IsInside(t: Thread): nat {
    if t.Outside? || (t.AtLock? && t.nNow == 0) then 0 else 1
  }

  ghost function Sum(ts: seq<Thread>, f: Thread -> nat): nat {
    if ts == [] then 0 else f(ts[0]) + Sum(ts[1..], f)
  }

  lemma {:induction false} SumUpdate(ts: seq<Thread>, i: nat, t: Thread, f: Thread -> nat)
    requires i < |ts|
    ensures Sum(ts[i := t], f) == Sum(ts, f) - f(ts[i]) + f(t)
    ensures f(ts[i]) <= Sum(ts, f)
  {
    if i > 0 {
      SumUpdate(ts[1..], i - 1, t, f);
      assert ts[i := t][1..] == ts[1..][i - 1 := t];
    }
  }

  /** The checks a thread holds and has not looked at yet. */
  ghost function Held(t: Thread): multiset<nat> {
    if t.Working? && t.done <= |t.batch| then multiset(t.batch[t.done..]) else multiset{}
  }

  ghost function AllHeld(ts: seq<Thread>): multiset<nat> {
    if ts == [] then multiset{} else Held(ts[0]) + AllHeld(ts[1..])
  }

  lemma {:induction false} HeldUpdate(ts: seq<Thread>, i: nat, t: Thread)
    requires i < |ts|
    ensures AllHeld(ts[i := t]) == AllHeld(ts) - Held(ts[i]) + Held(t)
    ensures Held(ts[i]) <= AllHeld(ts)
  {
    hide Held;
    if i > 0 {
      HeldUpdate(ts[1..], i - 1, t);
      assert ts[i := t][1..] == ts[1..][i - 1 := t];
    }
  }

  lemma {:induction false} ReversedItems(q: seq<nat>)
    ensures multiset(Reversed(q)) == multiset(q) && |Reversed(q)| == |q|
  {
    if q != [] {
      ReversedItems(q[1..]);
      assert q == [q[0]] + q[1..];
    }
  }

  /** Waking threads changes neither what they hold nor how they are counted. */
  ghost predicate OnlyWoken(ts: seq<Thread>, ts': seq<Thread>) {
    |ts| == |ts'| && forall k :: 0 <= k < |ts| ==> ts'[k] == ts[k] || ts'[k] == Woken(ts[k])
  }

  lemma {:induction false} WokenSums(ts: seq<Thread>, ts': seq<Thread>)
    requires OnlyWoken(ts, ts')
    ensures Sum(ts', Load) == Sum(ts, Load) && Sum(ts', IsIdle) == Sum(ts, IsIdle) && Sum(ts', IsInside) == Sum(ts, IsInside)
    ensures AllHeld(ts') == AllHeld(ts)
  {
    if ts != [] {
      assert ts'[0] == ts[0] || ts'[0] == Woken(ts[0]);
      WokenSums(ts[1..], ts'[1..]);
    }
  }

  // ------------------------------------------------------------------------ the invariant

  ghost predicate ThreadOk(t: Thread) {
    match t
    case AtLock(nNow, fOk) => nNow == 0 ==> fOk
    case Working(batch, done, _) => 1 <= |batch| && done <= |batch|
    case _ => true
  }

  ghost predicate Failing(t: Thread) {
    (t.Working? || t.AtLock?) && !t.fOk
  }

  /** A failed check is known, to everyone or to the thread that ran it. */
  ghost predicate FailureKnown(s: State) {
    !s.fAllOk || exists k :: 0 <= k < |s.threads| && Failing(s.threads[k])
  }

  ghost predicate CheckFailed(s: State) {
    exists id :: id in s.results && !s.results[id]
  }

  /** Every check still to be looked at, queued or in a batch. */
  ghost function Pending(s: State): multiset<nat> {
    multiset(s.queue) + AllHeld(s.threads)
  }

  /**
   Checks are pending at most once, were added in this session, and are pending
   or have a result, unless a failure is known.
   */
  ghost predicate Accounted(pending: multiset<nat>, failureKnown: bool, results: map<nat, bool>, added: set<nat>, nextId: nat) {
    && (forall id <- pending :: pending[id] == 1 && id in added && id !in results)
    && results.Keys <= added
    && (forall id <- added :: id < nextId)
    && (!failureKnown ==> forall id <- added :: id in pending || id in results)
  }

  ghost predicate Counted(s: State) {
    && s.nTodo == |s.queue| + Sum(s.threads, Load)
    && s.nIdle == Sum(s.threads, IsIdle)
    && s.nTotal == Sum(s.threads, IsInside)
  }

  /** The verdict of a session tells whether all its checks were executed and succeeded. */
  ghost predicate Right(w: Session) {
    && w.results.Keys <= w.added
    && (w.verdict ==> forall id <- w.added :: id in w.results && w.results[id])
    && (!w.verdict ==> exists id :: id in w.results && !w.results[id])
  }

  ghost predicate Inv(s: State) {
    && |s.threads| > 0
    && (forall k :: 0 <= k < |s.threads| ==> ThreadOk(s.threads[k]))
    && Counted(s)
    && (FailureKnown(s) <==> CheckFailed(s))
    && Accounted(Pending(s), FailureKnown(s), s.results, s.added, s.nextId)
    && (s.threads[0].Waiting? ==> s.nTodo > 0 && s.queue == [])
    && (forall w <- s.log :: Right(w))
  }

  /** The effect of replacing one thread on all the sums. */
  lemma Replace(ts: seq<Thread>, i: nat, t: Thread)
    requires i < |ts|
    ensures Sum(ts[i := t], Load) == Sum(ts, Load) - Load(ts[i]) + Load(t) && Load(ts[i]) <= Sum(ts, Load)
    ensures Sum(ts[i := t], IsIdle) == Sum(ts, IsIdle) - IsIdle(ts[i]) + IsIdle(t)
    ensures Sum(ts[i := t], IsInside) == Sum(ts, IsInside) - IsInside(ts[i]) + IsInside(t)
    ensures AllHeld(ts[i := t]) == AllHeld(ts) - Held(ts[i]) + Held(t) && Held(ts[i]) <= AllHeld(ts)
  {
    SumUpdate(ts, i, t, Load);
    SumUpdate(ts, i, t, IsIdle);
    SumUpdate(ts, i, t, IsInside);
    HeldUpdate(ts, i, t);
  }

  lemma EnterKeeps(s: State, i: nat)
    requires Inv(s) && Enabled(s, Enter(i))
    ensures Inv(Next(s, Enter(i)))
  {
    hide Sum, AllHeld, Accounted, Right;
    var s' := Next(s, Enter(i));
    Replace(s.threads, i, AtLock(0, true));
    FailureUpdate(s, s', i);
    assert Pending(s') == Pending(s);
  }

  lemma FinishKeeps(s: State, i: nat)
    requires Inv(s) && Enabled(s, Finish(i))
    ensures Inv(Next(s, Finish(i)))
  {
    hide Sum, AllHeld, Accounted, Right;
    var s' := Next(s, Finish(i));
    Replace(s.threads, i, AtLock(|s.threads[i].batch|, s.threads[i].fOk));
    FailureUpdate(s, s', i);
    assert s.threads[i].batch[s.threads[i].done..] == [];
    assert Pending(s') == Pending(s);
  }

  lemma EndWaitKeeps(s: State, i: nat)
    requires Inv(s) && Enabled(s, Wake(i))
    ensures Inv(EndWait(s, i))
  {
    hide Sum, AllHeld, Accounted, Right;
    var s' := EndWait(s, i);
    Replace(s.threads, i, Locked);
    FailureUpdate(s, s', i);
    assert Pending(s') == Pending(s);
  }

  /** Whether a failure is known, after replacing one thread. */
  lemma FailureUpdate(s: State, s': State, i: nat)
    requires i < |s.threads| == |s'.threads|
    requires forall k :: 0 <= k < |s.threads| && k != i ==> Failing(s'.threads[k]) == Failing(s.threads[k])
    ensures !Failing(s.threads[i]) && s.fAllOk == s'.fAllOk ==>
              (FailureKnown(s') <==> FailureKnown(s) || Failing(s'.threads[i]))
    ensures s'.fAllOk == (s.fAllOk && !Failing(s.threads[i])) && !Failing(s'.threads[i]) ==> (FailureKnown(s') <==> FailureKnown(s))
    ensures s.fAllOk == s'.fAllOk && Failing(s'.threads[i]) == Failing(s.threads[i]) ==> (FailureKnown(s') <==> FailureKnown(s))
  {
    hide Failing;
  }

  /** The master may be woken at any time. */
  lemma WakeMasterKeeps(s: State)
    requires Inv(s)
    ensures Inv(s.(threads := s.threads[0 := Woken(s.threads[0])]))
  {
    hide Sum, AllHeld, Accounted, Right;
    var s' := s.(threads := s.threads[0 := Woken(s.threads[0])]);
    WokenSums(s.threads, s'.threads);
    FailureUpdate(s, s', 0);
    assert Pending(s') == Pending(s);
  }

  /** A thread that holds nothing before and after leaves what is pending alone. */
  lemma PendingUpdate(s: State, s': State, i: nat, t: Thread)
    requires i < |s.threads| && Held(t) == Held(s.threads[i]) && s'.queue == s.queue && s'.threads == s.threads[i := t]
    ensures Pending(s') == Pending(s)
  {
    hide AllHeld, Held;
    HeldUpdate(s.threads, i, t);
  }

  /** Accounting for a batch, when the master need not be woken. */
  lemma SettleKeeps(s: State, i: nat)
    requires Inv(s) && Enabled(s, Lock(i)) && s.threads[i].nNow > 0
    requires s.nTodo == s.threads[i].nNow && i != 0 ==> !s.threads[0].Waiting?
    ensures var t := s.threads[i];
            Inv(s.(fAllOk := s.fAllOk && t.fOk, nTodo := s.nTodo - t.nNow, threads := s.threads[i := Locked]))
  {
    hide Sum, AllHeld, Accounted, Right, Pending;
    var t := s.threads[i];
    var s' := s.(fAllOk := s.fAllOk && t.fOk, nTodo := s.nTodo - t.nNow, threads := s.threads[i := Locked]);
    Replace(s.threads, i, Locked);
    FailureUpdate(s, s', i);
    PendingUpdate(s, s', i, Locked);
  }

  lemma FirstLockKeeps(s: State, i: nat)
    requires Inv(s) && Enabled(s, Lock(i)) && s.threads[i].nNow == 0
    ensures Inv(s.(nTotal := s.nTotal + 1, threads := s.threads[i := Locked]))
  {
    hide Sum, AllHeld, Accounted, Right;
    var s' := s.(nTotal := s.nTotal + 1, threads := s.threads[i := Locked]);
    Replace(s.threads, i, Locked);
    FailureUpdate(s, s', i);
    assert Pending(s') == Pending(s);
  }

  lemma CleanUpKeeps(s: State, i: nat)
    requires Inv(s) && Enabled(s, Lock(i))
    ensures Inv(CleanUp(s, i))
  {
    hide Inv;
    var t := s.threads[i];
    if t.nNow == 0 {
      FirstLockKeeps(s, i);
    } else if s.nTodo == t.nNow && i != 0 {
      WakeMasterKeeps(s);
      SettleKeeps(s.(threads := s.threads[0 := Woken(s.threads[0])]), i);
    } else {
      SettleKeeps(s, i);
    }
  }

  lemma ExecKeeps(s: State, i: nat, result: bool)
    requires Inv(s) && Enabled(s, Exec(i, result))
    ensures Inv(ExecNext(s, i, result))
  {
    if s.threads[i].fOk {
      ResultKeeps(s, i, result);
    } else {
      SkipKeeps(s, i, result);
    }
  }

  lemma HeldNext(t: Thread, fOk: bool)
    requires t.Working? && t.done < |t.batch|
    ensures Held(t) == multiset{t.batch[t.done]} + Held(t.(done := t.done + 1, fOk := fOk))
  {
    assert t.batch[t.done..] == [t.batch[t.done]] + t.batch[t.done + 1..];
  }

  lemma TakeOne(q: multiset<nat>, all: multiset<nat>, h: multiset<nat>, h': multiset<nat>, id: nat)
    requires h == multiset{id} + h' && h <= all
    ensures id in q + all && q + (all - h + h') == q + all - multiset{id}
  {
    assert h[id] >= 1;
  }

  /** Looking at the next check of a batch takes it, once, out of what is pending. */
  lemma NextIsPending(s: State, i: nat, result: bool)
    requires Enabled(s, Exec(i, result))
    ensures var t, s' := s.threads[i], ExecNext(s, i, result);
            t.batch[t.done] in Pending(s) && Pending(s') == Pending(s) - multiset{t.batch[t.done]}
  {
    hide AllHeld, Held;
    var t, t' := s.threads[i], ExecNext(s, i, result).threads[i];
    HeldNext(t, t'.fOk);
    HeldUpdate(s.threads, i, t');
    TakeOne(multiset(s.queue), AllHeld(s.threads), Held(t), Held(t'), t.batch[t.done]);
  }

  lemma SkipKeeps(s: State, i: nat, result: bool)
    requires Inv(s) && Enabled(s, Exec(i, result)) && !s.threads[i].fOk
    ensures Inv(ExecNext(s, i, result))
  {
    hide Sum, AllHeld, Accounted, Right, Pending;
    var t, s' := s.threads[i], ExecNext(s, i, result);
    Replace(s.threads, i, s'.threads[i]);
    FailureUpdate(s, s', i);
    NextIsPending(s, i, result);
    assert Failing(t);
    ExecAccounts(Pending(s), true, true, s.results, s.added, s.nextId, t.batch[t.done], result);
  }

  lemma ResultKeeps(s: State, i: nat, result: bool)
    requires Inv(s) && Enabled(s, Exec(i, result)) && s.threads[i].fOk
    ensures Inv(ExecNext(s, i, result))
  {
    hide Sum, AllHeld, Accounted, Right, Pending;
    var t, s' := s.threads[i], ExecNext(s, i, result);
    var id := t.batch[t.done];
    Replace(s.threads, i, s'.threads[i]);
    FailureUpdate(s, s', i);
    NextIsPending(s, i, result);
    ExecAccounts(Pending(s), FailureKnown(s), FailureKnown(s'), s.results, s.added, s.nextId, id, result);
    assert CheckFailed(s') <==> CheckFailed(s) || !result by {
      assert s'.results[id] == result;
      assert forall x <- s.results :: x in s'.results && s'.results[x] == s.results[x];
    }
  }

  /** A looked-at check is no longer pending: it has a result, or was skipped because of a known failure. */
  lemma ExecAccounts(pending: multiset<nat>, known: bool, known': bool, results: map<nat, bool>, added: set<nat>, nextId: nat, id: nat, result: bool)
    requires Accounted(pending, known, results, added, nextId) && id in pending && (known ==> known')
    ensures id !in results
    ensures Accounted(pending - multiset{id}, true, results, added, nextId)
    ensures Accounted(pending - multiset{id}, known', results[id := result], added, nextId)
  {
  }

  lemma AddKeeps(s: State, count: nat, woken: nat)
    requires Inv(s) && Enabled(s, Add(count, woken))
    ensures Inv(AddChecks(s, count, woken))
  {
    hide Sum, AllHeld, Accounted, Right;
    var s' := AddChecks(s, count, woken);
    WokenSums(s.threads, s'.threads);
    AddAccounts(Pending(s), FailureKnown(s), s.results, s.added, s.nextId, count);
    assert Pending(s') == Pending(s) + multiset(NewIds(s.nextId, count));
    assert FailureKnown(s') <==> FailureKnown(s);
  }

  lemma {:induction false} NewIdsOnce(first: nat, count: nat)
    ensures forall id :: multiset(NewIds(first, count))[id] == if first <= id < first + count then 1 else 0
  {
    if count > 0 {
      NewIdsOnce(first, count - 1);
      assert NewIds(first, count) == NewIds(first, count - 1) + [first + count - 1];
    }
  }

  lemma AddAccounts(pending: multiset<nat>, known: bool, results: map<nat, bool>, added: set<nat>, nextId: nat, count: nat)
    requires Accounted(pending, known, results, added, nextId)
    ensures var ids := NewIds(nextId, count);
            Accounted(pending + multiset(ids), known, results, added + (set id | id in ids), nextId + count)
  {
    NewIdsOnce(nextId, count);
    assert forall id <- multiset(NewIds(nextId, count)) :: nextId <= id < nextId + count;
  }

  lemma WaitKeeps(s: State, i: nat)
    requires Inv(s) && i < |s.threads| && s.threads[i].Locked? && s.queue == [] && !(i == 0 && s.nTodo == 0)
    ensures Inv(TestQueue(s, i))
  {
    hide Sum, AllHeld, Accounted, Right;
    var s' := TestQueue(s, i);
    Replace(s.threads, i, Waiting);
    FailureUpdate(s, s', i);
    assert Pending(s') == Pending(s);
  }

  /** The checks taken from the queue are now held by the thread. */
  lemma TakeMovesChecks(s: State, i: nat)
    requires Inv(s) && i < |s.threads| && s.threads[i].Locked? && s.queue != []
    ensures Pending(TestQueue(s, i)) == Pending(s)
  {
    hide Sum, AllHeld, Accounted, Right, BatchSize, Inv;
    var rest := |s.queue| - BatchSize(s);
    var batch := Reversed(s.queue[rest..]);
    ReversedItems(s.queue[rest..]);
    Replace(s.threads, i, Working(batch, 0, s.fAllOk));
    assert s.queue == s.queue[..rest] + s.queue[rest..];
    assert batch[0..] == batch;
  }

  lemma TakeKeeps(s: State, i: nat)
    requires Inv(s) && i < |s.threads| && s.threads[i].Locked? && s.queue != []
    ensures Inv(TestQueue(s, i))
  {
    hide Sum, AllHeld, Accounted, Right, BatchSize, Pending;
    var s' := TestQueue(s, i);
    var rest := |s.queue| - BatchSize(s);
    var batch := Reversed(s.queue[rest..]);
    ReversedItems(s.queue[rest..]);
    Replace(s.threads, i, Working(batch, 0, s.fAllOk));
    FailureUpdate(s, s', i);
    TakeMovesChecks(s, i);
  }

  /** If no thread has a load, nothing is in flight and no thread knows of a failure. */
  lemma {:induction false} NothingInFlight(ts: seq<Thread>)
    requires Sum(ts, Load) == 0 && forall k :: 0 <= k < |ts| ==> ThreadOk(ts[k])
    ensures AllHeld(ts) == multiset{} && forall k :: 0 <= k < |ts| ==> !Failing(ts[k])
  {
    if ts != [] {
      NothingInFlight(ts[1..]);
      assert forall k :: 1 <= k < |ts| ==> ts[k] == ts[1..][k - 1];
    }
  }

  /** When the master returns, its verdict is right, and nothing is left for the next session. */
  lemma ReturnKeeps(s: State)
    requires Inv(s) && s.threads[0].Locked? && s.queue == [] && s.nTodo == 0
    ensures Inv(TestQueue(s, 0))
    ensures Right(Session(s.fAllOk, s.added, s.results)) && Pending(s) == multiset{}
  {
    hide Sum, AllHeld;
    var s' := TestQueue(s, 0);
    NothingInFlight(s.threads);
    Replace(s.threads, 0, Outside);
    assert Pending(s) == multiset{} && Pending(s') == multiset{};
    assert !FailureKnown(s');
    assert FailureKnown(s) <==> !s.fAllOk;
  }

  lemma TestQueueKeeps(s: State, i: nat)
    requires Inv(s) && i < |s.threads| && s.threads[i].Locked?
    ensures Inv(TestQueue(s, i))
  {
    hide Inv;
    if s.queue != [] {
      TakeKeeps(s, i);
    } else if i == 0 && s.nTodo == 0 {
      ReturnKeeps(s);
    } else {
      WaitKeeps(s, i);
    }
  }

  lemma StepKeeps(s: State, step: Step)
    requires Inv(s) && Enabled(s, step)
    ensures Inv(Next(s, step))
  {
    hide Inv;
    match step
    case Enter(i) => EnterKeeps(s, i);
    case Lock(i) =>
      CleanUpKeeps(s, i);
      TestQueueKeeps(CleanUp(s, i), i);
    case Wake(i) =>
      EndWaitKeeps(s, i);
      TestQueueKeeps(EndWait(s, i), i);
    case Exec(i, result) => ExecKeeps(s, i, result);
    case Finish(i) => FinishKeeps(s, i);
    case Add(count, woken) => AddKeeps(s, count, woken);
  }

  lemma {:induction false} StartIsInv(workers: nat, nBatchSize: nat)
    ensures Inv(Start(workers, nBatchSize))
  {
    NoLoad(workers + 1);
  }

  lemma {:induction false} NoLoad(n: nat)
    ensures var ts := seq(n, _ => Outside);
            Sum(ts, Load) == 0 && Sum(ts, IsIdle) == 0 && Sum(ts, IsInside) == 0 && AllHeld(ts) == multiset{}
  {
    if n > 0 {
      NoLoad(n - 1);
      assert seq(n, _ => Outside)[1..] == seq(n - 1, _ => Outside);
    }
  }

  // ------------------------------------------------------------------------ main results

  /** Every state of every run satisfies the invariant. */
  lemma {:induction false} RunsKeepInv(workers: nat, nBatchSize: nat, states: seq<State>, steps: seq<Step>, k: nat)
    requires IsRun(workers, nBatchSize, states, steps) && k < |states|
    ensures Inv(states[k])
  {
    if k == 0 {
      StartIsInv(workers, nBatchSize);
    } else {
      RunsKeepInv(workers, nBatchSize, states, steps, k - 1);
      StepKeeps(states[k - 1], steps[k - 1]);
    }
  }

  /** In every run, each return of `Wait` tells whether all checks of its session were executed and succeeded. */
  lemma VerdictsAreRight(workers: nat, nBatchSize: nat, states: seq<State>, steps: seq<Step>, k: nat)
    requires IsRun(workers, nBatchSize, states, steps) && k < |states|
    ensures forall w <- states[k].log ::
              && (w.verdict <==> forall id <- w.added :: id in w.results && w.results[id])
              && (w.verdict || exists id :: id in w.added && id in w.results && !w.results[id])
  {
    RunsKeepInv(workers, nBatchSize, states, steps, k);
    forall w <- states[k].log
      ensures w.verdict <==> forall id <- w.added :: id in w.results && w.results[id]
      ensures w.verdict || exists id :: id in w.added && id in w.results && !w.results[id]
    {
      assert Right(w);
    }
  }

  /**
   In every run, the counters of unfinished checks, of idle threads and of threads
   inside the loop are exact, no check is pending twice or after its execution,
   and none goes missing before one has failed.
   */
  lemma ChecksAreConserved(workers: nat, nBatchSize: nat, states: seq<State>, steps: seq<Step>, k: nat)
    requires IsRun(workers, nBatchSize, states, steps) && k < |states|
    ensures var s := states[k];
            && s.nTodo == |s.queue| + Sum(s.threads, Load)
            && s.nIdle == Sum(s.threads, IsIdle) && s.nTotal == Sum(s.threads, IsInside)
            && (forall id <- Pending(s) :: Pending(s)[id] == 1 && id in s.added && id !in s.results)
            && (!FailureKnown(s) ==> forall id <- s.added :: id in Pending(s) || id in s.results)
  {
    RunsKeepInv(workers, nBatchSize, states, steps, k);
  }

  lemma {:induction false} SomeLoad(ts: seq<Thread>) returns (i: nat)
    requires Sum(ts, Load) > 0
    ensures i < |ts| && Load(ts[i]) > 0
  {
    if Load(ts[0]) > 0 {
      i := 0;
    } else {
      i := SomeLoad(ts[1..]);
      i := i + 1;
    }
  }

  /** A waiting master that nobody has notified is waiting for a worker that holds an unfinished batch. */
  lemma WaitingMasterIsOwed(workers: nat, nBatchSize: nat, states: seq<State>, steps: seq<Step>, k: nat) returns (i: nat)
    requires IsRun(workers, nBatchSize, states, steps) && k < |states| && |states[k].threads| > 0
    requires states[k].threads[0].Waiting?
    ensures states[k].nTodo > 0 && 0 < i < |states[k].threads| && Load(states[k].threads[i]) > 0
  {
    RunsKeepInv(workers, nBatchSize, states, steps, k);
    i := SomeLoad(states[k].threads);
  }

  /** A wake-up that finds nothing to do. */
  predicate Spurious(s: State, step: Step)
    requires Enabled(s, step)
  {
    step.Wake? && s.threads[step.i].Waiting? && s.queue == []
  }

  predicate Productive(s: State, step: Step)
    requires Enabled(s, step)
  {
    !step.Enter? && !step.Add? && !Spurious(s, step)
  }

  /** Between transitions nobody holds the lock. */
  ghost predicate LockFree(s: State) {
    forall k :: 0 <= k < |s.threads| ==> !s.threads[k].Locked?
  }

  lemma {:induction false} RunsAreLockFree(workers: nat, nBatchSize: nat, states: seq<State>, steps: seq<Step>, k: nat)
    requires IsRun(workers, nBatchSize, states, steps) && k < |states|
    ensures LockFree(states[k])
  {
    if k > 0 {
      RunsAreLockFree(workers, nBatchSize, states, steps, k - 1);
      assert Enabled(states[k - 1], steps[k - 1]) && states[k] == Next(states[k - 1], steps[k - 1]);
      UnlockedAgain(states[k - 1], steps[k - 1]);
    }
  }

  lemma UnlockedAgain(s: State, step: Step)
    requires LockFree(s) && Enabled(s, step)
    ensures LockFree(Next(s, step))
  {
    hide BatchSize, Reversed;
  }

  /** While the master is in `Wait`, some productive step is possible: there is no deadlock. */
  lemma MasterCanProgress(workers: nat, nBatchSize: nat, states: seq<State>, steps: seq<Step>, k: nat) returns (step: Step)
    requires IsRun(workers, nBatchSize, states, steps) && k < |states|
    requires |states[k].threads| > 0 && !states[k].threads[0].Outside?
    ensures Enabled(states[k], step) && Productive(states[k], step)
  {
    RunsKeepInv(workers, nBatchSize, states, steps, k);
    RunsAreLockFree(workers, nBatchSize, states, steps, k);
    var ts := states[k].threads;
    var i: nat := 0;
    if ts[0].Waiting? {
      i := SomeLoad(ts);
    }
    step := match ts[i]
      case AtLock(_, _) => Lock(i)
      case Working(batch, done, _) => if done < |batch| then Exec(i, true) else Finish(i)
      case _ => Wake(i);
  }

  /** Upper bound on the steps a thread can still take by itself. */
  function Weight(t: Thread): nat {
    match t
    case Notified => 1
    case AtLock(_, _) => 2
    case Working(batch, done, _) => if done <= |batch| then 3 + |batch| - done else 3
    case _ => 0
  }

  ghost function Potential(s: State): nat {
    5 * |s.queue| + Sum(s.threads, Weight)
  }

  /** Handling the lock uses up the thread's own weight, and a batch taken weighs less than it did in the queue. */
  lemma TestQueuePotential(s: State, i: nat)
    requires i < |s.threads| && s.threads[i].Locked?
    ensures Potential(TestQueue(s, i)) <= Potential(s)
    ensures s.queue != [] ==> Potential(TestQueue(s, i)) < Potential(s)
  {
    hide BatchSize;
    if s.queue != [] {
      var rest := |s.queue| - BatchSize(s);
      ReversedItems(s.queue[rest..]);
    }
    SumUpdate(s.threads, i, TestQueue(s, i).threads[i], Weight);
  }

  lemma LockPotential(s: State, i: nat)
    requires Enabled(s, Lock(i))
    ensures Potential(CleanUp(s, i)) < Potential(s)
  {
    hide Sum;
    var ts := s.threads[0 := Woken(s.threads[0])];
    SumUpdate(s.threads, 0, Woken(s.threads[0]), Weight);
    SumUpdate(ts, i, Locked, Weight);
    SumUpdate(s.threads, i, Locked, Weight);
  }

  /** Every productive step lowers the potential; a spurious wake-up leaves it. */
  lemma StepsUsePotential(s: State, step: Step)
    requires Enabled(s, step) && !step.Enter? && !step.Add?
    ensures Potential(Next(s, step)) <= Potential(s) - if Spurious(s, step) then 0 else 1
  {
    hide Sum, TestQueue, CleanUp;
    match step
    case Lock(i) =>
      CleanUpLocks(s, i);
      LockPotential(s, i);
      TestQueuePotential(CleanUp(s, i), i);
    case Wake(i) =>
      SumUpdate(s.threads, i, Locked, Weight);
      TestQueuePotential(EndWait(s, i), i);
    case Exec(i, result) => SumUpdate(s.threads, i, Next(s, step).threads[i], Weight);
    case Finish(i) => SumUpdate(s.threads, i, Next(s, step).threads[i], Weight);
  }

  lemma CleanUpLocks(s: State, i: nat)
    requires Enabled(s, Lock(i))
    ensures |CleanUp(s, i).threads| == |s.threads| && CleanUp(s, i).threads[i].Locked?
  {
  }

  ghost function ProductiveCount(states: seq<State>, steps: seq<Step>): nat
    requires |states| == |steps| + 1
    requires forall k :: 0 <= k < |steps| ==> Enabled(states[k], steps[k])
  {
    if steps == [] then 0
    else (if Productive(states[0], steps[0]) then 1 else 0) + ProductiveCount(states[1..], steps[1..])
  }

  /**
   Between two calls of `Add`, and with no thread starting, the threads take only
   boundedly many productive steps.  As one is always possible until the master
   returns, `Wait` returns.
   */
  lemma {:induction false} WaitIsBounded(states: seq<State>, steps: seq<Step>)
    requires |states| == |steps| + 1 && Inv(states[0])
    requires forall k :: 0 <= k < |steps| ==>
                           && Enabled(states[k], steps[k]) && !steps[k].Enter? && !steps[k].Add?
                           && states[k + 1] == Next(states[k], steps[k])
    ensures ProductiveCount(states, steps) + Potential(states[|steps|]) <= Potential(states[0])
  {
    hide Inv, Next, Enabled, Potential;
    if steps != [] {
      assert Enabled(states[0], steps[0]) && states[1] == Next(states[0], steps[0]);
      StepKeeps(states[0], steps[0]);
      StepsUsePotential(states[0], steps[0]);
      forall k | 0 <= k < |steps[1..]|
        ensures Enabled(states[1..][k], steps[1..][k]) && !steps[1..][k].Enter? && !steps[1..][k].Add?
        ensures states[1..][k + 1] == Next(states[1..][k], steps[1..][k])
      {
        assert Enabled(states[k + 1], steps[k + 1]);
      }
      WaitIsBounded(states[1..], steps[1..]);
    }
  }
}
