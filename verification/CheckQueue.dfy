/**
The parallel check queue (src/checkqueue.h) as a state machine: one master (thread 0) and any number
of workers, one event per critical section or check execution. Which waiting worker a notify_one
reaches, and how threads interleave, is part of the event sequence; spurious wakeups are allowed.
*/
module CheckQueue {
  import opened Numbers
  import opened Wrappers

  /** A verification job together with what running it returns. */
  datatype Check = Check(id: nat, ok: bool)

  /** Where a thread stands in Loop. */
  datatype Thread =
    | Outside                                            // not in Loop
    | Ready(nNow: nat, fOk: bool)                        // about to lock; nNow == 0 on the first pass
    | Locked                                             // inside the critical section
    | Waiting(notified: bool)                            // blocked in cond.wait
    | Working(rest: seq<Check>, nNow: nat, fOk: bool)    // executing its batch

  /** The checks added since the last Wait, and what became of those taken from the queue. */
  datatype History = History(added: multiset<Check>, ran: multiset<Check>, skipped: multiset<Check>)

  datatype State = State(
    queue: seq<Check>, threads: seq<Thread>, nIdle: int, nTotal: int, fAllOk: bool, nTodo: int,
    fQuit: bool, nBatchSize: nat, hist: History)

  datatype Event =
    | Add(checks: seq<Check>, woken: nat)   // master; `woken` is the worker a notify_one reaches
    | Enter(who: nat)                       // call Loop
    | Lock(who: nat)                        // top of the do loop
    | Wake(who: nat)                        // return from cond.wait, notified or not
    | Work(who: nat)                        // execute the next check, or finish the batch

  function Initial(workers: nat, nBatchSize: nat, fQuit: bool): State {
    State([], seq(workers + 1, _ => Outside), 0, 0, true, 0, fQuit, nBatchSize, NoHistory)
  }

  const NoHistory := History(multiset{}, multiset{}, multiset{})

  // ---------------------------------------------------------------- steps

  function Notify(t: Thread): Thread {
    if t.Waiting? then Waiting(true) else t
  }

  /** notify_one on condWorker reaches one waiting worker if there is any. */
  function NotifyWorkers(threads: seq<Thread>, count: nat, woken: nat): (r: seq<Thread>)
    ensures |r| == |threads|
  {
    seq(|threads|, i requires 0 <= i < |threads| =>
      if i > 0 && (count > 1 || (count == 1 && i == woken)) then Notify(threads[i]) else threads[i])
  }

  /** Add: append the batch, count it, wake workers. */
  function DoAdd(s: State, checks: seq<Check>, woken: nat): State {
    s.(queue := s.queue + checks, nTodo := s.nTodo + |checks|,
       threads := NotifyWorkers(s.threads, |checks|, woken),
       hist := s.hist.(added := s.hist.added + multiset(checks)))
  }

  /** Take the lock and account for the batch just finished, or for having joined. */
  function Account(s: State, i: nat): State
    requires i < |s.threads| && s.threads[i].Ready?
  {
    var t := s.threads[i];
    if t.nNow == 0 then
      s.(nTotal := s.nTotal + 1, threads := s.threads[i := Locked])
    else
      var s := s.(fAllOk := s.fAllOk && t.fOk, nTodo := s.nTodo - t.nNow, threads := s.threads[i := Locked]);
      if s.nTodo == 0 && i != 0 then NotifyMaster(s) else s
  }

  function NotifyMaster(s: State): State
    requires |s.threads| > 0
  {
    s.(threads := s.threads[0 := Notify(s.threads[0])])
  }

  function WakeUp(s: State, i: nat): State
    requires i < |s.threads|
  {
    s.(nIdle := s.nIdle - 1, threads := s.threads[i := Locked])
  }

  /** How many checks to take now. */
  function BatchSize(s: State): nat
    requires s.nTotal + s.nIdle + 1 > 0
  {
    var share := |s.queue| / (s.nTotal + s.nIdle + 1);
    var capped := if s.nBatchSize < share then s.nBatchSize else share;
    if capped < 1 then 1 else capped
  }

  /** An equal share if the idle threads join in, rounded down, but at least one and at most nBatchSize. */
  lemma BatchIsShare(s: State)
    requires s.nTotal + s.nIdle + 1 > 0
    ensures var n, d := BatchSize(s), s.nTotal + s.nIdle + 1;
      && n >= 1 && (n > 1 ==> n <= s.nBatchSize && n * d <= |s.queue|)
      && (n < s.nBatchSize ==> (n + 1) * d > |s.queue|)
  {
    var n, d := BatchSize(s), s.nTotal + s.nIdle + 1;
    var share := |s.queue| / d;
    DivBounds(|s.queue|, d);
    if n <= share { MulMonotone(n, share, d); }
    if share <= n { MulMonotone(share + 1, n + 1, d); }
  }

  /** The batch is popped off the back of the queue. */
  function PopBack(q: seq<Check>, n: nat): seq<Check>
    requires n <= |q|
  {
    seq(n, j requires 0 <= j < n => q[|q| - 1 - j])
  }

  /** With the lock held: return, wait, or take a batch. The second part is the value returned. */
  function Decide(s: State, i: nat): (State, Option<bool>)
    requires i < |s.threads| && s.nTotal + s.nIdle + 1 > 0
  {
    if s.queue == [] then
      if (i == 0 || s.fQuit) && s.nTodo == 0 then
        (s.(nTotal := s.nTotal - 1, threads := s.threads[i := Outside],
            fAllOk := i == 0 || s.fAllOk, hist := if i == 0 then NoHistory else s.hist), Some(s.fAllOk))
      else
        (s.(nIdle := s.nIdle + 1, threads := s.threads[i := Waiting(false)]), None)
    else
      var n := BatchSize(s);
      BatchFits(s);
      (s.(queue := s.queue[..|s.queue| - n],
          threads := s.threads[i := Working(PopBack(s.queue, n), n, s.fAllOk)]), None)
  }

  /** Execute one check of the batch unless an earlier one failed; an empty batch goes back to the lock. */
  function DoWork(s: State, i: nat): State
    requires i < |s.threads| && s.threads[i].Working?
  {
    var t := s.threads[i];
    if t.rest == [] then s.(threads := s.threads[i := Ready(t.nNow, t.fOk)])
    else
      var c := t.rest[0];
      var done := multiset{c};
      if t.fOk then
        s.(threads := s.threads[i := Working(t.rest[1..], t.nNow, c.ok)],
           hist := s.hist.(ran := s.hist.ran + done))
      else
        s.(threads := s.threads[i := Working(t.rest[1..], t.nNow, false)],
           hist := s.hist.(skipped := s.hist.skipped + done))
  }

  /** notify_one reaches a worker that sleeps and was not notified before, if there is one. */
  predicate Reaches(threads: seq<Thread>, woken: nat) {
    (exists i :: 0 < i < |threads| && threads[i] == Waiting(false)) ==>
      0 < woken < |threads| && threads[woken] == Waiting(false)
  }

  predicate Enabled(s: State, e: Event) {
    match e
    case Add(checks, woken) => |s.threads| > 0 && s.threads[0].Outside? && (|checks| == 1 ==> Reaches(s.threads, woken))
    case Enter(i) => i < |s.threads| && s.threads[i].Outside?
    case Lock(i) => i < |s.threads| && s.threads[i].Ready?
    case Wake(i) => i < |s.threads| && s.threads[i].Waiting?
    case Work(i) => i < |s.threads| && s.threads[i].Working?
  }

  ghost function Step(s: State, e: Event): (State, Option<bool>)
    requires Inv(s) && Enabled(s, e)
  {
    match e
    case Add(checks, woken) => (DoAdd(s, checks, woken), None)
    case Enter(i) => (s.(threads := s.threads[i := Ready(0, true)]), None)
    case Lock(i) => AccountKeeps(s, i); Decide(Account(s, i), i)
    case Wake(i) => WakeKeeps(s, i); Decide(WakeUp(s, i), i)
    case Work(i) => (DoWork(s, i), None)
  }

  // ---------------------------------------------------------------- sums over threads

  function Sum(ts: seq<Thread>, f: Thread -> nat): nat {
    if ts == [] then 0 else f(ts[0]) + Sum(ts[1..], f)
  }

  lemma {:induction false} SumPut(ts: seq<Thread>, i: nat, t: Thread, f: Thread -> nat)
    requires i < |ts|
    ensures Sum(ts[i := t], f) + f(ts[i]) == Sum(ts, f) + f(t)
    ensures f(ts[i]) <= Sum(ts, f)
  {
    if i == 0 {
      assert ts[0 := t][1..] == ts[1..];
    } else {
      SumPut(ts[1..], i - 1, t, f);
      assert ts[i := t][1..] == ts[1..][i - 1 := t];
    }
  }

  lemma {:induction false} SumSame(ts: seq<Thread>, us: seq<Thread>, f: Thread -> nat)
    requires |ts| == |us| && forall i :: 0 <= i < |ts| ==> f(ts[i]) == f(us[i])
    ensures Sum(ts, f) == Sum(us, f)
  {
    if ts != [] { SumSame(ts[1..], us[1..], f); }
  }

  lemma {:induction false} SumZero(ts: seq<Thread>, f: Thread -> nat)
    ensures Sum(ts, f) == 0 <==> forall i :: 0 <= i < |ts| ==> f(ts[i]) == 0
  {
    if ts != [] {
      SumZero(ts[1..], f);
      assert forall i :: 0 < i < |ts| ==> ts[i] == ts[1..][i - 1];
    }
  }

  function Pending(ts: seq<Thread>): multiset<Check> {
    if ts == [] then multiset{} else Left(ts[0]) + Pending(ts[1..])
  }

  /** The checks a thread holds and has not dealt with. */
  function Left(t: Thread): multiset<Check> {
    if t.Working? then multiset(t.rest) else multiset{}
  }

  lemma {:induction false} PendingPut(ts: seq<Thread>, i: nat, t: Thread)
    requires i < |ts|
    ensures Left(ts[i]) <= Pending(ts)
    ensures Pending(ts[i := t]) == Pending(ts) - Left(ts[i]) + Left(t)
  {
    hide Left;
    var tail := Pending(ts[1..]);
    if i == 0 {
      assert ts[0 := t][1..] == ts[1..];
      assert (Left(ts[0]) + tail) - Left(ts[0]) + Left(t) == Left(t) + tail;
    } else {
      PendingPut(ts[1..], i - 1, t);
      assert ts[i := t][1..] == ts[1..][i - 1 := t];
      SwapInside(Left(ts[0]), tail, Left(ts[i]), Left(t));
    }
  }

  lemma SwapInside(a: multiset<Check>, p: multiset<Check>, l: multiset<Check>, m: multiset<Check>)
    requires l <= p
    ensures l <= a + p && a + (p - l + m) == (a + p) - l + m
  {
  }

  /** Moving one check from a thread's batch to the executed, or to the skipped, ones. */
  lemma MoveOne(q: multiset<Check>, p: multiset<Check>, l: multiset<Check>, m: multiset<Check>,
                c: Check, h: History, bad: bool)
    requires l <= p && l == multiset{c} + m && Balanced(q, p, h, bad)
    ensures Balanced(q, p - l + m, h.(ran := h.ran + multiset{c}), bad || !c.ok)
    ensures bad ==> Balanced(q, p - l + m, h.(skipped := h.skipped + multiset{c}), bad)
  {
    FailedPlus(h.ran, c);
    hide Failed;
    var p' := p - l + m;
    assert p == p' + multiset{c};
  }

  lemma BalancedAdd(q: multiset<Check>, p: multiset<Check>, c: multiset<Check>, h: History, bad: bool)
    requires Balanced(q, p, h, bad)
    ensures Balanced(q + c, p, h.(added := h.added + c), bad)
  {
    hide Failed;
  }

  lemma BalancedTake(q: multiset<Check>, p: multiset<Check>, c: multiset<Check>, h: History, bad: bool)
    requires Balanced(q + c, p, h, bad)
    ensures Balanced(q, p + c, h, bad)
  {
    hide Failed;
  }

  lemma {:induction false} PendingSame(ts: seq<Thread>, us: seq<Thread>)
    requires |ts| == |us| && forall i :: 0 <= i < |ts| ==> Left(ts[i]) == Left(us[i])
    ensures Pending(ts) == Pending(us)
  {
    if ts != [] { PendingSame(ts[1..], us[1..]); }
  }

  lemma {:induction false} PendingNone(ts: seq<Thread>)
    requires forall i :: 0 <= i < |ts| ==> Left(ts[i]) == multiset{}
    ensures Pending(ts) == multiset{}
  {
    if ts != [] { PendingNone(ts[1..]); }
  }

  // ---------------------------------------------------------------- invariant

  /** The batch a thread has taken and not yet accounted for. */
  function InFlight(t: Thread): nat {
    match t
    case Ready(n, _) => n
    case Working(_, n, _) => n
    case _ => 0
  }

  function Counted(t: Thread): nat {
    if t.Outside? || (t.Ready? && t.nNow == 0) then 0 else 1
  }

  function Idle(t: Thread): nat {
    if t.Waiting? then 1 else 0
  }

  /** Whether the batch a thread holds has already failed. */
  function Bad(t: Thread): nat {
    match t
    case Ready(n, ok) => if n > 0 && !ok then 1 else 0
    case Working(_, _, ok) => if ok then 0 else 1
    case _ => 0
  }

  predicate AnyBad(s: State) {
    !s.fAllOk || Sum(s.threads, Bad) > 0
  }

  ghost predicate Failed(ran: multiset<Check>) {
    exists c :: c in ran && !c.ok
  }

  /** Counters are exact: nTodo counts queued and in-flight checks, nTotal and nIdle the threads. */
  predicate Counts(s: State) {
    && s.nTodo == |s.queue| + Sum(s.threads, InFlight)
    && s.nTotal == Sum(s.threads, Counted)
    && s.nIdle == Sum(s.threads, Idle)
    && forall i :: 0 <= i < |s.threads| && s.threads[i].Working? ==> s.threads[i].nNow > 0
  }

  /** Every added check is queued, held, executed or skipped; a failure is remembered; only failures cause skips. */
  ghost predicate Books(s: State) {
    Balanced(multiset(s.queue), Pending(s.threads), s.hist, AnyBad(s))
  }

  ghost predicate Balanced(queued: multiset<Check>, held: multiset<Check>, h: History, bad: bool) {
    && h.added == queued + held + h.ran + h.skipped
    && (bad <==> Failed(h.ran))
    && (h.skipped != multiset{} ==> bad)
  }

  /** A master that sleeps without having been notified still has work to wait for. */
  predicate MasterSleepsSafely(s: State) {
    |s.threads| > 0 && (s.threads[0] == Waiting(false) ==> s.queue == [] && s.nTodo > 0)
  }

  ghost predicate Inv(s: State) {
    Counts(s) && Books(s) && MasterSleepsSafely(s)
  }

  lemma InitialHolds(workers: nat, nBatchSize: nat, fQuit: bool)
    ensures Inv(Initial(workers, nBatchSize, fQuit))
  {
    var s := Initial(workers, nBatchSize, fQuit);
    SumZero(s.threads, InFlight);
    SumZero(s.threads, Counted);
    SumZero(s.threads, Idle);
    SumZero(s.threads, Bad);
    PendingNone(s.threads);
  }

  // ---------------------------------------------------------------- each part of a step

  /** Replacing one thread moves the sums by that thread's share. */
  lemma PutThread(ts: seq<Thread>, i: nat, t: Thread)
    requires i < |ts|
    ensures Sum(ts[i := t], InFlight) == Sum(ts, InFlight) - InFlight(ts[i]) + InFlight(t)
    ensures Sum(ts[i := t], Counted) == Sum(ts, Counted) - Counted(ts[i]) + Counted(t)
    ensures Sum(ts[i := t], Idle) == Sum(ts, Idle) - Idle(ts[i]) + Idle(t)
    ensures Sum(ts[i := t], Bad) == Sum(ts, Bad) - Bad(ts[i]) + Bad(t)
    ensures Bad(ts[i]) <= Sum(ts, Bad)
    ensures Left(ts[i]) == Left(t) ==> Pending(ts[i := t]) == Pending(ts)
  {
    SumPut(ts, i, t, InFlight);
    SumPut(ts, i, t, Counted);
    SumPut(ts, i, t, Idle);
    SumPut(ts, i, t, Bad);
    PendingPut(ts, i, t);
  }

  predicate SameButNotified(t: Thread, u: Thread) {
    u == t || (t.Waiting? && u.Waiting?)
  }

  lemma NotifiedSums(ts: seq<Thread>, count: nat, woken: nat)
    ensures var us := NotifyWorkers(ts, count, woken);
      && Sum(us, InFlight) == Sum(ts, InFlight) && Sum(us, Counted) == Sum(ts, Counted)
      && Sum(us, Idle) == Sum(ts, Idle) && Sum(us, Bad) == Sum(ts, Bad) && Pending(us) == Pending(ts)
      && (forall i :: 0 <= i < |ts| ==> SameButNotified(ts[i], us[i])) && (ts != [] ==> us[0] == ts[0])
  {
    hide Sum, Pending;
    var us := NotifyWorkers(ts, count, woken);
    assert forall i :: 0 <= i < |ts| ==> SameButNotified(ts[i], us[i]);
    SumSame(ts, us, InFlight);
    SumSame(ts, us, Counted);
    SumSame(ts, us, Idle);
    SumSame(ts, us, Bad);
    PendingSame(ts, us);
  }

  lemma AddKeeps(s: State, checks: seq<Check>, woken: nat)
    requires Inv(s) && s.threads[0].Outside?
    ensures Inv(DoAdd(s, checks, woken))
  {
    hide Sum, Pending, Balanced, NotifyWorkers;
    NotifiedSums(s.threads, |checks|, woken);
    assert multiset(s.queue + checks) == multiset(s.queue) + multiset(checks);
    BalancedAdd(multiset(s.queue), Pending(s.threads), multiset(checks), s.hist, AnyBad(s));
  }

  lemma EnterKeeps(s: State, i: nat)
    requires Inv(s) && i < |s.threads| && s.threads[i].Outside?
    ensures Inv(s.(threads := s.threads[i := Ready(0, true)]))
  {
    hide Sum, Pending, Balanced;
    PutThread(s.threads, i, Ready(0, true));
  }

  lemma NotifyKeeps(s: State)
    requires Counts(s) && Books(s) && |s.threads| > 0
    ensures Inv(NotifyMaster(s))
  {
    hide Sum, Pending, Balanced;
    PutThread(s.threads, 0, Notify(s.threads[0]));
  }

  lemma AccountKeeps(s: State, i: nat)
    requires Inv(s) && i < |s.threads| && s.threads[i].Ready?
    ensures Inv(Account(s, i)) && |Account(s, i).threads| == |s.threads| && Account(s, i).threads[i] == Locked
    ensures Account(s, i).nTotal + Account(s, i).nIdle + 1 > 0
  {
    hide Sum, Pending, Balanced;
    PutThread(s.threads, i, Locked);
    var t := s.threads[i];
    if t.nNow > 0 {
      var s1 := s.(fAllOk := s.fAllOk && t.fOk, nTodo := s.nTodo - t.nNow, threads := s.threads[i := Locked]);
      assert Counts(s1) && Books(s1);
      if s1.nTodo == 0 && i != 0 { NotifyKeeps(s1); }
    }
  }

  lemma WakeKeeps(s: State, i: nat)
    requires Inv(s) && i < |s.threads| && s.threads[i].Waiting?
    ensures Inv(WakeUp(s, i)) && WakeUp(s, i).threads[i] == Locked
    ensures WakeUp(s, i).nTotal + WakeUp(s, i).nIdle + 1 > 0
  {
    hide Sum, Pending, Balanced;
    PutThread(s.threads, i, Locked);
  }

  lemma {:induction false} PopBackAll(q: seq<Check>, n: nat)
    requires n <= |q|
    ensures multiset(q) == multiset(q[..|q| - n]) + multiset(PopBack(q, n))
  {
    if n > 0 {
      var k := |q| - n;
      PopBackAll(q, n - 1);
      assert PopBack(q, n) == PopBack(q, n - 1) + [q[k]];
      assert q[..k + 1] == q[..k] + [q[k]];
    } else {
      assert q[..|q|] == q;
    }
  }

  lemma BatchFits(s: State)
    requires s.nTotal + s.nIdle + 1 > 0 && s.queue != []
    ensures 1 <= BatchSize(s) <= |s.queue|
  {
    var d := s.nTotal + s.nIdle + 1;
    assert |s.queue| / d <= |s.queue|;
  }

  /** With nothing left to do, no thread holds a batch. */
  lemma AllAccounted(s: State)
    requires Counts(s) && s.queue == [] && s.nTodo == 0
    ensures forall j :: 0 <= j < |s.threads| ==> InFlight(s.threads[j]) == 0
    ensures Pending(s.threads) == multiset{} && Sum(s.threads, Bad) == 0
  {
    SumZero(s.threads, InFlight);
    PendingNone(s.threads);
    SumZero(s.threads, Bad);
  }

  lemma NothingBalanced()
    ensures Balanced(multiset{}, multiset{}, NoHistory, false)
  {
  }

  lemma ReturnKeeps(s: State, i: nat)
    requires Inv(s) && i < |s.threads| && s.threads[i] == Locked
    requires s.queue == [] && s.nTodo == 0 && s.nTotal + s.nIdle + 1 > 0 && (i == 0 || s.fQuit)
    ensures Inv(Decide(s, i).0)
  {
    hide Sum, Pending, Balanced;
    AllAccounted(s);
    PutThread(s.threads, i, Outside);
    NothingBalanced();
  }

  lemma SleepKeeps(s: State, i: nat)
    requires Inv(s) && i < |s.threads| && s.threads[i] == Locked
    requires s.queue == [] && (s.nTodo != 0 || !(i == 0 || s.fQuit)) && s.nTotal + s.nIdle + 1 > 0
    ensures Inv(Decide(s, i).0)
  {
    hide Sum, Pending, Balanced;
    PutThread(s.threads, i, Waiting(false));
  }

  lemma TakeKeeps(s: State, i: nat)
    requires Inv(s) && i < |s.threads| && s.threads[i] == Locked
    requires s.queue != [] && s.nTotal + s.nIdle + 1 > 0
    ensures Inv(Decide(s, i).0)
  {
    hide Sum, Pending, PopBack, BatchSize, Balanced;
    BatchFits(s);
    var n := BatchSize(s);
    var t := Working(PopBack(s.queue, n), n, s.fAllOk);
    PopBackAll(s.queue, n);
    PutThread(s.threads, i, t);
    TakenPending(s.threads, i, t);
    BalancedTake(multiset(s.queue[..|s.queue| - n]), Pending(s.threads), multiset(t.rest), s.hist, AnyBad(s));
  }

  lemma TakenPending(ts: seq<Thread>, i: nat, t: Thread)
    requires i < |ts| && ts[i] == Locked && t.Working?
    ensures Pending(ts[i := t]) == Pending(ts) + multiset(t.rest)
  {
    PendingPut(ts, i, t);
  }

  lemma DecideKeeps(s: State, i: nat)
    requires Inv(s) && i < |s.threads| && s.threads[i] == Locked && s.nTotal + s.nIdle + 1 > 0
    ensures Inv(Decide(s, i).0)
  {
    hide *;
    if s.queue != [] { TakeKeeps(s, i); }
    else if (i == 0 || s.fQuit) && s.nTodo == 0 { ReturnKeeps(s, i); }
    else { SleepKeeps(s, i); }
  }

  lemma LeftPop(t: Thread, ok: bool)
    requires t.Working? && t.rest != []
    ensures Left(t) == multiset{t.rest[0]} + Left(Working(t.rest[1..], t.nNow, ok))
  {
    assert t.rest == [t.rest[0]] + t.rest[1..];
  }

  lemma WorkOneKeeps(s: State, i: nat, ok: bool, h: History)
    requires Inv(s) && i < |s.threads| && s.threads[i].Working? && s.threads[i].rest != []
    requires var t, c := s.threads[i], multiset{s.threads[i].rest[0]};
      if t.fOk then ok == t.rest[0].ok && h == s.hist.(ran := s.hist.ran + c)
      else !ok && h == s.hist.(skipped := s.hist.skipped + c)
    ensures var t := s.threads[i];
      Inv(s.(threads := s.threads[i := Working(t.rest[1..], t.nNow, ok)], hist := h))
  {
    hide Sum, Pending, Balanced, Left;
    var t := s.threads[i];
    var u := Working(t.rest[1..], t.nNow, ok);
    LeftPop(t, ok);
    PutThread(s.threads, i, u);
    PendingPut(s.threads, i, u);
    MoveOne(multiset(s.queue), Pending(s.threads), Left(t), Left(u), t.rest[0], s.hist, AnyBad(s));
  }

  lemma WorkDoneKeeps(s: State, i: nat)
    requires Inv(s) && i < |s.threads| && s.threads[i].Working? && s.threads[i].rest == []
    ensures Inv(s.(threads := s.threads[i := Ready(s.threads[i].nNow, s.threads[i].fOk)]))
  {
    hide Sum, Pending, Balanced;
    PutThread(s.threads, i, Ready(s.threads[i].nNow, s.threads[i].fOk));
  }

  lemma WorkKeeps(s: State, i: nat)
    requires Inv(s) && i < |s.threads| && s.threads[i].Working?
    ensures Inv(DoWork(s, i))
  {
    hide Inv;
    var t := s.threads[i];
    if t.rest != [] {
      WorkOneKeeps(s, i, t.fOk && t.rest[0].ok, DoWork(s, i).hist);
    } else {
      WorkDoneKeeps(s, i);
    }
  }

  lemma FailedPlus(ran: multiset<Check>, c: Check)
    ensures Failed(ran + multiset{c}) <==> Failed(ran) || !c.ok
  {
    if !c.ok { assert c in ran + multiset{c}; }
    if d :| d in ran && !d.ok { assert d in ran + multiset{c}; }
  }

  /** Every event keeps the invariant. */
  lemma StepKeeps(s: State, e: Event)
    requires Inv(s) && Enabled(s, e)
    ensures Inv(Step(s, e).0)
  {
    match e
    case Add(checks, woken) => AddKeeps(s, checks, woken);
    case Enter(i) => EnterKeeps(s, i);
    case Lock(i) => AccountKeeps(s, i); DecideKeeps(Account(s, i), i);
    case Wake(i) => WakeKeeps(s, i); DecideKeeps(WakeUp(s, i), i);
    case Work(i) => WorkKeeps(s, i);
  }

  // ---------------------------------------------------------------- whole runs

  /** Between events nobody is inside the critical section. */
  predicate Settled(s: State) {
    forall i :: 0 <= i < |s.threads| ==> s.threads[i] != Locked
  }

  lemma StepSettles(s: State, e: Event)
    requires Inv(s) && Settled(s) && Enabled(s, e)
    ensures Settled(Step(s, e).0) && |Step(s, e).0.threads| == |s.threads|
  {
    hide Inv, BatchSize, PopBack;
  }

  ghost predicate Legal(s: State, es: seq<Event>)
    requires Inv(s)
    decreases |es|
  {
    es != [] ==> Enabled(s, es[0]) && (StepKeeps(s, es[0]); Legal(Step(s, es[0]).0, es[1..]))
  }

  ghost function Run(s: State, es: seq<Event>): State
    requires Inv(s) && Legal(s, es)
    decreases |es|
  {
    if es == [] then s else
      StepKeeps(s, es[0]);
      Run(Step(s, es[0]).0, es[1..])
  }

  /** Every state of every interleaving satisfies the invariant. */
  lemma {:induction false} RunKeeps(s: State, es: seq<Event>)
    requires Inv(s) && Settled(s) && Legal(s, es)
    ensures Inv(Run(s, es)) && Settled(Run(s, es)) && |Run(s, es).threads| == |s.threads|
    decreases |es|
  {
    hide Inv, Step;
    if es != [] {
      StepKeeps(s, es[0]);
      StepSettles(s, es[0]);
      RunKeeps(Step(s, es[0]).0, es[1..]);
    }
  }

  /** The counters of any reachable state are exact: nTodo counts queued plus in-flight checks. */
  lemma ReachableCounts(workers: nat, nBatchSize: nat, fQuit: bool, es: seq<Event>)
    requires (InitialHolds(workers, nBatchSize, fQuit); Legal(Initial(workers, nBatchSize, fQuit), es))
    ensures (InitialHolds(workers, nBatchSize, fQuit);
      var s := Run(Initial(workers, nBatchSize, fQuit), es);
      && s.nTodo == |s.queue| + Sum(s.threads, InFlight)
      && s.nTotal == Sum(s.threads, Counted) && s.nIdle == Sum(s.threads, Idle))
  {
    InitialHolds(workers, nBatchSize, fQuit);
    RunKeeps(Initial(workers, nBatchSize, fQuit), es);
  }

  /**
  Wait's answer: when the master's call returns, it returns true exactly when every check added since
  the previous Wait succeeds; then every one of them was executed, and otherwise one was executed and failed.
  */
  lemma WaitAnswer(s: State, e: Event)
    requires Inv(s) && Enabled(s, e) && (e == Lock(0) || e == Wake(0))
    requires Step(s, e).1.Some?
    ensures var answer := Step(s, e).1.value;
      && (answer <==> forall c :: c in s.hist.added ==> c.ok)
      && (answer ==> s.hist.ran == s.hist.added)
      && (!answer ==> exists c :: c in s.hist.ran && c in s.hist.added && !c.ok)
  {
    var s1 := if e == Lock(0) then Account(s, 0) else WakeUp(s, 0);
    if e == Lock(0) { AccountKeeps(s, 0); } else { WakeKeeps(s, 0); }
    assert Step(s, e) == Decide(s1, 0);
    assert s1.queue == [] && s1.nTodo == 0 && s1.hist == s.hist;
    AllAccounted(s1);
    hide Sum, Pending, Counts;
    var h := s.hist;
    assert h.added == h.ran + h.skipped;
    if !s1.fAllOk {
      var c :| c in h.ran && !c.ok;
      assert c in h.added;
    } else {
      assert h.skipped == multiset{};
    }
  }

  /** No lost wakeup: while the master sleeps un-notified, some worker holds a batch it has yet to account for. */
  lemma NoLostWakeup(s: State)
    requires Inv(s) && s.threads[0] == Waiting(false)
    ensures exists w :: 0 < w < |s.threads| && InFlight(s.threads[w]) > 0
  {
    SumZero(s.threads, InFlight);
    var w :| 0 <= w < |s.threads| && InFlight(s.threads[w]) != 0;
  }

  // ---------------------------------------------------------------- workers are called and dismissed

  /** As long as checks are queued, not all workers sleep without having been called. */
  ghost predicate Alert(s: State) {
    |s.threads| > 1 && s.queue != [] ==> exists i :: 0 < i < |s.threads| && s.threads[i] != Waiting(false)
  }

  lemma AddAlerts(s: State, checks: seq<Check>, woken: nat)
    requires Alert(s) && Enabled(s, Add(checks, woken))
    ensures Alert(DoAdd(s, checks, woken))
  {
    var s' := DoAdd(s, checks, woken);
    if |s.threads| > 1 && s'.queue != [] {
      if i :| 0 < i < |s.threads| && s.threads[i] != Waiting(false) {
        assert s'.threads[i] != Waiting(false);
      } else {
        assert s.threads[1] == Waiting(false);
        var i := if |checks| == 1 then woken else 1;
        assert s'.threads[i] == Waiting(true);
      }
    }
  }

  /** One thread that does not fall asleep while checks are queued cannot change this. */
  lemma OneAlerts(s: State, s': State, i: nat)
    requires Alert(s) && i < |s.threads| == |s'.threads| && s'.threads == s.threads[i := s'.threads[i]]
    requires s'.queue != [] ==> s.queue != [] && s'.threads[i] != Waiting(false)
    ensures Alert(s')
  {
    if |s'.threads| > 1 && s'.queue != [] {
      var k :| 0 < k < |s.threads| && s.threads[k] != Waiting(false);
      assert s'.threads[if i == 0 then k else i] != Waiting(false);
    }
  }

  lemma NotifyAlerts(s: State)
    requires Alert(s) && |s.threads| > 0
    ensures Alert(NotifyMaster(s))
  {
    OneAlerts(s, NotifyMaster(s), 0);
  }

  lemma AccountAlerts(s: State, i: nat)
    requires Alert(s) && i < |s.threads| && s.threads[i].Ready?
    ensures Alert(Account(s, i))
  {
    var t := s.threads[i];
    var s1 := s.(fAllOk := s.fAllOk && t.fOk, nTodo := s.nTodo - t.nNow, threads := s.threads[i := Locked]);
    OneAlerts(s, s1, i);
    if t.nNow == 0 { OneAlerts(s, Account(s, i), i); } else { NotifyAlerts(s1); }
  }

  lemma DecideAlerts(s: State, i: nat)
    requires Alert(s) && i < |s.threads| && s.nTotal + s.nIdle + 1 > 0
    ensures Alert(Decide(s, i).0)
  {
    hide BatchSize, PopBack, Alert;
    if s.queue != [] { BatchFits(s); }
    OneAlerts(s, Decide(s, i).0, i);
  }

  lemma StepAlerts(s: State, e: Event)
    requires Inv(s) && Alert(s) && Enabled(s, e)
    ensures Alert(Step(s, e).0)
  {
    hide Inv, Alert, Decide, Account;
    match e
    case Add(checks, woken) => AddAlerts(s, checks, woken);
    case Enter(i) => OneAlerts(s, Step(s, e).0, i);
    case Lock(i) =>
      AccountKeeps(s, i);
      AccountAlerts(s, i);
      DecideAlerts(Account(s, i), i);
    case Wake(i) =>
      WakeKeeps(s, i);
      OneAlerts(s, WakeUp(s, i), i);
      DecideAlerts(WakeUp(s, i), i);
    case Work(i) => OneAlerts(s, Step(s, e).0, i);
  }

  /** In every reachable state with checks in the queue, some worker is awake or has been called. */
  lemma {:induction false} RunAlerts(s: State, es: seq<Event>)
    requires Inv(s) && Alert(s) && Legal(s, es)
    ensures Alert(Run(s, es))
    decreases |es|
  {
    hide Inv, Step, Alert;
    if es != [] {
      StepKeeps(s, es[0]);
      StepAlerts(s, es[0]);
      RunAlerts(Step(s, es[0]).0, es[1..]);
    }
  }

  /** A failure is known, and no thread is at work that does not know it. */
  predicate Doomed(s: State) {
    !s.fAllOk && forall i :: 0 <= i < |s.threads| && s.threads[i].Working? ==> !s.threads[i].fOk
  }

  /** From then on, until the master has its answer, not one more check is run. */
  lemma DoomedStays(s: State, e: Event)
    requires Inv(s) && Doomed(s) && Enabled(s, e)
    ensures var (s', answer) := Step(s, e);
      if answer.Some? && (e == Lock(0) || e == Wake(0)) then answer == Some(false)
      else Doomed(s') && s'.hist.ran == s.hist.ran
  {
    hide Inv, BatchSize, PopBack;
    match e
    case Add(_, _) =>
    case Enter(_) =>
    case Lock(i) => AccountKeeps(s, i); BatchOfDoomed(Account(s, i), i);
    case Wake(i) => WakeKeeps(s, i); BatchOfDoomed(WakeUp(s, i), i);
    case Work(_) =>
  }

  lemma BatchOfDoomed(s: State, i: nat)
    requires Doomed(s) && i < |s.threads| && s.nTotal + s.nIdle + 1 > 0
    ensures var (s', answer) := Decide(s, i);
      && (answer.Some? ==> answer == Some(false)) && (answer.None? || i != 0 ==> Doomed(s') && s'.hist == s.hist)
  {
    hide BatchSize, PopBack;
    if s.queue != [] { BatchFits(s); }
  }

  /** The master has not been given its answer. */
  ghost predicate Unanswered(s: State, es: seq<Event>)
    requires Inv(s) && Legal(s, es)
    decreases |es|
  {
    es != [] ==>
      && (es[0] == Lock(0) || es[0] == Wake(0) ==> Step(s, es[0]).1.None?)
      && (StepKeeps(s, es[0]); Unanswered(Step(s, es[0]).0, es[1..]))
  }

  lemma {:induction false} DoomedRun(s: State, es: seq<Event>)
    requires Inv(s) && Doomed(s) && Legal(s, es) && Unanswered(s, es)
    ensures Doomed(Run(s, es)) && Run(s, es).hist.ran == s.hist.ran
    decreases |es|
  {
    hide Inv, Step, Doomed;
    if es != [] {
      StepKeeps(s, es[0]);
      DoomedStays(s, es[0]);
      DoomedRun(Step(s, es[0]).0, es[1..]);
    }
  }

  /** Within a batch nothing is run after a failure either. */
  lemma {:induction false} FailureEndsBatch(s: State, i: nat)
    requires Inv(s) && i < |s.threads| && s.threads[i].Working? && !s.threads[i].fOk
    ensures DoWork(s, i).hist.ran == s.hist.ran && DoWork(s, i).threads[i] != s.threads[i]
    ensures var t := DoWork(s, i).threads[i]; (t.Working? || t.Ready?) && !t.fOk
  {
    hide Inv;
    assert s.threads[i].Working? ==> s.threads[i].rest != [] ==> s.threads[i].rest[1..] != s.threads[i].rest;
  }

  /** Nobody leaves before all is done; then the master does, and a worker if and only if the queue is to be quit. */
  lemma WhoLeaves(s: State, i: nat)
    requires i < |s.threads| && s.nTotal + s.nIdle + 1 > 0 && s.threads[i] == Locked
    ensures Decide(s, i).0.threads[i].Outside? <==> s.queue == [] && s.nTodo == 0 && (i == 0 || s.fQuit)
    ensures Decide(s, i).1.Some? <==> Decide(s, i).0.threads[i].Outside?
  {
    if s.queue != [] { BatchFits(s); }
  }

  /** Checks are taken off the end of the queue, the last first. */
  lemma TakesLast(s: State, i: nat, j: nat)
    requires i < |s.threads| && s.nTotal + s.nIdle + 1 > 0 && s.queue != []
    ensures var s' := Decide(s, i).0;
      && s'.threads[i].Working? && |s.queue| == |s'.queue| + |s'.threads[i].rest| && s'.queue <= s.queue
      && (j < |s'.threads[i].rest| ==> s'.threads[i].rest[j] == s.queue[|s.queue| - 1 - j])
  {
    BatchFits(s);
  }

  // ---------------------------------------------------------------- Wait returns

  /** The events that are neither a caller's doing nor a spurious wakeup. */
  predicate Move(s: State, e: Event) {
    Enabled(s, e) && (e.Lock? || e.Work? || (e.Wake? && s.threads[e.who].notified))
  }

  /** No deadlock: as long as the master is inside Wait, some thread can move. */
  lemma SomeoneMoves(s: State)
    requires Inv(s) && Settled(s) && !s.threads[0].Outside?
    ensures exists e :: Move(s, e)
  {
    match s.threads[0]
    case Ready(_, _) => assert Move(s, Lock(0));
    case Working(_, _, _) => assert Move(s, Work(0));
    case Waiting(notified) =>
      if notified {
        assert Move(s, Wake(0));
      } else {
        NoLostWakeup(s);
        var w :| 0 < w < |s.threads| && InFlight(s.threads[w]) > 0;
        assert Move(s, if s.threads[w].Ready? then Lock(w) else Work(w));
      }
  }

  function Cost(t: Thread): nat {
    match t
    case Outside => 0
    case Ready(_, _) => 2
    case Locked => 1
    case Waiting(notified) => if notified then 1 else 0
    case Working(rest, _, _) => |rest| + 3
  }

  function Measure(s: State): nat {
    5 * |s.queue| + Sum(s.threads, Cost)
  }

  lemma AccountMeasure(s: State, i: nat)
    requires Inv(s) && i < |s.threads| && s.threads[i].Ready?
    ensures Measure(Account(s, i)) <= Measure(s)
  {
    hide Inv, Sum;
    SumPut(s.threads, i, Locked, Cost);
    var ts := s.threads[i := Locked];
    SumPut(ts, 0, Notify(ts[0]), Cost);
  }

  lemma DecideMeasure(s: State, i: nat)
    requires i < |s.threads| && s.threads[i] == Locked && s.nTotal + s.nIdle + 1 > 0
    ensures Measure(Decide(s, i).0) < Measure(s)
  {
    if s.queue != [] { BatchFits(s); }
    hide Sum, BatchSize;
    SumPut(s.threads, i, Decide(s, i).0.threads[i], Cost);
  }

  lemma WorkMeasure(s: State, i: nat)
    requires i < |s.threads| && s.threads[i].Working?
    ensures Measure(DoWork(s, i)) < Measure(s)
  {
    hide Sum;
    SumPut(s.threads, i, DoWork(s, i).threads[i], Cost);
  }

  lemma MoveMeasure(s: State, e: Event)
    requires Inv(s) && Move(s, e)
    ensures Measure(Step(s, e).0) < Measure(s)
  {
    hide Inv, Measure, Account, Decide, DoWork;
    match e
    case Lock(i) => AccountKeeps(s, i); AccountMeasure(s, i); DecideMeasure(Account(s, i), i);
    case Wake(i) => WakeKeeps(s, i); WakeMeasure(s, i); DecideMeasure(WakeUp(s, i), i);
    case Work(i) => WorkMeasure(s, i);
  }

  lemma WakeMeasure(s: State, i: nat)
    requires i < |s.threads| && s.threads[i] == Waiting(true)
    ensures Measure(WakeUp(s, i)) <= Measure(s)
  {
    hide Sum;
    SumPut(s.threads, i, Locked, Cost);
  }

  ghost predicate OnlyMoves(s: State, es: seq<Event>)
    requires Inv(s)
    decreases |es|
  {
    es != [] ==> Move(s, es[0]) && (StepKeeps(s, es[0]); OnlyMoves(Step(s, es[0]).0, es[1..]))
  }

  /** Between two calls of the master and without spurious wakeups, no interleaving is longer than the measure. */
  lemma {:induction false} MovesAreBounded(s: State, es: seq<Event>)
    requires Inv(s) && OnlyMoves(s, es)
    ensures Legal(s, es) && |es| <= Measure(s)
    decreases |es|
  {
    hide Inv, Step, Measure;
    if es != [] {
      StepKeeps(s, es[0]);
      MoveMeasure(s, es[0]);
      MovesAreBounded(Step(s, es[0]).0, es[1..]);
    }
  }

  /** Wait returns: an interleaving that cannot go on, and none is longer than the measure, has let the master out. */
  lemma WaitReturns(s: State, es: seq<Event>)
    requires Inv(s) && Settled(s) && OnlyMoves(s, es)
    ensures Legal(s, es) && |es| <= Measure(s) && |Run(s, es).threads| > 0
    ensures (forall e :: !Move(Run(s, es), e)) ==> Run(s, es).threads[0].Outside?
  {
    hide Inv, Measure, Run, OnlyMoves, Settled, Move;
    MovesAreBounded(s, es);
    RunKeeps(s, es);
    InvHasMaster(Run(s, es));
    if !Run(s, es).threads[0].Outside? { SomeoneMoves(Run(s, es)); }
  }

  lemma InvHasMaster(s: State)
    requires Inv(s)
    ensures |s.threads| > 0
  {
  }
}
