/** The verification queue of src/checkqueue.h as a state machine: one master and any
    number of workers, one step per critical section (and per executed check), in
    every interleaving and with spurious wake-ups. */
module CheckQueue {

  // A check is run by calling it; what that call answers is its verdict.
  datatype Check = Check(id: nat, verdict: bool)

  datatype Thread =
    | Outside                                        // not inside Loop
    | Starting                                       // at the lock, first iteration (nNow == 0)
    | Working(batch: seq<Check>, k: nat, ok: bool)   // k checks of vChecks gone through; at the lock when k == |batch|
    | Waiting(notified: bool)                        // inside cond.wait

  // Thread 0 is the master; the others are workers.
  datatype State = State(
    queue: seq<Check>, nIdle: int, nTotal: int, allOk: bool, nTodo: int, quit: bool, batchSize: nat,
    threads: seq<Thread>,
    controlOpen: bool,             // a CCheckQueueControl that has not waited yet
    added: seq<Check>,             // history: checks added since the last Wait returned
    done: seq<Check>,              // history: those of them accounted for in nTodo and allOk
    result: bool                   // what the last Wait returned
  )

  datatype Step =
    | OpenControl                            // CCheckQueueControl constructor, asserts IsIdle
    | Add(checks: seq<Check>, wake: nat)     // `wake`: whom notify_one picks
    | BeginWait
    | StartWorker(t: nat)
    | Execute(t: nat)                        // one round of the "execute work" loop
    | Enter(t: nat)                          // takes the lock at the top of the do loop
    | Wake(t: nat)                           // returns from cond.wait, notified or not

  predicate IsIdle(s: State) {
    s.nTotal == s.nIdle && s.nTodo == 0 && s.allOk
  }

  // ---------- The steps ----------

  predicate IsMaster(t: nat) { t == 0 }

  // At least one check, at most a full batch, and otherwise a share of what is queued.
  // (the divisor counts threads, so it is positive in every reachable state)
  function BatchCount(s: State): (n: int)
    ensures 1 <= n && (s.queue != [] ==> n <= |s.queue|)
  {
    var divisor := s.nTotal + s.nIdle + 1;
    var share := if divisor > 0 then ShareFits(|s.queue|, divisor); |s.queue| / divisor else 0;
    var capped := if s.batchSize < share then s.batchSize else share;
    if capped < 1 then 1 else capped
  }

  lemma ShareFits(a: nat, d: int)
    requires d > 0
    ensures 0 <= a / d <= a
  {
    var q := a / d;
    assert q >= 0 && q * d <= a;
    assert q * (d - 1) >= 0;
    assert q * d == q * (d - 1) + q;
  }

  // The last n elements, last first: swapped out of queue.back() one by one.
  function TakenFromBack(queue: seq<Check>, n: nat): (b: seq<Check>)
    requires n <= |queue|
    ensures |b| == n && forall i :: 0 <= i < n ==> b[i] == queue[|queue| - 1 - i]
  {
    seq(n, i requires 0 <= i < n => queue[|queue| - 1 - i])
  }

  function SetThread(s: State, t: nat, th: Thread): (r: State)
    requires t < |s.threads|
    ensures |r.threads| == |s.threads|
  {
    s.(threads := s.threads[t := th])
  }

  // One pass of `while (queue.empty())`, up to the wait, the return or the next batch.
  function LoopTop(s: State, t: nat): (r: State)
    requires t < |s.threads|
    ensures |r.threads| == |s.threads|
  {
    if s.queue == [] then
      if (IsMaster(t) || s.quit) && s.nTodo == 0 then
        var r := SetThread(s, t, Outside).(nTotal := s.nTotal - 1);
        if IsMaster(t) then
          r.(result := s.allOk, allOk := true, controlOpen := false, added := [], done := [])
        else r
      else SetThread(s, t, Waiting(false)).(nIdle := s.nIdle + 1)
    else
      var n := BatchCount(s);
      SetThread(s, t, Working(TakenFromBack(s.queue, n), 0, s.allOk)).(queue := s.queue[..|s.queue| - n])
  }

  function NotifyMaster(s: State): (r: State)
    requires |s.threads| > 0
    ensures |r.threads| == |s.threads|
  {
    if s.threads[0].Waiting? then SetThread(s, 0, Waiting(true)) else s
  }

  function NotifyWorkers(ts: seq<Thread>): (r: seq<Thread>)
    ensures |r| == |ts|
  {
    seq(|ts|, i requires 0 <= i < |ts| => if i > 0 && ts[i].Waiting? then Waiting(true) else ts[i])
  }

  // The clean-up of the previous batch, in the same critical section.
  function CleanUp(s: State, t: nat): (r: State)
    requires t < |s.threads| && s.threads[t].Working?
    ensures |r.threads| == |s.threads|
  {
    var w := s.threads[t];
    var r := s.(allOk := s.allOk && w.ok, nTodo := s.nTodo - |w.batch|, done := s.done + w.batch,
                threads := s.threads[t := Starting]);
    if r.nTodo == 0 && !IsMaster(t) then NotifyMaster(r) else r
  }

  predicate Enabled(s: State, step: Step)
    requires |s.threads| > 0
  {
    match step
    case OpenControl => s.threads[0].Outside? && !s.controlOpen
    case Add(_, _) => s.threads[0].Outside? && s.controlOpen
    case BeginWait => s.threads[0].Outside? && s.controlOpen
    case StartWorker(t) => 0 < t < |s.threads| && s.threads[t].Outside?
    case Execute(t) => t < |s.threads| && s.threads[t].Working? && s.threads[t].k < |s.threads[t].batch|
    case Enter(t) => t < |s.threads| &&
        (s.threads[t].Starting? || (s.threads[t].Working? && s.threads[t].k == |s.threads[t].batch|))
    case Wake(t) => t < |s.threads| && s.threads[t].Waiting?
  }

  function Next(s: State, step: Step): (r: State)
    requires |s.threads| > 0 && Enabled(s, step)
    ensures |r.threads| == |s.threads|
  {
    match step
    case OpenControl => s.(controlOpen := true)
    case Add(checks, wake) =>
      var r := s.(queue := s.queue + checks, nTodo := s.nTodo + |checks|, added := s.added + checks);
      if |checks| == 1 then
        // notify_one reaches some waiting worker, if there is one
        if 0 < wake < |s.threads| && s.threads[wake].Waiting? then SetThread(r, wake, Waiting(true)) else r
      else if |checks| > 1 then r.(threads := NotifyWorkers(s.threads))
      else r
    case BeginWait => SetThread(s, 0, Starting)
    case StartWorker(t) => SetThread(s, t, Starting)
    case Execute(t) =>
      var w := s.threads[t];
      SetThread(s, t, Working(w.batch, w.k + 1, if w.ok then w.batch[w.k].verdict else false))
    case Enter(t) =>
      if s.threads[t].Working? then LoopTop(CleanUp(s, t), t)
      else LoopTop(s.(nTotal := s.nTotal + 1), t)
    case Wake(t) =>
      LoopTop(SetThread(s, t, Starting).(nIdle := s.nIdle - 1), t)
  }

  // ---------- The invariant ----------

  /** What a set of threads adds up to: `failing` counts checks in flight that answer
      false, `work` and `pending` weigh what the threads still have to do. */
  datatype Totals = Totals(registered: int, idle: int, inFlight: int, failing: int, work: int, pending: int) {
    function Plus(o: Totals): Totals {
      Totals(registered + o.registered, idle + o.idle, inFlight + o.inFlight, failing + o.failing,
             work + o.work, pending + o.pending)
    }
  }
  const NOTHING := Totals(0, 0, 0, 0, 0, 0)

  function Part(th: Thread): Totals {
    match th
    case Outside => NOTHING.(pending := 2)
    case Starting => NOTHING.(pending := 1)
    case Working(batch, k, _) => Totals(1, 0, |batch|, Failing(batch), 2 * |batch| - k, 0)
    case Waiting(notified) => Totals(1, 1, 0, 0, 0, if notified then 1 else 0)
  }

  function Total(ts: seq<Thread>): Totals {
    if ts == [] then NOTHING else Part(ts[0]).Plus(Total(ts[1..]))
  }

  function Failing(cs: seq<Check>): nat {
    if cs == [] then 0 else (if cs[0].verdict then 0 else 1) + Failing(cs[1..])
  }

  predicate AllTrue(cs: seq<Check>) {
    forall i :: 0 <= i < |cs| ==> cs[i].verdict
  }

  predicate PrefixTrue(batch: seq<Check>, k: nat) {
    forall i :: 0 <= i < k && i < |batch| ==> batch[i].verdict
  }

  ghost predicate WorkerOk(th: Thread, allOk: bool) {
    th.Working? ==>
      && 1 <= |th.batch| && th.k <= |th.batch|
      && (th.ok ==> PrefixTrue(th.batch, th.k))
      && (!th.ok ==> !allOk || !PrefixTrue(th.batch, th.k))
  }

  /** nTotal and nIdle count threads; nTodo counts queued and in-flight checks, and
      the added checks, as well as the failing ones among them, are queued, in flight or done. */
  ghost predicate Accounted(s: State, registered: int) {
    var all := Total(s.threads);
    && s.nTotal == all.registered + registered
    && s.nIdle == all.idle
    && s.nTodo == |s.queue| + all.inFlight
    && |s.added| == |s.queue| + all.inFlight + |s.done|
    && Failing(s.added) == Failing(s.queue) + all.failing + Failing(s.done)
  }

  /** allOk is the conjunction of the verdicts done, and each batch runs to its own. */
  ghost predicate VerdictsOk(s: State) {
    && (s.allOk <==> Failing(s.done) == 0)
    && (forall i :: 0 <= i < |s.threads| ==> WorkerOk(s.threads[i], s.allOk))
  }

  /** The master sleeps only on an empty queue, and un-notified only while work is left. */
  ghost predicate MasterOk(s: State) {
    && |s.threads| >= 1 && !s.quit
    && (s.threads[0].Waiting? ==> s.queue == [] && (!s.threads[0].notified ==> s.nTodo > 0))
    && (!s.threads[0].Outside? ==> s.controlOpen)
    && (!s.controlOpen ==> s.added == [])
  }

  ghost predicate Inv(s: State) {
    Accounted(s, 0) && VerdictsOk(s) && MasterOk(s)
  }

  // ---------- Totals over the threads ----------

  lemma TotalUnfold(ts: seq<Thread>)
    ensures Total(ts) == if ts == [] then NOTHING else Part(ts[0]).Plus(Total(ts[1..]))
  {
    hide Part;
  }

  lemma {:induction false} TotalUpdate(ts: seq<Thread>, i: nat, th: Thread)
    requires i < |ts|
    ensures Total(ts[i := th]).Plus(Part(ts[i])) == Total(ts).Plus(Part(th))
  {
    hide Part;
    if i == 0 {
      assert ts[i := th][1..] == ts[1..];
    } else {
      TotalUpdate(ts[1..], i - 1, th);
      assert ts[i := th][1..] == ts[1..][i - 1 := th];
    }
  }

  lemma {:induction false} TotalSame(ts: seq<Thread>, us: seq<Thread>)
    requires |ts| == |us| && forall i :: 0 <= i < |ts| ==> Part(ts[i]).(pending := 0) == Part(us[i]).(pending := 0)
    ensures Total(ts).(pending := 0) == Total(us).(pending := 0)
  {
    hide Part;
    if ts != [] { TotalSame(ts[1..], us[1..]); }
  }

  lemma {:induction false} TotalBounds(ts: seq<Thread>)
    ensures var all := Total(ts);
            && 0 <= all.idle <= all.registered && 0 <= all.inFlight && 0 <= all.failing && 0 <= all.pending <= 2 * |ts|
            && forall i :: 0 <= i < |ts| ==> Within(Part(ts[i]), all)
  {
    TotalUnfold(ts);
    hide Total, Failing;
    if ts != [] {
      TotalBounds(ts[1..]);
      forall i | 0 <= i < |ts| ensures Within(Part(ts[i]), Total(ts)) {
        if i > 0 { assert ts[i] == ts[1..][i - 1]; }
      }
    }
  }

  predicate Within(a: Totals, b: Totals) {
    a.registered <= b.registered && a.idle <= b.idle && a.inFlight <= b.inFlight
  }

  lemma {:induction false} FailingAppend(a: seq<Check>, b: seq<Check>)
    ensures Failing(a + b) == Failing(a) + Failing(b)
  {
    if a == [] {
      assert a + b == b;
    } else {
      assert (a + b)[1..] == a[1..] + b;
      FailingAppend(a[1..], b);
    }
  }

  lemma {:induction false} FailingZero(cs: seq<Check>)
    ensures Failing(cs) == 0 <==> AllTrue(cs)
    ensures AllTrue(cs) <==> PrefixTrue(cs, |cs|)
  {
    if cs != [] {
      FailingZero(cs[1..]);
      assert forall i :: 1 <= i < |cs| ==> cs[i] == cs[1..][i - 1];
      assert AllTrue(cs) ==> AllTrue(cs[1..]);
    }
  }

  lemma {:induction false} FailingTaken(queue: seq<Check>, n: nat)
    requires n <= |queue|
    ensures Failing(TakenFromBack(queue, n)) + Failing(queue[..|queue| - n]) == Failing(queue)
  {
    var b := TakenFromBack(queue, n);
    if n == 0 {
      assert queue[..|queue|] == queue;
    } else {
      var last := |queue| - 1;
      FailingTaken(queue[..last], n - 1);
      assert b[1..] == TakenFromBack(queue[..last], n - 1);
      assert queue[..last][..last - (n - 1)] == queue[..|queue| - n];
      assert queue == queue[..last] + [queue[last]];
      FailingAppend(queue[..last], [queue[last]]);
    }
  }

  lemma {:induction false} NobodyWorks(ts: seq<Thread>)
    requires forall i :: 0 <= i < |ts| ==> !ts[i].Working?
    ensures Total(ts).registered == Total(ts).idle && Total(ts).inFlight == 0 && Total(ts).failing == 0
  {
    TotalUnfold(ts);
    hide Total;
    if ts != [] {
      NobodyWorks(ts[1..]);
    }
  }

  // ---------- Every step keeps the invariant ----------

  // Inside a critical section, before LoopTop: thread t is registered but holds no batch.
  ghost predicate Mid(s: State, t: nat) {
    && t < |s.threads| && s.threads[t].Starting? && (IsMaster(t) ==> s.controlOpen)
    && Accounted(s, 1) && VerdictsOk(s) && MasterOk(s)
  }

  lemma LoopTopKeeps(s: State, t: nat)
    requires Mid(s, t)
    ensures Inv(LoopTop(s, t))
  {
    hide Inv, Accounted, VerdictsOk, MasterOk;
    if s.queue != [] {
      Takes(s, t);
    } else if IsMaster(t) && s.nTodo == 0 {
      Returns(s);
    } else {
      Waits(s, t);
    }
  }

  lemma Takes(s: State, t: nat)
    requires Mid(s, t) && s.queue != []
    ensures Inv(LoopTop(s, t))
  {
    hide Inv, Mid, TakenFromBack, Failing;
    var n := BatchCount(s);
    FailingTaken(s.queue, n);
    TakesBatch(s, t, TakenFromBack(s.queue, n), n);
  }

  lemma TakesBatch(s: State, t: nat, b: seq<Check>, n: nat)
    requires Mid(s, t) && 1 <= n <= |s.queue|
    requires |b| == n && Failing(b) + Failing(s.queue[..|s.queue| - n]) == Failing(s.queue)
    ensures Inv(s.(threads := s.threads[t := Working(b, 0, s.allOk)], queue := s.queue[..|s.queue| - n]))
  {
    hide Total, Failing;
    var th := Working(b, 0, s.allOk);
    TotalUpdate(s.threads, t, th);
    var r := s.(threads := s.threads[t := th], queue := s.queue[..|s.queue| - n]);
    assert forall i :: 0 <= i < |r.threads| ==> WorkerOk(r.threads[i], r.allOk);
  }

  lemma Waits(s: State, t: nat)
    requires Mid(s, t) && s.queue == [] && !(IsMaster(t) && s.nTodo == 0)
    ensures Inv(LoopTop(s, t))
  {
    hide Total, Failing;
    TotalUpdate(s.threads, t, Waiting(false));
    TotalBounds(s.threads);
    var r := LoopTop(s, t);
    assert r == s.(threads := s.threads[t := Waiting(false)], nIdle := s.nIdle + 1);
    assert forall i :: 0 <= i < |r.threads| ==> WorkerOk(r.threads[i], r.allOk);
  }

  /** The master leaves Wait with the conjunction of all verdicts and an idle queue. */
  lemma Returns(s: State)
    requires Mid(s, 0) && s.queue == [] && s.nTodo == 0
    ensures Inv(LoopTop(s, 0)) && IsIdle(LoopTop(s, 0))
    ensures LoopTop(s, 0).result == AllTrue(s.added)
  {
    hide Total, Failing;
    TotalUpdate(s.threads, 0, Outside);
    NoWorkLeft(s, 1);
    NobodyWorks(s.threads);
    FailingZero(s.added);
  }

  /** Once nothing is queued and nTodo is zero, no thread holds a batch. */
  lemma NoWorkLeft(s: State, registered: int)
    requires s.queue == [] && s.nTodo == 0 && Accounted(s, registered) && VerdictsOk(s)
    ensures forall i :: 0 <= i < |s.threads| ==> !s.threads[i].Working?
    ensures Failing(s.added) == Failing(s.done) && s.nTotal == s.nIdle + registered
  {
    hide Total, Failing;
    TotalBounds(s.threads);
    forall i | 0 <= i < |s.threads| ensures !s.threads[i].Working? {
      assert WorkerOk(s.threads[i], s.allOk);
    }
    NobodyWorks(s.threads);
    FailingZero(s.queue);
  }

  // Only sleeping threads differ, and only in being notified.
  ghost predicate Renotified(ts: seq<Thread>, us: seq<Thread>) {
    |ts| == |us| && forall i :: 0 <= i < |ts| ==> us[i] == ts[i] || (ts[i].Waiting? && us[i].Waiting?)
  }

  lemma RenotifiedTotal(ts: seq<Thread>, us: seq<Thread>)
    requires Renotified(ts, us)
    ensures Total(us).(pending := 0) == Total(ts).(pending := 0)
  {
    forall i | 0 <= i < |ts| ensures Part(ts[i]).(pending := 0) == Part(us[i]).(pending := 0) {
      assert us[i] == ts[i] || (ts[i].Waiting? && us[i].Waiting?);
    }
    TotalSame(ts, us);
  }

  lemma AddKeeps(s: State, checks: seq<Check>, ts: seq<Thread>)
    requires Inv(s) && s.threads[0].Outside? && s.controlOpen && Renotified(s.threads, ts)
    ensures Inv(s.(queue := s.queue + checks, nTodo := s.nTodo + |checks|, added := s.added + checks, threads := ts))
  {
    hide Total, Failing;
    RenotifiedTotal(s.threads, ts);
    FailingAppend(s.queue, checks);
    FailingAppend(s.added, checks);
    assert forall i :: 0 <= i < |ts| ==> WorkerOk(s.threads[i], s.allOk) && WorkerOk(ts[i], s.allOk);
  }

  lemma CleanUpKeeps(s: State, t: nat)
    requires Inv(s) && t < |s.threads| && s.threads[t].Working? && s.threads[t].k == |s.threads[t].batch|
    ensures Mid(CleanUp(s, t), t)
  {
    hide Total, Failing;
    var w := s.threads[t];
    assert WorkerOk(w, s.allOk);
    var r := s.(allOk := s.allOk && w.ok, nTodo := s.nTodo - |w.batch|, done := s.done + w.batch,
                threads := s.threads[t := Starting]);
    TotalUpdate(s.threads, t, Starting);
    TotalBounds(r.threads);
    FailingAppend(s.done, w.batch);
    assert Accounted(r, 1);
    BatchVerdict(s, t);
    assert VerdictsOk(r);
    if r.nTodo == 0 && !IsMaster(t) && r.threads[0].Waiting? {
      RenotifiedTotal(r.threads, r.threads[0 := Waiting(true)]);
    }
  }

  /** A finished batch contributes exactly the conjunction of its verdicts. */
  lemma BatchVerdict(s: State, t: nat)
    requires VerdictsOk(s) && t < |s.threads| && s.threads[t].Working? && s.threads[t].k == |s.threads[t].batch|
    ensures (s.allOk && s.threads[t].ok) <==> Failing(s.done + s.threads[t].batch) == 0
    ensures forall i :: 0 <= i < |s.threads| ==> WorkerOk(s.threads[i], s.allOk && s.threads[t].ok)
  {
    var w := s.threads[t];
    assert WorkerOk(w, s.allOk);
    FailingAppend(s.done, w.batch);
    FailingZero(w.batch);
  }

  lemma ExecuteKeeps(s: State, t: nat)
    requires Inv(s) && Enabled(s, Execute(t))
    ensures Inv(Next(s, Execute(t)))
  {
    hide Total, Failing;
    var w := s.threads[t];
    assert WorkerOk(w, s.allOk);
    var w' := Working(w.batch, w.k + 1, if w.ok then w.batch[w.k].verdict else false);
    TotalUpdate(s.threads, t, w');
    if !w'.ok && s.allOk && !w.ok {
      var i :| 0 <= i < w.k && !w.batch[i].verdict;
      assert !w'.batch[i].verdict;
    }
    assert WorkerOk(w', s.allOk);
    assert VerdictsOk(Next(s, Execute(t)));
  }

  lemma WakeMid(s: State, t: nat)
    requires Inv(s) && Enabled(s, Wake(t))
    ensures Mid(SetThread(s, t, Starting).(nIdle := s.nIdle - 1), t)
  {
    hide Total, Failing;
    TotalUpdate(s.threads, t, Starting);
    TotalBounds(s.threads);
    assert WorkerOk(Starting, s.allOk);
  }

  lemma StartsKeep(s: State, t: nat)
    requires Inv(s) && t < |s.threads| && s.threads[t].Outside? && (IsMaster(t) ==> s.controlOpen)
    ensures Inv(SetThread(s, t, Starting))
  {
    hide Total, Failing;
    TotalUpdate(s.threads, t, Starting);
    assert WorkerOk(Starting, s.allOk);
  }

  lemma EnterKeeps(s: State, t: nat)
    requires Inv(s) && Enabled(s, Enter(t))
    ensures Inv(Next(s, Enter(t)))
  {
    hide Total, Failing, LoopTop, CleanUp;
    if s.threads[t].Working? {
      CleanUpKeeps(s, t);
      LoopTopKeeps(CleanUp(s, t), t);
    } else {
      LoopTopKeeps(s.(nTotal := s.nTotal + 1), t);
    }
  }

  /** Every step of every thread keeps the invariant. */
  lemma StepKeeps(s: State, step: Step)
    requires Inv(s) && Enabled(s, step)
    ensures Inv(Next(s, step))
  {
    hide Accounted, VerdictsOk, LoopTop;
    match step
    case OpenControl => OpenKeeps(s);
    case Add(checks, _) => AddKeeps(s, checks, Next(s, step).threads);
    case BeginWait => StartsKeep(s, 0);
    case StartWorker(t) => StartsKeep(s, t);
    case Execute(t) => ExecuteKeeps(s, t);
    case Enter(t) => EnterKeeps(s, t);
    case Wake(t) =>
      WakeMid(s, t);
      LoopTopKeeps(SetThread(s, t, Starting).(nIdle := s.nIdle - 1), t);
  }

  lemma OpenKeeps(s: State)
    requires Inv(s)
    ensures Inv(s.(controlOpen := true))
  {
    hide Total, Failing;
  }

  // ---------- Whole runs ----------

  predicate Init(s: State) {
    && |s.threads| >= 1 && (forall i :: 0 <= i < |s.threads| ==> s.threads[i].Outside?)
    && s.queue == [] && s.nIdle == 0 && s.nTotal == 0 && s.allOk && s.nTodo == 0 && !s.quit
    && !s.controlOpen && s.added == [] && s.done == []
  }

  predicate Run(s: State, steps: seq<Step>, r: State)
    decreases steps
  {
    if steps == [] then r == s
    else |s.threads| > 0 && Enabled(s, steps[0]) && Run(Next(s, steps[0]), steps[1..], r)
  }

  ghost predicate Reachable(s: State) {
    exists s0, steps :: Init(s0) && Run(s0, steps, s)
  }

  lemma {:induction false} RunKeeps(s: State, steps: seq<Step>, r: State)
    requires Inv(s) && Run(s, steps, r)
    ensures Inv(r)
    decreases steps
  {
    if steps != [] {
      StepKeeps(s, steps[0]);
      RunKeeps(Next(s, steps[0]), steps[1..], r);
    }
  }

  /** In every reachable state nTodo is queued plus in-flight checks, the counters are
      exact, and the master never sleeps un-notified once nothing is left to do. */
  lemma ReachableInv(s: State)
    requires Reachable(s)
    ensures Inv(s)
  {
    var s0, steps :| Init(s0) && Run(s0, steps, s);
    InitInv(s0);
    RunKeeps(s0, steps, s);
  }

  lemma InitInv(s: State)
    requires Init(s)
    ensures Inv(s)
  {
    hide Total, Failing;
    AllOutside(s.threads);
    FailingZero([]);
  }

  lemma {:induction false} AllOutside(ts: seq<Thread>)
    requires forall i :: 0 <= i < |ts| ==> ts[i].Outside?
    ensures Total(ts).registered == 0 && Total(ts).idle == 0 && Total(ts).inFlight == 0 && Total(ts).failing == 0
  {
    TotalUnfold(ts);
    hide Total;
    if ts != [] {
      AllOutside(ts[1..]);
    }
  }

  /** In every run, when a step makes Wait return, the result is the conjunction of the
      verdicts of all checks added since the previous Wait, nothing is queued or in
      flight, every registered worker is asleep and the queue is idle again. */
  lemma WaitReturnsConjunction(s: State, step: Step)
    requires Reachable(s) && |s.threads| > 0 && Enabled(s, step)
    requires !s.threads[0].Outside? && Next(s, step).threads[0].Outside?
    ensures var r := Next(s, step);
            && r.result == AllTrue(s.added)
            && IsIdle(r) && r.queue == []
            && forall i :: 0 <= i < |r.threads| ==> !r.threads[i].Working?
  {
    hide Inv, Next;
    ReachableInv(s);
    MasterReturn(s, step);
  }

  lemma MasterReturn(s: State, step: Step)
    requires Inv(s) && Enabled(s, step) && !s.threads[0].Outside? && Next(s, step).threads[0].Outside?
    ensures var r := Next(s, step);
            && r.result == AllTrue(s.added)
            && IsIdle(r) && r.queue == []
            && forall i :: 0 <= i < |r.threads| ==> !r.threads[i].Working?
  {
    hide Total, Failing, LoopTop;
    TotalBounds(s.threads);
    match step
    case Enter(t) =>
      if s.threads[t].Working? {
        CleanUpKeeps(s, t);
        ReturnsFrom(CleanUp(s, t), t);
      } else {
        ReturnsFrom(s.(nTotal := s.nTotal + 1), t);
      }
    case Wake(t) =>
      WakeMid(s, t);
      ReturnsFrom(SetThread(s, t, Starting).(nIdle := s.nIdle - 1), t);
  }

  lemma ReturnsFrom(s: State, t: nat)
    requires Mid(s, t) && !s.threads[0].Outside? && LoopTop(s, t).threads[0].Outside?
    ensures t == 0 && LoopTop(s, t).result == AllTrue(s.added)
    ensures IsIdle(LoopTop(s, t)) && LoopTop(s, t).queue == []
    ensures forall i :: 0 <= i < |s.threads| ==> !LoopTop(s, t).threads[i].Working?
  {
    Returns(s);
    NoWorkLeft(s, 1);
  }

  /** The assertion in the CCheckQueueControl constructor never fails. */
  lemma NewControlFindsIdleQueue(s: State)
    requires Reachable(s) && |s.threads| > 0 && Enabled(s, OpenControl)
    ensures IsIdle(s)
  {
    hide Total, Failing;
    ReachableInv(s);
    TotalBounds(s.threads);
    NoWorkLeft(s, 0);
  }

  // ---------- Wait comes to an end ----------

  // A wake-up that nobody asked for.
  predicate Spurious(s: State, step: Step) {
    step.Wake? && step.t < |s.threads| && s.threads[step.t].Waiting? && !s.threads[step.t].notified
  }

  /** While the master is inside Wait some thread can always take a real step. */
  lemma NoDeadlock(s: State)
    requires Reachable(s) && |s.threads| > 0 && !s.threads[0].Outside?
    ensures exists step :: Enabled(s, step) && !Spurious(s, step) && !step.StartWorker?
  {
    ReachableInv(s);
    hide Total, Failing;
    if s.threads[0].Starting? {
      assert Enabled(s, Enter(0));
    } else if s.threads[0].Waiting? && s.threads[0].notified {
      assert Enabled(s, Wake(0)) && !Spurious(s, Wake(0));
    } else {
      if forall i :: 0 <= i < |s.threads| ==> !s.threads[i].Working? { NobodyWorks(s.threads); }
      var i :| 0 <= i < |s.threads| && s.threads[i].Working?;
      assert WorkerOk(s.threads[i], s.allOk);
      assert Enabled(s, if s.threads[i].k < |s.threads[i].batch| then Execute(i) else Enter(i));
    }
  }

  // Queued checks weigh 3, checks in a batch 2 before and 1 after they are gone through;
  // below that, threads that still have to come to the lock.
  function Work(s: State): int { 3 * |s.queue| + Total(s.threads).work }

  function Measure(s: State): int {
    (2 * |s.threads| + 1) * Work(s) + Total(s.threads).pending
  }

  lemma MeasureNonNegative(s: State)
    requires Inv(s)
    ensures 0 <= Measure(s)
  {
    hide Total, Failing;
    TotalBounds(s.threads);
    WorkNonNegative(s.threads, s.allOk);
  }

  lemma {:induction false} WorkNonNegative(ts: seq<Thread>, allOk: bool)
    requires forall i :: 0 <= i < |ts| ==> WorkerOk(ts[i], allOk)
    ensures 0 <= Total(ts).work
  {
    TotalUnfold(ts);
    hide Total, Failing;
    if ts != [] {
      assert WorkerOk(ts[0], allOk);
      WorkNonNegative(ts[1..], allOk);
    }
  }

  lemma Lighter(s: State, r: State)
    requires |r.threads| == |s.threads|
    requires Work(r) < Work(s) || (Work(r) == Work(s) && Total(r.threads).pending < Total(s.threads).pending)
    ensures Measure(r) < Measure(s)
  {
    hide Total, Work;
    TotalBounds(s.threads);
    TotalBounds(r.threads);
    Lexicographic(2 * |s.threads| + 1, Work(s), Total(s.threads).pending, Work(r), Total(r.threads).pending);
  }

  lemma SameWeight(s: State, r: State)
    requires |r.threads| == |s.threads| && Work(r) == Work(s) && Total(r.threads).pending == Total(s.threads).pending
    ensures Measure(r) == Measure(s)
  {
    hide Total, Work;
  }

  lemma Lexicographic(n: int, a: int, p: int, b: int, q: int)
    requires 0 <= p < n && 0 <= q < n && (b < a || (b == a && q < p))
    ensures n * b + q < n * a + p
  {
    if b < a {
      var d := a - b - 1;
      assert n * d >= 0;
      assert n * a == n * (b + 1 + d) == n * b + n + n * d;
    }
  }

  // LoopTop from a thread without a batch: it takes checks, which get lighter, or sleeps.
  lemma LoopTopLighter(s: State, t: nat)
    requires t < |s.threads| && s.threads[t].Starting?
    requires !(IsMaster(t) && s.queue == [] && s.nTodo == 0) && !s.quit
    ensures Work(LoopTop(s, t)) <= Work(s)
    ensures Work(LoopTop(s, t)) == Work(s) ==> Total(LoopTop(s, t).threads).pending == Total(s.threads).pending - 1
  {
    hide Total, Failing, TakenFromBack;
    TotalUpdate(s.threads, t, LoopTop(s, t).threads[t]);
  }

  /** Inside Wait every step but a spurious wake-up makes the measure smaller, and that
      one does not make it larger. */
  lemma StepLighter(s: State, step: Step)
    requires Inv(s) && Enabled(s, step) && !s.threads[0].Outside? && !Next(s, step).threads[0].Outside?
    ensures Measure(Next(s, step)) <= Measure(s)
    ensures !Spurious(s, step) ==> Measure(Next(s, step)) < Measure(s)
  {
    hide Total, Failing, LoopTop, Measure;
    var r := Next(s, step);
    match step
    case StartWorker(t) =>
      TotalUpdate(s.threads, t, Starting);
      Lighter(s, r);
    case Execute(t) =>
      TotalUpdate(s.threads, t, r.threads[t]);
      Lighter(s, r);
    case Enter(t) => EnterLighter(s, t);
    case Wake(t) => WakeLighter(s, t);
  }

  lemma StaysOut(s: State, t: nat)
    requires t < |s.threads| && !s.quit && !LoopTop(s, t).threads[0].Outside?
    ensures !(IsMaster(t) && s.queue == [] && s.nTodo == 0)
  {
  }

  lemma WakeLighter(s: State, t: nat)
    requires Inv(s) && Enabled(s, Wake(t)) && !s.threads[0].Outside? && !Next(s, Wake(t)).threads[0].Outside?
    ensures Measure(Next(s, Wake(t))) <= Measure(s)
    ensures !Spurious(s, Wake(t)) ==> Measure(Next(s, Wake(t))) < Measure(s)
  {
    hide Total, Failing, LoopTop, Measure;
    var m := SetThread(s, t, Starting).(nIdle := s.nIdle - 1);
    StaysOut(m, t);
    TotalUpdate(s.threads, t, Starting);
    LoopTopLighter(m, t);
    var r := LoopTop(m, t);
    if Work(r) < Work(s) || Total(r.threads).pending < Total(s.threads).pending {
      Lighter(s, r);
    } else {
      SameWeight(s, r);
    }
  }

  lemma EnterLighter(s: State, t: nat)
    requires Inv(s) && Enabled(s, Enter(t)) && !s.threads[0].Outside? && !Next(s, Enter(t)).threads[0].Outside?
    ensures Measure(Next(s, Enter(t))) < Measure(s)
  {
    hide Total, Failing, LoopTop, CleanUp, Measure, Work, Inv;
    var m := if s.threads[t].Working? then CleanUp(s, t) else s.(nTotal := s.nTotal + 1);
    EnterMid(s, t);
    StaysOut(m, t);
    LoopTopLighter(m, t);
    Lighter(s, LoopTop(m, t));
  }

  lemma EnterMid(s: State, t: nat)
    requires Inv(s) && Enabled(s, Enter(t))
    ensures var m := if s.threads[t].Working? then CleanUp(s, t) else s.(nTotal := s.nTotal + 1);
            && m.threads[t].Starting? && !m.quit
            && (Work(m) < Work(s) || (Work(m) == Work(s) && Total(m.threads) == Total(s.threads)))
  {
    hide Total, Failing;
    if s.threads[t].Working? { CleanUpLighter(s, t); }
  }

  lemma CleanUpLighter(s: State, t: nat)
    requires Inv(s) && t < |s.threads| && s.threads[t].Working? && s.threads[t].k == |s.threads[t].batch|
    ensures Work(CleanUp(s, t)) < Work(s)
    ensures CleanUp(s, t).threads[t].Starting? && !CleanUp(s, t).quit
  {
    hide Total, Failing;
    assert WorkerOk(s.threads[t], s.allOk);
    var ts := s.threads[t := Starting];
    TotalUpdate(s.threads, t, Starting);
    if ts[0].Waiting? { RenotifiedTotal(ts, ts[0 := Waiting(true)]); }
  }

  // The master is inside Wait in every state of the run.
  predicate StaysInside(s: State, steps: seq<Step>)
    decreases steps
  {
    && |s.threads| > 0 && !s.threads[0].Outside?
    && (steps == [] || (Enabled(s, steps[0]) && StaysInside(Next(s, steps[0]), steps[1..])))
  }

  function RealSteps(s: State, steps: seq<Step>): nat
    requires StaysInside(s, steps)
    decreases steps
  {
    if steps == [] then 0
    else (if Spurious(s, steps[0]) then 0 else 1) + RealSteps(Next(s, steps[0]), steps[1..])
  }

  /** However the threads are interleaved, a Wait lasts only boundedly many steps that
      are not spurious wake-ups. */
  lemma {:induction false} WaitIsBounded(s: State, steps: seq<Step>)
    requires Inv(s) && StaysInside(s, steps)
    ensures RealSteps(s, steps) <= Measure(s)
    decreases steps
  {
    hide Measure, Next;
    MeasureNonNegative(s);
    if steps != [] {
      var r := Next(s, steps[0]);
      StepKeeps(s, steps[0]);
      WaitIsBounded(r, steps[1..]);
      StepLighter(s, steps[0]);
    }
  }
}
