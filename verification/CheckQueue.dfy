/**
 The verification queue of src/checkqueue.h: a master pushes checks, workers and finally the
 master itself take batches off a stack, run them outside the lock and report one boolean.

 Every critical section of the source is one atomic step of a state machine, so a run is any
 interleaving of steps of any number of workers.  Waiting threads may also wake up without a
 notification.  Thread 0 is the master.
 */
module CheckQueue {
  import opened IntMath

  type Check = nat

  datatype Thread =
    | Outside                                             // not in Loop
    | Working(batch: seq<Check>, done: nat, ok: bool)     // running a batch without the lock
    | Waiting(notified: bool)                             // blocked on its condition variable

  /** A finished round: all the checks that were added and the result of Wait. */
  datatype Round = Round(checks: multiset<Check>, result: bool)

  datatype State = State(
    queue: seq<Check>,
    nIdle: int,
    nTotal: int,
    allOk: bool,
    nTodo: int,
    threads: seq<Thread>,
    // history of the current round and of the finished ones
    added: multiset<Check>,
    reported: multiset<Check>,
    rounds: seq<Round>)

  /** The batch size limit, and what each check evaluates to. */
  datatype Config = Config(batchSize: nat, passes: Check -> bool)

  predicate Init(s: State) {
    && s.queue == [] && s.nIdle == 0 && s.nTotal == 0 && s.allOk && s.nTodo == 0
    && |s.threads| > 0 && (forall t :: 0 <= t < |s.threads| ==> s.threads[t].Outside?)
    && s.added == multiset{} && s.reported == multiset{} && s.rounds == []
  }

  // ---------------------------------------------------------------------------
  // Steps
  // ---------------------------------------------------------------------------

  datatype Step =
    | Add(checks: seq<Check>, wake: set<nat>)   // the master adds checks and notifies workers
    | Enter(t: nat)                             // a thread calls Loop
    | Execute(t: nat)                           // a thread runs the next check of its batch
    | Report(t: nat)                            // a thread hands in its batch
    | Wake(t: nat)                              // a waiting thread runs again

  predicate Enabled(s: State, step: Step) {
    match step
    case Add(checks, wake) =>
      // notify_one wakes some waiting worker if there is one, notify_all wakes them all
      && s.threads != [] && s.threads[0].Outside?
      && (forall w :: w in wake ==> 0 < w < |s.threads| && s.threads[w].Waiting?)
      && (|checks| == 0 ==> wake == {})
      && (|checks| == 1 ==> wake != {} || forall w :: 0 < w < |s.threads| ==> !s.threads[w].Waiting?)
      && (|checks| > 1 ==> forall w :: 0 < w < |s.threads| && s.threads[w].Waiting? ==> w in wake)
    case Enter(t) => t < |s.threads| && s.threads[t].Outside?
    case Execute(t) =>
      t < |s.threads| && s.threads[t].Working? && s.threads[t].done < |s.threads[t].batch|
    case Report(t) =>
      t < |s.threads| && s.threads[t].Working? && s.threads[t].done == |s.threads[t].batch|
    case Wake(t) => t < |s.threads| && s.threads[t].Waiting?
  }

  function Set(s: State, t: nat, th: Thread): State
    requires t < |s.threads|
  {
    s.(threads := s.threads[t := th])
  }

  /** How many checks to take: at least one, at most the batch size, and a fair share. */
  function BatchOf(cfg: Config, s: State): (n: int)
    requires s.queue != []
    ensures 1 <= n <= |s.queue| && (n == 1 || n <= cfg.batchSize)
  {
    var divisor := s.nTotal + s.nIdle + 1;
    var share := if divisor > 0 then DivShrinks(|s.queue|, divisor); |s.queue| / divisor else 0;
    var limited := if share < cfg.batchSize then share else cfg.batchSize;
    if limited < 1 then 1 else limited
  }

  /** The batch is a fair share: no more than the queue divided among all, and no less unless the batch size is smaller. */
  lemma FairShare(cfg: Config, s: State)
    requires s.queue != [] && s.nTotal + s.nIdle >= 0
    ensures var n, d := BatchOf(cfg, s), s.nTotal + s.nIdle + 1;
      (n == 1 || n * d <= |s.queue|) && (n >= cfg.batchSize || (n + 1) * d > |s.queue|)
  {
    var d := s.nTotal + s.nIdle + 1;
    var share := |s.queue| / d;
    assert share * d <= |s.queue| < (share + 1) * d;
    if share < 1 {
      MulMonotone(share + 1, 2, d);
    } else {
      if cfg.batchSize <= share { MulMonotone(cfg.batchSize, share, d); }
    }
  }

  /** The loop on the queue, under the lock: finish, go to sleep, or take a batch. */
  function Acquire(cfg: Config, s: State, t: nat): State
    requires t < |s.threads|
  {
    if s.queue == [] then
      if t == 0 && s.nTodo == 0 then
        Set(s, t, Outside).(
          nTotal := s.nTotal - 1, allOk := true,
          added := multiset{}, reported := multiset{}, rounds := s.rounds + [Round(s.added, s.allOk)])
      else
        Set(s, t, Waiting(false)).(nIdle := s.nIdle + 1)
    else
      var rest := |s.queue| - BatchOf(cfg, s);
      Set(s, t, Working(s.queue[rest..], 0, s.allOk)).(queue := s.queue[..rest])
  }

  function Notify(th: Thread): Thread {
    if th.Waiting? then Waiting(true) else th
  }

  /** The clean-up of the previous batch at the top of the loop. */
  function HandIn(s: State, t: nat): (r: State)
    requires t < |s.threads| && s.threads[t].Working?
    ensures r.threads == s.threads
  {
    var Working(batch, _, ok) := s.threads[t];
    s.(allOk := s.allOk && ok, nTodo := s.nTodo - |batch|, reported := s.reported + multiset(batch))
  }

  /** A worker that reports the last outstanding check wakes the master. */
  function NotifyMaster(s: State, t: nat): State
    requires s.threads != []
  {
    if s.nTodo == 0 && t != 0 then Set(s, 0, Notify(s.threads[0])) else s
  }

  function Next(cfg: Config, s: State, step: Step): State
    requires Enabled(s, step)
  {
    match step
    case Add(checks, wake) =>
      s.(queue := s.queue + checks,
         nTodo := s.nTodo + |checks|,
         added := s.added + multiset(checks),
         threads := seq(|s.threads|, i requires 0 <= i < |s.threads| =>
                        if i in wake then Notify(s.threads[i]) else s.threads[i]))
    case Enter(t) =>
      Acquire(cfg, s.(nTotal := s.nTotal + 1), t)
    case Execute(t) =>
      var Working(batch, done, ok) := s.threads[t];
      Set(s, t, Working(batch, done + 1, ok && cfg.passes(batch[done])))
    case Report(t) =>
      Acquire(cfg, NotifyMaster(HandIn(s, t), t), t)
    case Wake(t) =>
      Acquire(cfg, s.(nIdle := s.nIdle - 1), t)
  }

  // ---------------------------------------------------------------------------
  // Sums over the threads
  // ---------------------------------------------------------------------------

  function Sum(ts: seq<Thread>, f: Thread -> int): int {
    if ts == [] then 0 else Sum(ts[..|ts| - 1], f) + f(ts[|ts| - 1])
  }

  lemma {:induction false} SumUpdate(ts: seq<Thread>, t: nat, th: Thread, f: Thread -> int)
    requires t < |ts|
    ensures Sum(ts[t := th], f) == Sum(ts, f) - f(ts[t]) + f(th)
  {
    var front := ts[..|ts| - 1];
    if t == |ts| - 1 {
      assert ts[t := th][..|ts| - 1] == front;
    } else {
      assert ts[t := th][..|ts| - 1] == front[t := th];
      SumUpdate(front, t, th, f);
    }
  }

  lemma {:induction false} SumSame(ts: seq<Thread>, us: seq<Thread>, f: Thread -> int)
    requires |ts| == |us| && forall i :: 0 <= i < |ts| ==> f(ts[i]) == f(us[i])
    ensures Sum(ts, f) == Sum(us, f)
  {
    if ts != [] { SumSame(ts[..|ts| - 1], us[..|us| - 1], f); }
  }

  lemma {:induction false} SumNonNegative(ts: seq<Thread>, f: Thread -> int)
    requires forall th: Thread :: f(th) >= 0
    ensures Sum(ts, f) >= 0
  {
    if ts != [] { SumNonNegative(ts[..|ts| - 1], f); }
  }

  const IDLE: Thread -> int := (th: Thread) => if th.Waiting? then 1 else 0
  const INSIDE: Thread -> int := (th: Thread) => if th.Outside? then 0 else 1

  function BatchHeld(th: Thread): multiset<Check> {
    if th.Working? then multiset(th.batch) else multiset{}
  }

  /** All checks that were taken off the queue but are not reported yet. */
  function InFlight(ts: seq<Thread>): multiset<Check> {
    if ts == [] then multiset{} else InFlight(ts[..|ts| - 1]) + BatchHeld(ts[|ts| - 1])
  }

  lemma {:induction false} InFlightUpdate(ts: seq<Thread>, t: nat, th: Thread)
    requires t < |ts|
    ensures InFlight(ts[t := th]) + BatchHeld(ts[t]) == InFlight(ts) + BatchHeld(th)
  {
    hide BatchHeld;
    var front := ts[..|ts| - 1];
    if t == |ts| - 1 {
      assert ts[t := th][..|ts| - 1] == front;
    } else {
      assert ts[t := th][..|ts| - 1] == front[t := th];
      InFlightUpdate(front, t, th);
      AddBoth(InFlight(front[t := th]), BatchHeld(ts[t]), InFlight(front), BatchHeld(th), BatchHeld(ts[|ts| - 1]));
    }
  }

  lemma AddBoth(a: multiset<Check>, b: multiset<Check>, c: multiset<Check>, d: multiset<Check>, e: multiset<Check>)
    requires a + b == c + d
    ensures a + e + b == c + e + d
  {
    assert a + e + b == (a + b) + e && c + e + d == (c + d) + e;
  }

  lemma {:induction false} HeldIsInFlight(ts: seq<Thread>, t: nat)
    requires t < |ts|
    ensures BatchHeld(ts[t]) <= InFlight(ts)
  {
    if t < |ts| - 1 { HeldIsInFlight(ts[..|ts| - 1], t); }
  }

  lemma {:induction false} InFlightSame(ts: seq<Thread>, us: seq<Thread>)
    requires |ts| == |us| && forall i :: 0 <= i < |ts| ==> BatchHeld(ts[i]) == BatchHeld(us[i])
    ensures InFlight(ts) == InFlight(us)
  {
    if ts != [] { InFlightSame(ts[..|ts| - 1], us[..|us| - 1]); }
  }

  lemma {:induction false} NothingInFlight(ts: seq<Thread>)
    requires forall t :: 0 <= t < |ts| ==> !ts[t].Working?
    ensures InFlight(ts) == multiset{}
  {
    if ts != [] { NothingInFlight(ts[..|ts| - 1]); }
  }

  // ---------------------------------------------------------------------------
  // The invariant
  // ---------------------------------------------------------------------------

  predicate AllPass(cfg: Config, m: multiset<Check>) {
    forall c :: c in m ==> cfg.passes(c)
  }

  /** What the running flag of a thread says about its batch and the round. */
  predicate ThreadOk(cfg: Config, added: multiset<Check>, th: Thread) {
    th.Working? ==>
      && 0 < |th.batch| && th.done <= |th.batch|
      && (th.ok ==> forall i :: 0 <= i < th.done ==> cfg.passes(th.batch[i]))
      && (!th.ok ==> !AllPass(cfg, added))
  }

  predicate ThreadsOk(cfg: Config, s: State) {
    forall t :: 0 <= t < |s.threads| ==> ThreadOk(cfg, s.added, s.threads[t])
  }

  /** Checks are conserved: queued, in flight or reported; nTodo counts the first two. */
  predicate Conserved(s: State) {
    && s.added == multiset(s.queue) + InFlight(s.threads) + s.reported
    && s.nTodo == |s.queue| + |InFlight(s.threads)|
  }

  /** nIdle and nTotal count threads; someone in the middle of a critical section is extra. */
  predicate Counted(s: State, extra: int) {
    && s.nIdle == Sum(s.threads, IDLE)
    && s.nTotal == Sum(s.threads, INSIDE) + extra
  }

  predicate VerdictOk(cfg: Config, s: State) {
    && (s.allOk ==> AllPass(cfg, s.reported))
    && (!s.allOk ==> !AllPass(cfg, s.added))
  }

  /** The master sleeps only when all is taken, and unnotified only while work is outstanding. */
  predicate MasterOk(s: State) {
    && |s.threads| > 0
    && (s.threads[0].Waiting? ==> s.queue == [] && (!s.threads[0].notified ==> s.nTodo > 0))
  }

  predicate RoundsOk(cfg: Config, s: State) {
    forall i :: 0 <= i < |s.rounds| ==> s.rounds[i].result == AllPass(cfg, s.rounds[i].checks)
  }

  predicate Inv(cfg: Config, s: State, extra: int) {
    && ThreadsOk(cfg, s) && Conserved(s) && Counted(s, extra)
    && VerdictOk(cfg, s) && MasterOk(s) && RoundsOk(cfg, s)
  }

  lemma InitInv(cfg: Config, s: State)
    requires Init(s)
    ensures Inv(cfg, s, 0)
  {
    NothingInFlight(s.threads);
    AllOutside(s.threads);
  }

  lemma {:induction false} AllOutside(ts: seq<Thread>)
    requires forall t :: 0 <= t < |ts| ==> ts[t].Outside?
    ensures Sum(ts, IDLE) == 0 && Sum(ts, INSIDE) == 0
  {
    if ts != [] { AllOutside(ts[..|ts| - 1]); }
  }

  // ---------------------------------------------------------------------------
  // Every step keeps the invariant
  // ---------------------------------------------------------------------------

  /** Taking thread t out of the books for the length of its critical section. */
  lemma InHand(s: State, t: nat)
    requires t < |s.threads|
    ensures InFlight(s.threads[t := Outside]) + BatchHeld(s.threads[t]) == InFlight(s.threads)
    ensures Sum(s.threads[t := Outside], IDLE) == Sum(s.threads, IDLE) - IDLE(s.threads[t])
    ensures Sum(s.threads[t := Outside], INSIDE) == Sum(s.threads, INSIDE) - INSIDE(s.threads[t])
  {
    InFlightUpdate(s.threads, t, Outside);
    SumUpdate(s.threads, t, Outside, IDLE);
    SumUpdate(s.threads, t, Outside, INSIDE);
  }

  /** A round ends: nothing is queued or in flight, so all that was added is reported. */
  lemma AcquireFinish(cfg: Config, s: State)
    requires |s.threads| > 0 && s.threads[0].Outside? && Inv(cfg, s, 1)
    requires s.queue == [] && s.nTodo == 0
    ensures Inv(cfg, Acquire(cfg, s, 0), 0)
  {
    hide AllPass, InFlight, Sum;
    assert s.threads[0 := Outside] == s.threads;
    assert InFlight(s.threads) == multiset{};
    assert s.added == s.reported;
    forall t | 0 <= t < |s.threads| ensures !s.threads[t].Working? {
      HeldIsInFlight(s.threads, t);
      NoBatchNoWork(cfg, s.added, s.threads[t]);
    }
    NothingPasses(cfg);
  }

  lemma NoBatchNoWork(cfg: Config, added: multiset<Check>, th: Thread)
    ensures ThreadOk(cfg, added, th) && BatchHeld(th) == multiset{} ==> !th.Working?
  {
    if th.Working? { assert |BatchHeld(th)| == |th.batch|; }
  }

  lemma NothingPasses(cfg: Config)
    ensures AllPass(cfg, multiset{})
  {
  }

  lemma NoBatch(m: multiset<Check>)
    ensures m + multiset{} == m
  {
  }

  lemma MoveBatch(queue: multiset<Check>, batch: multiset<Check>, flying: multiset<Check>, rest: multiset<Check>)
    ensures (queue + batch) + flying + rest == queue + (flying + batch) + rest
    ensures queue + (flying + batch) + rest == queue + flying + (rest + batch)
    ensures |flying + batch| == |flying| + |batch|
  {
  }

  lemma AcquireSleep(cfg: Config, s: State, t: nat)
    requires t < |s.threads| && s.threads[t].Outside? && Inv(cfg, s, 1)
    requires s.queue == [] && !(t == 0 && s.nTodo == 0)
    ensures Inv(cfg, Acquire(cfg, s, t), 0)
  {
    hide AllPass, InFlight, Sum;
    InFlightUpdate(s.threads, t, Waiting(false));
    NoBatch(InFlight(s.threads));
    NoBatch(InFlight(s.threads[t := Waiting(false)]));
    SumUpdate(s.threads, t, Waiting(false), IDLE);
    SumUpdate(s.threads, t, Waiting(false), INSIDE);
  }

  lemma AcquireTake(cfg: Config, s: State, t: nat)
    requires t < |s.threads| && s.threads[t].Outside? && Inv(cfg, s, 1)
    requires s.queue != []
    ensures Inv(cfg, Acquire(cfg, s, t), 0)
  {
    hide AllPass, InFlight, Sum, BatchOf;
    var rest := |s.queue| - BatchOf(cfg, s);
    var taken := Working(s.queue[rest..], 0, s.allOk);
    assert s.queue == s.queue[..rest] + s.queue[rest..];
    InFlightUpdate(s.threads, t, taken);
    NoBatch(InFlight(s.threads[t := taken]));
    MoveBatch(multiset(s.queue[..rest]), multiset(taken.batch), InFlight(s.threads), s.reported);
    SumUpdate(s.threads, t, taken, IDLE);
    SumUpdate(s.threads, t, taken, INSIDE);
  }

  lemma AcquireInv(cfg: Config, s: State, t: nat)
    requires t < |s.threads| && s.threads[t].Outside? && Inv(cfg, s, 1)
    ensures Inv(cfg, Acquire(cfg, s, t), 0)
  {
    hide Inv, Acquire;
    if s.queue != [] { AcquireTake(cfg, s, t); }
    else if t == 0 && s.nTodo == 0 { AcquireFinish(cfg, s); }
    else { AcquireSleep(cfg, s, t); }
  }

  lemma AddInv(cfg: Config, s: State, checks: seq<Check>, wake: set<nat>)
    requires Inv(cfg, s, 0) && Enabled(s, Add(checks, wake))
    ensures Inv(cfg, Next(cfg, s, Add(checks, wake)), 0)
  {
    hide InFlight, Sum;
    var s' := Next(cfg, s, Add(checks, wake));
    InFlightSame(s.threads, s'.threads);
    SumSame(s.threads, s'.threads, IDLE);
    SumSame(s.threads, s'.threads, INSIDE);
    Queued(multiset(s.queue), multiset(checks), InFlight(s.threads), s.reported);
    forall t | 0 <= t < |s'.threads| ensures ThreadOk(cfg, s'.added, s'.threads[t]) {
      assert ThreadOk(cfg, s.added, s.threads[t]);
    }
  }

  lemma Queued(queue: multiset<Check>, checks: multiset<Check>, flying: multiset<Check>, rest: multiset<Check>)
    ensures (queue + flying + rest) + checks == (queue + checks) + flying + rest
  {
  }

  lemma Cancel(a: multiset<Check>, b: multiset<Check>, c: multiset<Check>)
    requires a + c == b + c
    ensures a == b
  {
    assert forall x :: (a + c)[x] == a[x] + c[x] && (b + c)[x] == b[x] + c[x];
  }

  lemma ExecuteInv(cfg: Config, s: State, t: nat)
    requires Inv(cfg, s, 0) && Enabled(s, Execute(t))
    ensures Inv(cfg, Next(cfg, s, Execute(t)), 0)
  {
    hide InFlight, Sum;
    var th, s' := s.threads[t], Next(cfg, s, Execute(t));
    InFlightUpdate(s.threads, t, s'.threads[t]);
    Cancel(InFlight(s'.threads), InFlight(s.threads), BatchHeld(th));
    SumUpdate(s.threads, t, s'.threads[t], IDLE);
    SumUpdate(s.threads, t, s'.threads[t], INSIDE);
    assert ThreadOk(cfg, s.added, th);
    HeldIsInFlight(s.threads, t);
    assert th.batch[th.done] in BatchHeld(th);
    assert th.batch[th.done] in s.added;
  }

  lemma EnterInv(cfg: Config, s: State, t: nat)
    requires Inv(cfg, s, 0) && Enabled(s, Enter(t))
    ensures Inv(cfg, Next(cfg, s, Enter(t)), 0)
  {
    AcquireInv(cfg, s.(nTotal := s.nTotal + 1), t);
  }

  /** Acquire overwrites the thread, so it may be taken out of the books before. */
  lemma AcquireIgnoresThread(cfg: Config, s: State, t: nat)
    requires t < |s.threads|
    ensures Acquire(cfg, s, t) == Acquire(cfg, Set(s, t, Outside), t)
  {
    var th := Acquire(cfg, s, t).threads[t];
    assert s.threads[t := Outside][t := th] == s.threads[t := th];
  }

  lemma WakeInv(cfg: Config, s: State, t: nat)
    requires Inv(cfg, s, 0) && Enabled(s, Wake(t))
    ensures Inv(cfg, Next(cfg, s, Wake(t)), 0)
  {
    hide InFlight, Sum, Acquire, VerdictOk, RoundsOk;
    InHand(s, t);
    NoBatch(InFlight(s.threads[t := Outside]));
    var s1 := s.(nIdle := s.nIdle - 1);
    AcquireIgnoresThread(cfg, s1, t);
    VerdictFrame(cfg, s, Set(s, t, Outside));
    VerdictFrame(cfg, Set(s, t, Outside), Set(s1, t, Outside));
    AcquireInv(cfg, Set(s1, t, Outside), t);
  }

  /** The critical section of a report, up to the queue loop. */
  lemma ReportedInv(cfg: Config, s: State, t: nat, s1: State)
    requires Inv(cfg, s, 0) && Enabled(s, Report(t))
    requires s1 == Set(HandIn(s, t), t, Outside)
    ensures ThreadsOk(cfg, s1) && Conserved(s1) && Counted(s1, 1) && VerdictOk(cfg, s1) && RoundsOk(cfg, s1)
    ensures s1.threads[0].Waiting? ==> s1.queue == []
    ensures s1.nTodo >= 0
  {
    hide InFlight, Sum;
    var Working(batch, _, ok) := s.threads[t];
    InHand(s, t);
    assert ThreadOk(cfg, s.added, s.threads[t]);
    MoveBatch(multiset(s.queue), multiset(batch), InFlight(s1.threads), s.reported);
    forall c | c in multiset(batch) && ok ensures cfg.passes(c) {
      assert c in batch;
    }
  }

  lemma ReportInv(cfg: Config, s: State, t: nat)
    requires Inv(cfg, s, 0) && Enabled(s, Report(t))
    ensures Inv(cfg, Next(cfg, s, Report(t)), 0)
  {
    hide Inv, Acquire, NotifyMaster, HandIn;
    var handed := HandIn(s, t);
    var r := Set(handed, t, Outside);
    ReportedInv(cfg, s, t, r);
    MasterNotified(cfg, s, t, r);
    NotifyOther(handed, t);
    AcquireIgnoresThread(cfg, NotifyMaster(handed, t), t);
    AcquireInv(cfg, NotifyMaster(r, t), t);
  }

  lemma NotifyOther(s: State, t: nat)
    requires t < |s.threads|
    ensures |NotifyMaster(s, t).threads| == |s.threads|
    ensures Set(NotifyMaster(s, t), t, Outside) == NotifyMaster(Set(s, t, Outside), t)
    ensures NotifyMaster(Set(s, t, Outside), t).threads[t].Outside?
  {
    if t != 0 {
      var th := Notify(s.threads[0]);
      assert s.threads[0 := th][t := Outside] == s.threads[t := Outside][0 := th];
    }
  }

  /** The last worker to report wakes a sleeping master, so the master clause is restored. */
  lemma MasterNotified(cfg: Config, s: State, t: nat, r: State)
    requires Inv(cfg, s, 0) && Enabled(s, Report(t))
    requires r.threads == s.threads[t := Outside] && r.nTodo >= 0
    requires r.threads[0].Waiting? ==> r.queue == []
    requires ThreadsOk(cfg, r) && Conserved(r) && Counted(r, 1) && VerdictOk(cfg, r) && RoundsOk(cfg, r)
    ensures Inv(cfg, NotifyMaster(r, t), 1)
  {
    hide InFlight, Sum, AllPass, VerdictOk, RoundsOk;
    NotifyKeeps(r.threads);
    VerdictFrame(cfg, r, NotifyMaster(r, t));
  }

  lemma VerdictFrame(cfg: Config, s: State, s': State)
    requires s' == s.(threads := s'.threads, nIdle := s'.nIdle)
    ensures VerdictOk(cfg, s) == VerdictOk(cfg, s') && RoundsOk(cfg, s) == RoundsOk(cfg, s')
  {
  }

  /** A notification changes no count and no batch. */
  lemma NotifyKeeps(ts: seq<Thread>)
    requires ts != []
    ensures var us := ts[0 := Notify(ts[0])];
            InFlight(us) == InFlight(ts) && Sum(us, IDLE) == Sum(ts, IDLE) && Sum(us, INSIDE) == Sum(ts, INSIDE)
  {
    var us := ts[0 := Notify(ts[0])];
    InFlightSame(ts, us);
    SumSame(ts, us, IDLE);
    SumSame(ts, us, INSIDE);
  }

  lemma NextInv(cfg: Config, s: State, step: Step)
    requires Inv(cfg, s, 0) && Enabled(s, step)
    ensures Inv(cfg, Next(cfg, s, step), 0)
  {
    hide Inv, Next;
    match step
    case Add(checks, wake) => AddInv(cfg, s, checks, wake);
    case Enter(t) => EnterInv(cfg, s, t);
    case Execute(t) => ExecuteInv(cfg, s, t);
    case Report(t) => ReportInv(cfg, s, t);
    case Wake(t) => WakeInv(cfg, s, t);
  }

  // ---------------------------------------------------------------------------
  // Whole runs
  // ---------------------------------------------------------------------------

  /** A run: an initial state followed by the result of one enabled step after another. */
  predicate IsRun(cfg: Config, states: seq<State>, steps: seq<Step>) {
    && |states| == |steps| + 1 && Init(states[0])
    && forall i :: 0 <= i < |steps| ==> IsStep(cfg, states[i], steps[i], states[i + 1])
  }

  predicate IsStep(cfg: Config, s: State, step: Step, s': State) {
    Enabled(s, step) && s' == Next(cfg, s, step)
  }

  lemma {:induction false} RunInv(cfg: Config, states: seq<State>, steps: seq<Step>, i: nat)
    requires IsRun(cfg, states, steps) && i < |states|
    ensures Inv(cfg, states[i], 0)
  {
    hide Inv, Next, Enabled, Init;
    if i == 0 {
      InitInv(cfg, states[0]);
    } else {
      RunInv(cfg, states, steps, i - 1);
      assert IsStep(cfg, states[i - 1], steps[i - 1], states[i]);
      NextInv(cfg, states[i - 1], steps[i - 1]);
    }
  }

  /**
   In every interleaving: nTodo is what is queued plus what is in unreported batches, and each
   finished Wait returned true exactly when all the checks of its own round pass.
   */
  lemma QueueIsCorrect(cfg: Config, states: seq<State>, steps: seq<Step>, i: nat)
    requires IsRun(cfg, states, steps) && i < |states|
    ensures states[i].nTodo == |states[i].queue| + |InFlight(states[i].threads)|
    ensures states[i].nTotal + states[i].nIdle + 1 > 0
    ensures forall r :: r in states[i].rounds ==> r.result == forall c :: c in r.checks ==> cfg.passes(c)
  {
    RunInv(cfg, states, steps, i);
    SumNonNegative(states[i].threads, IDLE);
    SumNonNegative(states[i].threads, INSIDE);
    forall r | r in states[i].rounds ensures r.result == AllPass(cfg, r.checks) {
      var k :| 0 <= k < |states[i].rounds| && states[i].rounds[k] == r;
    }
  }

  /** No verdict leaks: when a Wait returns, the round it judged is exactly what was added. */
  lemma WaitReturns(cfg: Config, s: State, step: Step)
    requires Inv(cfg, s, 0) && Enabled(s, step)
    requires |Next(cfg, s, step).rounds| > |s.rounds|
    ensures var s' := Next(cfg, s, step);
            && s'.rounds == s.rounds + [Round(s.added, AllPass(cfg, s.added))]
            && s'.queue == [] && s'.nTodo == 0 && s'.allOk
            && s'.added == multiset{} && s'.reported == multiset{} && InFlight(s'.threads) == multiset{}
  {
    hide Inv, Acquire, RoundsOk, InFlight;
    var s' := Next(cfg, s, step);
    NextInv(cfg, s, step);
    LastRound(cfg, s');
    match step
    case Add(_, _) =>
    case Execute(_) =>
    case Enter(t) => AcquireEndsRound(cfg, s.(nTotal := s.nTotal + 1), t);
    case Report(t) => AcquireEndsRound(cfg, NotifyMaster(HandIn(s, t), t), t);
    case Wake(t) => AcquireEndsRound(cfg, s.(nIdle := s.nIdle - 1), t);
  }

  lemma AcquireEndsRound(cfg: Config, s: State, t: nat)
    requires t < |s.threads|
    ensures var s' := Acquire(cfg, s, t);
            s'.rounds == s.rounds ||
            (s'.rounds == s.rounds + [Round(s.added, s.allOk)] && s'.queue == [] && s'.nTodo == 0 &&
             s'.allOk && s'.added == multiset{} && s'.reported == multiset{})
  {
    hide BatchOf;
  }

  lemma LastRound(cfg: Config, s: State)
    requires Inv(cfg, s, 0) && s.rounds != []
    ensures s.rounds[|s.rounds| - 1].result == AllPass(cfg, s.rounds[|s.rounds| - 1].checks)
    ensures s.queue == [] && s.nTodo == 0 ==> InFlight(s.threads) == multiset{}
  {
    hide Sum, InFlight, AllPass;
  }

  // ---------------------------------------------------------------------------
  // Progress: a Wait cannot get stuck, and it ends
  // ---------------------------------------------------------------------------

  /** A step that needs neither new checks nor a spurious wake-up. */
  predicate Productive(s: State, step: Step) {
    Enabled(s, step) && !step.Add? && (step.Wake? ==> s.threads[step.t].notified)
  }

  /** While the master waits for the result, some thread is running or about to run. */
  lemma NoDeadlock(cfg: Config, s: State) returns (step: Step)
    requires Inv(cfg, s, 0) && !s.threads[0].Outside?
    ensures Productive(s, step) && !step.Enter?
  {
    if s.threads[0].Waiting? && !s.threads[0].notified {
      if forall t :: 0 <= t < |s.threads| ==> !s.threads[t].Working? {
        NothingInFlight(s.threads);
        assert false;
      }
      var t :| 0 <= t < |s.threads| && s.threads[t].Working?;
      step := RunThread(cfg, s, t);
    } else if s.threads[0].Working? {
      step := RunThread(cfg, s, 0);
    } else {
      step := Wake(0);
    }
  }

  lemma RunThread(cfg: Config, s: State, t: nat) returns (step: Step)
    requires ThreadsOk(cfg, s) && t < |s.threads| && s.threads[t].Working?
    ensures Productive(s, step) && !step.Enter?
  {
    assert ThreadOk(cfg, s.added, s.threads[t]);
    step := if s.threads[t].done < |s.threads[t].batch| then Execute(t) else Report(t);
  }

  const WEIGHT: Thread -> int := (th: Thread) =>
    match th
    case Outside => 4
    case Working(batch, done, _) => if done <= |batch| then |batch| - done + 3 else 0
    case Waiting(notified) => if notified then 1 else 0

  /** An upper bound on the steps that are left in a round. */
  function Work(s: State): int {
    6 * |s.queue| + Sum(s.threads, WEIGHT)
  }

  lemma WorkNonNegative(s: State)
    ensures Work(s) >= 0
  {
    SumNonNegative(s.threads, WEIGHT);
  }

  lemma AcquireWork(cfg: Config, s: State, t: nat)
    requires t < |s.threads| && (s.queue == [] ==> t != 0 || s.nTodo != 0)
    ensures Work(Acquire(cfg, s, t)) <= Work(s) - WEIGHT(s.threads[t])
  {
    hide Sum, BatchOf;
    SumUpdate(s.threads, t, Acquire(cfg, s, t).threads[t], WEIGHT);
  }

  /** Every productive step that does not end the round uses up some of the bound. */
  lemma ProductiveStepsDecrease(cfg: Config, s: State, step: Step)
    requires Inv(cfg, s, 0) && Productive(s, step)
    requires Next(cfg, s, step).rounds == s.rounds
    ensures Work(Next(cfg, s, step)) < Work(s)
  {
    hide Sum, BatchOf, InFlight, AllPass;
    var s' := Next(cfg, s, step);
    match step
    case Add(_, _) =>
    case Enter(t) => AcquireWork(cfg, s.(nTotal := s.nTotal + 1), t);
    case Execute(t) => SumUpdate(s.threads, t, s'.threads[t], WEIGHT);
    case Wake(t) => AcquireWork(cfg, s.(nIdle := s.nIdle - 1), t);
    case Report(t) => ReportWork(cfg, s, t);
  }

  lemma ReportWork(cfg: Config, s: State, t: nat)
    requires Inv(cfg, s, 0) && Enabled(s, Report(t)) && Next(cfg, s, Report(t)).rounds == s.rounds
    ensures Work(Next(cfg, s, Report(t))) < Work(s)
  {
    hide Sum, BatchOf, InFlight, AllPass, Inv;
    var handed := HandIn(s, t);
    SumUpdate(s.threads, 0, Notify(s.threads[0]), WEIGHT);
    AcquireWork(cfg, NotifyMaster(handed, t), t);
  }

  /** A spurious wake-up never adds work. */
  lemma SpuriousWakeIsHarmless(cfg: Config, s: State, t: nat)
    requires Inv(cfg, s, 0) && Enabled(s, Wake(t)) && Next(cfg, s, Wake(t)).rounds == s.rounds
    ensures Work(Next(cfg, s, Wake(t))) <= Work(s)
  {
    hide Sum, BatchOf, InFlight, AllPass;
    AcquireWork(cfg, s.(nIdle := s.nIdle - 1), t);
  }

  /** The number of productive steps of a run. */
  function Useful(states: seq<State>, steps: seq<Step>): nat
    requires |states| == |steps| + 1
  {
    if steps == [] then 0 else (if Productive(states[0], steps[0]) then 1 else 0) + Useful(states[1..], steps[1..])
  }

  /**
   However the threads are scheduled and however often they wake up for nothing, a round to which
   nothing is added any more is over within Work(s) productive steps.
   */
  lemma {:induction false} WaitTerminates(cfg: Config, states: seq<State>, steps: seq<Step>)
    requires |states| == |steps| + 1 && Inv(cfg, states[0], 0)
    requires forall i :: 0 <= i < |steps| ==> IsStep(cfg, states[i], steps[i], states[i + 1]) && !steps[i].Add?
    requires forall i :: 0 <= i < |states| ==> states[i].rounds == states[0].rounds
    ensures Useful(states, steps) <= Work(states[0])
    decreases |steps|
  {
    hide Inv, Next, Work;
    WorkNonNegative(states[0]);
    if |steps| > 0 {
      assert IsStep(cfg, states[0], steps[0], states[1]);
      NextInv(cfg, states[0], steps[0]);
      if Productive(states[0], steps[0]) {
        ProductiveStepsDecrease(cfg, states[0], steps[0]);
      } else {
        SpuriousWakeIsHarmless(cfg, states[0], steps[0].t);
      }
      WaitTerminates(cfg, states[1..], steps[1..]);
    }
  }
}
