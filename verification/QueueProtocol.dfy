/** FreeRTOS/Source/queue.c: how tasks block on a queue and are woken again, as a state
    machine. Each step is one critical section (or one piece of code during which only
    interrupts can run); every interleaving of tasks and interrupts is a run. */
module QueueProtocol {

  type Task = nat

  /** The blocking calls: xQueueGenericSend (overwriting or not), xQueueGenericReceive (peeking or not). */
  datatype Call = Send(overwrite: bool) | Receive(peek: bool)

  /** Where a task is inside a call. */
  datatype Pc =
    | Idle
    | Trying(call: Call)                     // at the top of the loop
    | Blocking(call: Call)                   // could not proceed; before vTaskSuspendAll
    | Suspended(call: Call)                  // scheduler suspended; before prvLockQueue
    | Locked(call: Call)                     // before the timeout and emptiness checks
    | Seen(call: Call)                       // saw an empty (full) queue; before joining the event list
    | UnlockTx(call: Call, giveUp: bool)     // first half of prvUnlockQueue
    | UnlockRx(call: Call, giveUp: bool)     // second half
    | Resuming(call: Call, giveUp: bool)     // before xTaskResumeAll

  /** `woken*` are the tasks taken off an event list by a queue event that have not yet retried. */
  datatype State = State(length: nat, items: nat, txLock: int, rxLock: int, owner: int,
                         waitRx: seq<Task>, waitTx: seq<Task>, wokenRx: set<Task>, wokenTx: set<Task>,
                         pcs: map<Task, Pc>)

  const UNLOCKED: int := -1
  const NOBODY: int := -1

  datatype Step =
    | Begin(t: Task, call: Call)
    | Try(t: Task, wait: bool)               // `wait`: a block time is left
    | Suspend(t: Task)
    | Lock(t: Task)
    | Check(t: Task, expired: bool)
    | Place(t: Task, at: nat)                // joins the event list at its priority position
    | DrainTx(t: Task)
    | DrainRx(t: Task)
    | Resume(t: Task)
    | Expire(sending: bool, at: nat)         // the tick interrupt ends the wait of that task on the list
    | IsrSend(overwrite: bool)
    | IsrReceive

  function PcOf(s: State, t: Task): Pc { if t in s.pcs then s.pcs[t] else Idle }
  function Goto(s: State, t: Task, pc: Pc): State { s.(pcs := s.pcs[t := pc]) }
  function Min(a: int, b: int): int { if a < b then a else b }
  function Pos(a: int): nat { if a > 0 then a else 0 }

  // ---------------------------------------------------------------- wake-ups

  /** Tasks woken once the first `k` waiters have been. */
  function Woke(woken: set<Task>, waiting: seq<Task>, k: nat): set<Task>
    requires k <= |waiting|
  {
    if k == 0 then woken else Woke(woken, waiting, k - 1) + {waiting[k - 1]}
  }

  /** xTaskRemoveFromEventList on the first `n` receivers waiting, or all of them. */
  function WakeRx(s: State, n: nat): State {
    var k := Min(n, |s.waitRx|);
    s.(waitRx := s.waitRx[k..], wokenRx := Woke(s.wokenRx, s.waitRx, k))
  }

  function WakeTx(s: State, n: nat): State {
    var k := Min(n, |s.waitTx|);
    s.(waitTx := s.waitTx[k..], wokenTx := Woke(s.wokenTx, s.waitTx, k))
  }

  function Without(q: seq<Task>, at: nat): seq<Task>
    requires at < |q|
  {
    q[..at] + q[at + 1..]
  }

  // ------------------------------------------------------------------- steps

  predicate CanSend(s: State, overwrite: bool) { s.items < s.length || overwrite }

  /** prvCopyDataToQueue, as far as the number of items goes. */
  function AddItem(s: State, overwrite: bool): State {
    s.(items := if overwrite && s.items > 0 then s.items else s.items + 1)
  }

  /** The critical section at the top of the retry loop. */
  function Attempt(s0: State, t: Task, wait: bool): State
    requires PcOf(s0, t).Trying?
  {
    var call := PcOf(s0, t).call;
    var s := s0.(wokenRx := s0.wokenRx - {t}, wokenTx := s0.wokenTx - {t});
    var missed := Goto(s, t, if wait then Blocking(call) else Idle);
    match call
    case Send(overwrite) => if CanSend(s, overwrite) then WakeRx(AddItem(Goto(s, t, Idle), overwrite), 1) else missed
    case Receive(peek) =>
      if s.items > 0 then
        if peek then WakeRx(Goto(s, t, Idle), 1) else WakeTx(Goto(s, t, Idle).(items := s.items - 1), 1)
      else missed
  }

  predicate MustWait(s: State, call: Call) {
    if call.Send? then s.items == s.length else s.items == 0
  }

  predicate Enabled(s: State, step: Step) {
    match step
    case Begin(t, call) => s.owner == NOBODY && PcOf(s, t).Idle? && (call == Send(true) ==> s.length == 1)
    case Try(t, _) => s.owner == NOBODY && PcOf(s, t).Trying? && t !in s.waitRx && t !in s.waitTx
    case Suspend(t) => s.owner == NOBODY && PcOf(s, t).Blocking?
    case Lock(t) => PcOf(s, t).Suspended?
    case Check(t, _) => PcOf(s, t).Locked?
    case Place(t, at) => PcOf(s, t).Seen? && at <= |if PcOf(s, t).call.Send? then s.waitTx else s.waitRx|
    case DrainTx(t) => PcOf(s, t).UnlockTx?
    case DrainRx(t) => PcOf(s, t).UnlockRx?
    case Resume(t) => PcOf(s, t).Resuming?
    case Expire(sending, at) => s.owner == NOBODY && at < |if sending then s.waitTx else s.waitRx|
    case IsrSend(overwrite) => overwrite ==> s.length == 1
    case IsrReceive => true
  }

  function Apply(s: State, step: Step): State
    requires Enabled(s, step)
  {
    match step
    case Begin(t, call) => Goto(s, t, Trying(call))
    case Try(t, wait) => Attempt(s, t, wait)
    case Suspend(t) => Goto(s, t, Suspended(PcOf(s, t).call)).(owner := t)
    case Lock(t) =>
      Goto(s, t, Locked(PcOf(s, t).call)).(rxLock := if s.rxLock == UNLOCKED then 0 else s.rxLock,
                                           txLock := if s.txLock == UNLOCKED then 0 else s.txLock)
    case Check(t, expired) =>
      var call := PcOf(s, t).call;
      Goto(s, t, if !expired && MustWait(s, call) then Seen(call) else UnlockTx(call, expired))
    case Place(t, at) =>
      var call := PcOf(s, t).call;
      var s1 := Goto(s, t, UnlockTx(call, false));
      if call.Send? then s1.(waitTx := s.waitTx[..at] + [t] + s.waitTx[at..])
      else s1.(waitRx := s.waitRx[..at] + [t] + s.waitRx[at..])
    case DrainTx(t) =>
      var pc := PcOf(s, t);
      WakeRx(Goto(s, t, UnlockRx(pc.call, pc.giveUp)), Pos(s.txLock)).(txLock := UNLOCKED)
    case DrainRx(t) =>
      var pc := PcOf(s, t);
      WakeTx(Goto(s, t, Resuming(pc.call, pc.giveUp)), Pos(s.rxLock)).(rxLock := UNLOCKED)
    case Resume(t) => Goto(s, t, if PcOf(s, t).giveUp then Idle else Trying(PcOf(s, t).call)).(owner := NOBODY)
    case Expire(sending, at) =>
      if sending then s.(waitTx := Without(s.waitTx, at)) else s.(waitRx := Without(s.waitRx, at))
    case IsrSend(overwrite) =>
      if !CanSend(s, overwrite) then s
      else if s.txLock == UNLOCKED then WakeRx(AddItem(s, overwrite), 1)
      else AddItem(s, overwrite).(txLock := s.txLock + 1)
    case IsrReceive =>
      if s.items == 0 then s
      else if s.rxLock == UNLOCKED then WakeTx(s.(items := s.items - 1), 1)
      else s.(items := s.items - 1, rxLock := s.rxLock + 1)
  }

  /** The loops of prvUnlockQueue: one waiter per recorded event, until there are none left of
      either. */
  method DrainLock(lock: int, waiting: seq<Task>) returns (woken: seq<Task>, rest: seq<Task>, unlocked: int)
    ensures unlocked == UNLOCKED
    ensures var k := Min(Pos(lock), |waiting|); woken == waiting[..k] && rest == waiting[k..]
  {
    woken, rest, unlocked := [], waiting, lock;
    while unlocked > 0
      invariant waiting == woken + rest && |woken| + Pos(unlocked) == Pos(lock)
      decreases unlocked
    {
      if rest == [] {
        break;
      }
      woken, rest := woken + [rest[0]], rest[1..];
      unlocked := unlocked - 1;
    }
    unlocked := UNLOCKED;
  }

  /** prvUnlockQueue as the task holding the scheduler runs it, when no interrupt comes between
      its two critical sections: the two drain steps of the state machine. */
  method UnlockQueue(s: State, t: Task) returns (r: State)
    requires Enabled(s, DrainTx(t))
    ensures r == Apply(Apply(s, DrainTx(t)), DrainRx(t))
  {
    var pc := PcOf(s, t);
    var woken, rest, unlocked := DrainLock(s.txLock, s.waitRx);
    WokeIs(s.waitRx, s.wokenRx, Min(Pos(s.txLock), |s.waitRx|));
    r := Goto(s, t, UnlockRx(pc.call, pc.giveUp));
    r := r.(txLock := unlocked, waitRx := rest, wokenRx := s.wokenRx + (set x | x in woken));
    woken, rest, unlocked := DrainLock(s.rxLock, s.waitTx);
    WokeIs(s.waitTx, s.wokenTx, Min(Pos(s.rxLock), |s.waitTx|));
    r := Goto(r, t, Resuming(pc.call, pc.giveUp));
    r := r.(rxLock := unlocked, waitTx := rest, wokenTx := s.wokenTx + (set x | x in woken));
  }

  // --------------------------------------------------------------- invariant

  predicate Holding(pc: Pc) {
    pc.Suspended? || pc.Locked? || pc.Seen? || pc.UnlockTx? || pc.UnlockRx? || pc.Resuming?
  }

  /** A call of this kind that can block; an overwriting send always succeeds. */
  predicate CanBlock(call: Call, sending: bool) { if sending then call == Send(false) else call.Receive? }

  /** The task may sit on an event list for this kind of call. */
  predicate MayWait(pc: Pc, sending: bool) {
    match pc
    case Trying(call) => CanBlock(call, sending)
    case UnlockTx(call, giveUp) => CanBlock(call, sending) && !giveUp
    case UnlockRx(call, giveUp) => CanBlock(call, sending) && !giveUp
    case Resuming(call, giveUp) => CanBlock(call, sending) && !giveUp
    case _ => false
  }

  predicate Distinct(s: seq<Task>) { forall i, j :: 0 <= i < j < |s| ==> s[i] != s[j] }

  /** An overwriting send never gets past the top of the loop. */
  predicate MayBlock(pc: Pc) { pc.Idle? || pc.Trying? || pc.call != Send(true) }

  predicate Ownership(s: State) {
    && (forall t :: t in s.pcs ==> (Holding(s.pcs[t]) <==> s.owner == t) && MayBlock(s.pcs[t]))
    && (s.owner != NOBODY ==> s.owner >= 0 && s.owner in s.pcs)
  }

  predicate Locks(s: State) {
    && s.txLock >= -1 && s.rxLock >= -1
    && (s.txLock >= 0 ==> s.owner >= 0 && (var pc := PcOf(s, s.owner); pc.Locked? || pc.Seen? || pc.UnlockTx?))
    && (s.rxLock >= 0 ==>
        s.owner >= 0 && (var pc := PcOf(s, s.owner); pc.Locked? || pc.Seen? || pc.UnlockTx? || pc.UnlockRx?))
    && (s.owner >= 0 && (PcOf(s, s.owner).Locked? || PcOf(s, s.owner).Seen?) ==> s.txLock >= 0 && s.rxLock >= 0)
  }

  /** One event list: its tasks are distinct, inside a call of the right kind, and not yet woken. */
  predicate Side(waiting: seq<Task>, woken: set<Task>, pcs: map<Task, Pc>, sending: bool) {
    && Distinct(waiting)
    && (forall t :: t in waiting ==> t in pcs && MayWait(pcs[t], sending) && t !in woken)
    && (forall t :: t in woken ==> t in pcs && MayWait(pcs[t], sending))
  }

  predicate Waiters(s: State) {
    Side(s.waitRx, s.wokenRx, s.pcs, false) && Side(s.waitTx, s.wokenTx, s.pcs, true)
  }

  /** The wake-up accounting. Receivers: while one waits, every item is matched by a woken
      receiver yet to retry or by an event recorded under lock; and a receiver that has seen the
      queue empty will find every item that arrived since recorded. Senders, dually, for free slots. */
  predicate Accounted(s: State) {
    && s.items <= s.length && s.length >= 1
    && (s.waitRx != [] ==> s.items <= |s.wokenRx| + Pos(s.txLock))
    && (s.waitTx != [] ==> s.length - s.items <= |s.wokenTx| + Pos(s.rxLock))
    && (s.owner >= 0 && PcOf(s, s.owner).Seen? ==>
          if PcOf(s, s.owner).call.Send? then s.length - s.items <= Pos(s.rxLock) else s.items <= Pos(s.txLock))
  }

  predicate Inv(s: State) { Ownership(s) && Locks(s) && Waiters(s) && Accounted(s) }

  /** A queue fresh from xQueueGenericCreate. */
  predicate Created(s: State) {
    && s.length >= 1 && s.items == 0 && s.txLock == UNLOCKED && s.rxLock == UNLOCKED && s.owner == NOBODY
    && s.waitRx == [] && s.waitTx == [] && s.wokenRx == {} && s.wokenTx == {} && s.pcs == map[]
  }

  // ------------------------------------------------------- every step keeps it

  /** The woken tasks are those woken before and the first `k` waiters. */
  lemma {:induction false} WokeIs(waiting: seq<Task>, woken: set<Task>, k: nat)
    requires k <= |waiting|
    ensures Woke(woken, waiting, k) == woken + (set t | t in waiting[..k])
  {
    if k > 0 {
      WokeIs(waiting, woken, k - 1);
      assert waiting[..k] == waiting[..k - 1] + [waiting[k - 1]];
    }
  }

  /** The next waiter has not been woken yet. */
  lemma {:induction false} NextSleeps(waiting: seq<Task>, woken: set<Task>, k: nat)
    requires Distinct(waiting) && k < |waiting| && waiting[k] !in woken
    ensures waiting[k] !in Woke(woken, waiting, k)
  {
    WokeIs(waiting, woken, k);
    assert forall i :: 0 <= i < k ==> waiting[..k][i] == waiting[i];
  }

  lemma {:induction false} WokeCount(waiting: seq<Task>, woken: set<Task>, k: nat)
    requires Distinct(waiting) && k <= |waiting| && (forall i :: 0 <= i < |waiting| ==> waiting[i] !in woken)
    ensures |Woke(woken, waiting, k)| == |woken| + k
  {
    if k > 0 {
      WokeCount(waiting, woken, k - 1);
      NextSleeps(waiting, woken, k - 1);
    }
  }

  lemma {:induction false} SideWake(waiting: seq<Task>, woken: set<Task>, pcs: map<Task, Pc>, sending: bool, k: nat)
    requires Side(waiting, woken, pcs, sending) && k <= |waiting|
    ensures Side(waiting[k..], Woke(woken, waiting, k), pcs, sending)
    ensures |Woke(woken, waiting, k)| == |woken| + k
  {
    var head, rest := waiting[..k], waiting[k..];
    WokeIs(waiting, woken, k);
    WokeCount(waiting, woken, k);
    forall t | t in head ensures t in waiting {
    }
    forall t | t in rest ensures t in waiting && t !in head {
      var i :| 0 <= i < |rest| && rest[i] == t;
      assert waiting[k + i] == t;
    }
  }

  lemma {:induction false} SideGoto(waiting: seq<Task>, woken: set<Task>, pcs: map<Task, Pc>, sending: bool, t: Task,
                                    pc: Pc)
    requires Side(waiting, woken, pcs, sending)
    requires MayWait(pc, sending) || (t !in waiting && t !in woken)
    ensures Side(waiting, woken, pcs[t := pc], sending)
  {
  }

  lemma {:induction false} SideRetry(waiting: seq<Task>, woken: set<Task>, pcs: map<Task, Pc>, sending: bool, t: Task,
                                     pc: Pc)
    requires Side(waiting, woken, pcs, sending) && t !in waiting
    ensures Side(waiting, woken - {t}, pcs[t := pc], sending)
    ensures (t in pcs && MayWait(pcs[t], sending)) || woken - {t} == woken
    ensures |woken - {t}| >= |woken| - 1
  {
  }

  lemma {:induction false} SidePlace(waiting: seq<Task>, woken: set<Task>, pcs: map<Task, Pc>, sending: bool, t: Task,
                                     at: nat)
    requires Side(waiting, woken, pcs, sending) && at <= |waiting|
    requires t in pcs && MayWait(pcs[t], sending) && t !in waiting && t !in woken
    ensures Side(waiting[..at] + [t] + waiting[at..], woken, pcs, sending)
  {
    var q := waiting[..at] + [t] + waiting[at..];
    assert forall i :: 0 <= i < |q| ==> q[i] == if i < at then waiting[i] else if i == at then t else waiting[i - 1];
  }

  lemma {:induction false} SideWithout(waiting: seq<Task>, woken: set<Task>, pcs: map<Task, Pc>, sending: bool, at: nat)
    requires Side(waiting, woken, pcs, sending) && at < |waiting|
    ensures Side(Without(waiting, at), woken, pcs, sending)
  {
    var q := Without(waiting, at);
    assert forall i :: 0 <= i < |q| ==> q[i] == waiting[if i < at then i else i + 1];
  }

  /** A task outside a waiting call is on no list and not woken. */
  lemma {:induction false} NotInvolved(s: State, t: Task)
    requires Waiters(s) && !MayWait(PcOf(s, t), true) && !MayWait(PcOf(s, t), false)
    ensures t !in s.waitRx && t !in s.waitTx && t !in s.wokenRx && t !in s.wokenTx
  {
  }

  /** What waking `n` receivers (senders) does to the list of the woken. */
  lemma {:induction false} WakeKeeps(s: State, n: nat)
    requires Waiters(s)
    ensures var r := WakeRx(s, n); Waiters(r) && |r.wokenRx| == |s.wokenRx| + Min(n, |s.waitRx|)
    ensures var r := WakeTx(s, n); Waiters(r) && |r.wokenTx| == |s.wokenTx| + Min(n, |s.waitTx|)
  {
    SideWake(s.waitRx, s.wokenRx, s.pcs, false, Min(n, |s.waitRx|));
    SideWake(s.waitTx, s.wokenTx, s.pcs, true, Min(n, |s.waitTx|));
  }

  lemma {:induction false} GotoKeeps(s: State, t: Task, pc: Pc)
    requires Waiters(s)
    requires forall sending {:trigger MayWait(pc, sending)} :: MayWait(PcOf(s, t), sending) ==> MayWait(pc, sending)
    ensures Waiters(Goto(s, t, pc))
  {
    assert MayWait(pc, true) || !MayWait(PcOf(s, t), true);
    assert MayWait(pc, false) || !MayWait(PcOf(s, t), false);
    SideGoto(s.waitRx, s.wokenRx, s.pcs, false, t, pc);
    SideGoto(s.waitTx, s.wokenTx, s.pcs, true, t, pc);
  }

  /** The retry takes the task off the woken list it may have been on. */
  function Retried(s: State, t: Task, pc: Pc): State {
    Goto(s, t, pc).(wokenRx := s.wokenRx - {t}, wokenTx := s.wokenTx - {t})
  }

  lemma {:induction false} RetryKeeps(s: State, t: Task, pc: Pc)
    requires Waiters(s) && PcOf(s, t).Trying? && t !in s.waitRx && t !in s.waitTx
    ensures var r := Retried(s, t, pc);
            && Waiters(r)
            && |r.wokenRx| >= |s.wokenRx| - (if PcOf(s, t).call.Receive? then 1 else 0)
            && |r.wokenTx| >= |s.wokenTx| - (if PcOf(s, t).call == Send(false) then 1 else 0)
  {
    SideRetry(s.waitRx, s.wokenRx, s.pcs, false, t, pc);
    SideRetry(s.waitTx, s.wokenTx, s.pcs, true, t, pc);
  }

  // Control: who holds the scheduler, and the lock counts that go with it.

  lemma {:induction false} MoveControl(s: State, step: Step)
    requires Ownership(s) && Locks(s) && Enabled(s, step)
    requires step.Begin? || step.Suspend? || step.Lock? || step.Check? || step.Place?
    ensures Ownership(Apply(s, step)) && Locks(Apply(s, step))
  {
  }

  lemma {:induction false} DrainControl(s: State, step: Step)
    requires Ownership(s) && Locks(s) && Enabled(s, step)
    requires step.DrainTx? || step.DrainRx? || step.Resume?
    ensures Ownership(Apply(s, step)) && Locks(Apply(s, step))
  {
  }

  lemma {:induction false} ControlKeeps(s: State, step: Step)
    requires Ownership(s) && Locks(s) && Enabled(s, step)
    ensures Ownership(Apply(s, step)) && Locks(Apply(s, step))
  {
    if step.DrainTx? || step.DrainRx? || step.Resume? {
      DrainControl(s, step);
    } else if step.Begin? || step.Suspend? || step.Lock? || step.Check? || step.Place? {
      MoveControl(s, step);
    }
  }

  // The event lists.

  lemma {:induction false} TryWaiters(s: State, t: Task, wait: bool)
    requires Waiters(s) && Enabled(s, Try(t, wait))
    ensures Waiters(Attempt(s, t, wait))
    ensures Counts(s, t, wait)
  {
    var call := PcOf(s, t).call;
    RetryKeeps(s, t, Idle);
    RetryKeeps(s, t, Blocking(call));
    WakeKeeps(Retried(s, t, Idle), 1);
  }

  /** How a retry changes the number of woken tasks. */
  predicate Counts(s: State, t: Task, wait: bool)
    requires PcOf(s, t).Trying?
  {
    var call, s' := PcOf(s, t).call, Attempt(s, t, wait);
    var rx, tx := if call.Receive? then 1 else 0, if call == Send(false) then 1 else 0;
    var wakesRx := if call.Send? then CanSend(s, call.overwrite) else call.peek && s.items > 0;
    var wakesTx := call.Receive? && !call.peek && s.items > 0;
    && |s'.wokenRx| >= |s.wokenRx| - rx + (if wakesRx && s.waitRx != [] then 1 else 0)
    && |s'.wokenTx| >= |s.wokenTx| - tx + (if wakesTx && s.waitTx != [] then 1 else 0)
  }

  lemma {:induction false} PlaceWaiters(s: State, t: Task, at: nat)
    requires Ownership(s) && Waiters(s) && Enabled(s, Place(t, at))
    ensures Waiters(Apply(s, Place(t, at)))
  {
    var call := PcOf(s, t).call;
    NotInvolved(s, t);
    GotoKeeps(s, t, UnlockTx(call, false));
    var s1 := Goto(s, t, UnlockTx(call, false));
    if call.Send? {
      SidePlace(s.waitTx, s.wokenTx, s1.pcs, true, t, at);
    } else {
      SidePlace(s.waitRx, s.wokenRx, s1.pcs, false, t, at);
    }
  }

  lemma {:induction false} MoveWaiters(s: State, step: Step)
    requires Waiters(s) && Enabled(s, step)
    requires step.Begin? || step.Suspend? || step.Lock? || step.Check? || step.Resume?
    ensures Waiters(Apply(s, step))
  {
    GotoKeeps(s, step.t, PcOf(Apply(s, step), step.t));
  }

  // The accounting.

  lemma {:induction false} TryAccounted(s: State, t: Task, wait: bool)
    requires Ownership(s) && Accounted(s) && Enabled(s, Try(t, wait)) && Counts(s, t, wait)
    ensures Accounted(Attempt(s, t, wait))
  {
  }

  lemma {:induction false} IsrAccounted(s: State, step: Step)
    requires Locks(s) && Accounted(s) && Enabled(s, step) && (step.IsrSend? || step.IsrReceive?)
    requires |WakeRx(s, 1).wokenRx| == |s.wokenRx| + Min(1, |s.waitRx|)
    requires |WakeTx(s, 1).wokenTx| == |s.wokenTx| + Min(1, |s.waitTx|)
    ensures Accounted(Apply(s, step))
  {
  }

  lemma {:induction false} DrainTxAccounted(s: State, t: Task)
    requires Ownership(s) && Locks(s) && Accounted(s) && Enabled(s, DrainTx(t))
    requires |WakeRx(s, Pos(s.txLock)).wokenRx| == |s.wokenRx| + Min(Pos(s.txLock), |s.waitRx|)
    ensures Accounted(Apply(s, DrainTx(t)))
  {
    var s' := Apply(s, DrainTx(t));
    assert |s'.waitRx| == |s.waitRx| - Min(Pos(s.txLock), |s.waitRx|);
    assert s'.wokenRx == WakeRx(s, Pos(s.txLock)).wokenRx;
  }

  lemma {:induction false} DrainRxAccounted(s: State, t: Task)
    requires Ownership(s) && Locks(s) && Accounted(s) && Enabled(s, DrainRx(t))
    requires |WakeTx(s, Pos(s.rxLock)).wokenTx| == |s.wokenTx| + Min(Pos(s.rxLock), |s.waitTx|)
    ensures Accounted(Apply(s, DrainRx(t)))
  {
    var s' := Apply(s, DrainRx(t));
    assert |s'.waitTx| == |s.waitTx| - Min(Pos(s.rxLock), |s.waitTx|);
    assert s'.wokenTx == WakeTx(s, Pos(s.rxLock)).wokenTx;
  }

  lemma {:induction false} MoveAccounted(s: State, step: Step)
    requires Ownership(s) && Locks(s) && Accounted(s) && Enabled(s, step)
    requires step.Begin? || step.Suspend? || step.Lock? || step.Check? || step.Resume? || step.Place?
    ensures Accounted(Apply(s, step))
  {
  }

  lemma {:induction false} TryInv(s: State, t: Task, wait: bool)
    requires Inv(s) && Enabled(s, Try(t, wait))
    ensures Waiters(Attempt(s, t, wait)) && Accounted(Attempt(s, t, wait))
  {
    TryWaiters(s, t, wait);
    TryAccounted(s, t, wait);
  }

  lemma {:induction false} IsrInv(s: State, step: Step)
    requires Inv(s) && Enabled(s, step) && (step.IsrSend? || step.IsrReceive?)
    ensures Waiters(Apply(s, step)) && Accounted(Apply(s, step))
  {
    WakeKeeps(s, 1);
    IsrAccounted(s, step);
  }

  lemma {:induction false} DrainTxInv(s: State, t: Task)
    requires Inv(s) && Enabled(s, DrainTx(t))
    ensures Waiters(Apply(s, DrainTx(t))) && Accounted(Apply(s, DrainTx(t)))
  {
    var pc := PcOf(s, t);
    WakeKeeps(s, Pos(s.txLock));
    DrainTxAccounted(s, t);
    GotoKeeps(s, t, UnlockRx(pc.call, pc.giveUp));
    WakeKeeps(Goto(s, t, UnlockRx(pc.call, pc.giveUp)), Pos(s.txLock));
  }

  lemma {:induction false} DrainRxInv(s: State, t: Task)
    requires Inv(s) && Enabled(s, DrainRx(t))
    ensures Waiters(Apply(s, DrainRx(t))) && Accounted(Apply(s, DrainRx(t)))
  {
    var pc := PcOf(s, t);
    WakeKeeps(s, Pos(s.rxLock));
    DrainRxAccounted(s, t);
    GotoKeeps(s, t, Resuming(pc.call, pc.giveUp));
    WakeKeeps(Goto(s, t, Resuming(pc.call, pc.giveUp)), Pos(s.rxLock));
  }

  lemma {:induction false} ExpireInv(s: State, sending: bool, at: nat)
    requires Inv(s) && Enabled(s, Expire(sending, at))
    ensures Waiters(Apply(s, Expire(sending, at))) && Accounted(Apply(s, Expire(sending, at)))
  {
    SideWithout(if sending then s.waitTx else s.waitRx, if sending then s.wokenTx else s.wokenRx, s.pcs, sending, at);
  }

  /** Every step keeps the invariant. */
  lemma {:induction false} StepInv(s: State, step: Step)
    requires Inv(s) && Enabled(s, step)
    ensures Inv(Apply(s, step))
  {
    ControlKeeps(s, step);
    match step
    case Try(t, wait) => TryInv(s, t, wait);
    case IsrSend(_) => IsrInv(s, step);
    case IsrReceive => IsrInv(s, step);
    case DrainTx(t) => DrainTxInv(s, t);
    case DrainRx(t) => DrainRxInv(s, t);
    case Expire(sending, at) => ExpireInv(s, sending, at);
    case Place(t, at) =>
      PlaceWaiters(s, t, at);
      MoveAccounted(s, step);
    case _ =>
      MoveWaiters(s, step);
      MoveAccounted(s, step);
  }

  /** `steps` can be taken in order from `s` and lead to `s'`. */
  predicate Run(s: State, steps: seq<Step>, s': State)
    decreases |steps|
  {
    if steps == [] then s == s' else Enabled(s, steps[0]) && Run(Apply(s, steps[0]), steps[1..], s')
  }

  lemma {:induction false} RunInv(s: State, steps: seq<Step>, s': State)
    requires Inv(s) && Run(s, steps, s')
    ensures Inv(s')
    decreases |steps|
  {
    if steps != [] {
      StepInv(s, steps[0]);
      RunInv(Apply(s, steps[0]), steps[1..], s');
    }
  }

  /** No lost wake-up: in every run of tasks and interrupts, a receiver is left waiting only while
      each item is matched by a woken receiver or a recorded event; with nobody woken and the queue
      unlocked, the queue is empty. Dually a waiting sender then means a full queue. */
  lemma {:induction false} NoLostWakeUp(s: State, steps: seq<Step>, s': State)
    requires Created(s) && Run(s, steps, s')
    ensures s'.waitRx != [] ==> s'.items <= |s'.wokenRx| + Pos(s'.txLock)
    ensures s'.waitTx != [] ==> s'.length - s'.items <= |s'.wokenTx| + Pos(s'.rxLock)
    ensures s'.waitRx != [] && s'.wokenRx == {} && s'.txLock == UNLOCKED ==> s'.items == 0
    ensures s'.waitTx != [] && s'.wokenTx == {} && s'.rxLock == UNLOCKED ==> s'.items == s'.length
  {
    RunInv(s, steps, s');
  }

  /** When nothing is pending, receivers and senders never wait at the same time. */
  lemma {:induction false} NeverBothStuck(s: State, steps: seq<Step>, s': State)
    requires Created(s) && Run(s, steps, s')
    requires s'.owner == NOBODY && s'.wokenRx == {} && s'.wokenTx == {}
    ensures s'.waitRx == [] || s'.waitTx == []
  {
    RunInv(s, steps, s');
  }

  /** The queue is locked only by the one task that holds the scheduler, and a task on an event
      list is inside a call of that kind. */
  lemma {:induction false} LockedByOwner(s: State, steps: seq<Step>, s': State, t: Task)
    requires Created(s) && Run(s, steps, s')
    ensures s'.txLock != UNLOCKED || s'.rxLock != UNLOCKED ==> s'.owner >= 0 && Holding(PcOf(s', s'.owner))
    ensures Holding(PcOf(s', t)) ==> s'.owner == t
    ensures t in s'.waitRx ==> MayWait(PcOf(s', t), false) && t !in s'.waitTx
  {
    RunInv(s, steps, s');
  }
}
