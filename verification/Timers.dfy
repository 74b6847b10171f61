/** FreeRTOS/Source/timers.c: the timer service task. Tick counts wrap at `max`; beside them the
    model carries the unbounded time they stand for. `max` is portMAX_DELAY. */
module Timers {
  import opened Rings
  import Tasks
  import TaskLists

  type Timer = nat
  type Times = map<Timer, nat>

  // -------------------------------------------------- where a timer is to go

  datatype Verdict = Expired | ToOverflow | ToCurrent

  /** The decision of prvInsertTimerInActiveList, on wrapped tick counts. */
  function Decide(expiry: nat, now: nat, command: nat, period: nat, max: nat): Verdict {
    if expiry <= now then
      var elapsed := if now >= command then now - command else now + max + 1 - command;
      if elapsed >= period then Expired else ToOverflow
    else if now < command && expiry >= command then Expired
    else ToCurrent
  }

  /** Sum of two tick counts, as 2^W-bit arithmetic gives it. */
  function Plus(a: nat, b: nat, max: nat): nat { if a + b <= max then a + b else a + b - (max + 1) }

  /** With the command issued at unbounded time `c`, less than a full turn of the tick count before
      `now`, the decision is right: expired exactly when the unbounded expiry has been reached, and
      otherwise the list of the epoch the expiry falls in. */
  lemma {:induction false} DecidesRight(max: nat, epoch: nat, tick: nat, c: nat, v: nat, period: nat)
    requires tick <= max && v <= max && 1 <= period <= max
    requires c == epoch + v || c + max + 1 == epoch + v
    requires c <= epoch + tick && epoch + tick - c <= max
    ensures var d := Decide(Plus(v, period, max), tick, v, period, max);
            && (d == Expired <==> c + period <= epoch + tick)
            && (d == ToCurrent ==> c + period == epoch + Plus(v, period, max) > epoch + tick)
            && (d == ToOverflow ==> c + period == epoch + max + 1 + Plus(v, period, max))
  {
  }

  /** The tick count at an unbounded time. */
  function TickAt(time: nat, max: nat): (r: nat)
    ensures r <= max
  {
    if time <= max then time else TickAt(time - max - 1, max)
  }

  /** A command of an earlier turn with the same tick count looks the same, so one processed a whole
      turn late or more, whose time has certainly come, is found expired exactly when the rest of its
      age, whole turns taken off, reaches the period: otherwise the timer is taken to be running. */
  lemma {:induction false} TooLate(max: nat, epoch: nat, tick: nat, c: nat, period: nat, late: nat)
    requires tick <= max && 1 <= period <= max && TickAt(epoch, max) == 0
    requires c <= epoch + tick && epoch + tick - c <= max
    requires late + max + 1 <= c && TickAt(late, max) == TickAt(c, max)
    ensures late + period <= epoch + tick
    ensures Decide(Plus(TickAt(late, max), period, max), tick, TickAt(late, max), period, max) == Expired
            <==> c + period <= epoch + tick
  {
    TickIs(epoch, c, max);
    DecidesRight(max, epoch, tick, c, TickAt(c, max), period);
  }

  /** Tick counts of times not more than a turn away from the start of an epoch. */
  lemma {:induction false} TickIs(epoch: nat, c: nat, max: nat)
    requires TickAt(epoch, max) == 0 && c <= epoch + 2 * max + 1 && epoch <= c + max + 1
    ensures var v := TickAt(c, max); c == epoch + v || c + max + 1 == epoch + v || c == epoch + max + 1 + v
  {
    if epoch > max {
      if c > max {
        TickIs(epoch - max - 1, c - max - 1, max);
      } else {
        assert TickAt(epoch - max - 1, max) == 0;
      }
    }
  }

  // ------------------------------------------------------- the lists and the queue

  datatype Where = Idle | Listed(i: nat) | Queued

  /** A START message: the timer and the tick count it is counted from. */
  datatype Command = Command(timer: Timer, value: nat)

  /** The two active lists, which of them is current, and the command queue. */
  datatype Service = Service(lists: seq<seq<Timer>>, cur: nat, queue: seq<Command>, place: map<Timer, Where>,
      value: Times)

  predicate ListHas(q: seq<Timer>, place: map<Timer, Where>, i: nat) {
    && Distinct(q)
    && (forall t :: t in q ==> t in place && place[t] == Listed(i))
    && (forall t :: t in place && place[t] == Listed(i) ==> t in q)
  }

  predicate InQueue(queue: seq<Command>, t: Timer) {
    exists k :: 0 <= k < |queue| && queue[k].timer == t
  }

  predicate QueueHas(queue: seq<Command>, place: map<Timer, Where>) {
    && (forall t {:trigger InQueue(queue, t)} :: t in place && place[t] == Queued ==> InQueue(queue, t))
    && (forall k :: 0 <= k < |queue| ==> queue[k].timer in place && place[queue[k].timer] == Queued)
    && (forall j, k {:trigger queue[j], queue[k]} :: 0 <= j < k < |queue| ==> queue[j].timer != queue[k].timer)
  }

  /** Timers on the current list are due in this epoch, those on the other one in the next. */
  predicate ListTimes(place: map<Timer, Where>, value: Times, due: Times, max: nat, epoch: nat, cur: nat) {
    forall t :: t in place && place[t].Listed? ==>
      && place[t].i < 2 && t in value && t in due && value[t] <= max
      && due[t] == if place[t].i == cur then epoch + value[t] else epoch + max + 1 + value[t]
  }

  /** The time a command with value `v` counts from: in this epoch, in the one before, or, when it was
      sent after the service last looked at the time, in the next. */
  predicate CountsFrom(c: nat, v: nat, max: nat, epoch: nat) {
    v <= max && (c == epoch + v || c + max + 1 == epoch + v || c == epoch + max + 1 + v)
  }

  predicate QueueTimes(queue: seq<Command>, period: Times, due: Times, max: nat, epoch: nat) {
    forall k :: 0 <= k < |queue| ==>
      var t, v := queue[k].timer, queue[k].value;
      t in period && t in due && due[t] >= period[t] && CountsFrom(due[t] - period[t], v, max, epoch)
  }

  predicate Periods(place: map<Timer, Where>, period: Times, max: nat) {
    forall t :: t in place ==> t in period && 1 <= period[t] <= max
  }

  predicate Agrees(s: Service, period: Times, due: Times, max: nat, epoch: nat) {
    && s.cur < 2 && |s.lists| == 2
    && ListHas(s.lists[0], s.place, 0) && ListHas(s.lists[1], s.place, 1) && QueueHas(s.queue, s.place)
    && Tasks.InOrder(s.lists[0], s.value) && Tasks.InOrder(s.lists[1], s.value)
    && ListTimes(s.place, s.value, due, max, epoch, s.cur) && QueueTimes(s.queue, period, due, max, epoch)
    && Periods(s.place, period, max)
  }

  predicate Agrees0(level: nat, s: Service, period: Times, due: Times, max: nat, epoch: nat) {
    if level == 0 then Agrees(s, period, due, max, epoch) else Agrees0(level - 1, s, period, due, max, epoch)
  }

  /** Agrees by another name, kept folded in the proofs about the service. */
  predicate Ok(s: Service, period: Times, due: Times, max: nat, epoch: nat) {
    Agrees0(2, s, period, due, max, epoch) && s.cur < 2 && |s.lists| == 2
  }

  lemma {:induction false} Unfold(s: Service, period: Times, due: Times, max: nat, epoch: nat)
    ensures Ok(s, period, due, max, epoch) <==> Agrees(s, period, due, max, epoch)
  {
    assert Agrees0(1, s, period, due, max, epoch) == Agrees0(0, s, period, due, max, epoch);
  }

  /** The head of the current list: the timer due first. */
  lemma {:induction false} OkHead(s: Service, period: Times, due: Times, max: nat, epoch: nat)
    requires Ok(s, period, due, max, epoch) && s.lists[s.cur] != []
    ensures var t := s.lists[s.cur][0];
            && t in s.place && s.place[t] == Listed(s.cur) && t in s.value && s.value[t] <= max
            && t in due && due[t] == epoch + s.value[t] && t in period && 1 <= period[t] <= max
    ensures forall x :: x in s.place && s.place[x] == Listed(s.cur) ==>
              x in s.value && s.value[s.lists[s.cur][0]] <= s.value[x] && x in due && due[x] == epoch + s.value[x]
  {
    Unfold(s, period, due, max, epoch);
    var q := s.lists[s.cur];
    forall x | x in s.place && s.place[x] == Listed(s.cur) ensures x in s.value && s.value[q[0]] <= s.value[x] {
      var k :| 0 <= k < |q| && q[k] == x;
    }
  }

  /** uxListRemove on the head of the current list. */
  function TakeHead(s: Service): Service
    requires s.cur < |s.lists| && s.lists[s.cur] != []
  {
    s.(lists := s.lists[s.cur := s.lists[s.cur][1..]], place := s.place[s.lists[s.cur][0] := Idle])
  }

  lemma {:induction false} OkTakeHead(s: Service, period: Times, due: Times, max: nat, epoch: nat)
    requires Ok(s, period, due, max, epoch) && s.lists[s.cur] != []
    ensures Ok(TakeHead(s), period, due, max, epoch)
  {
    Unfold(s, period, due, max, epoch);
    var q, o, t := s.lists[s.cur], s.lists[1 - s.cur], s.lists[s.cur][0];
    TailHas(q, s.place, s.cur, s.value);
    OtherHas(o, s.place, 1 - s.cur, s.queue, t);
    assert ListTimes(s.place[t := Idle], s.value, due, max, epoch, s.cur);
    assert Periods(s.place[t := Idle], period, max);
    Unfold(TakeHead(s), period, due, max, epoch);
  }

  lemma {:induction false} TailHas(q: seq<Timer>, place: map<Timer, Where>, i: nat, value: Times)
    requires ListHas(q, place, i) && q != [] && Tasks.InOrder(q, value)
    ensures ListHas(q[1..], place[q[0] := Idle], i) && Tasks.InOrder(q[1..], value)
  {
    assert forall x :: x in q <==> x == q[0] || x in q[1..];
  }

  lemma {:induction false} OtherHas(q: seq<Timer>, place: map<Timer, Where>, j: nat, queue: seq<Command>, t: Timer)
    requires ListHas(q, place, j) && QueueHas(queue, place) && t in place && place[t] != Listed(j) && place[t] != Queued
    ensures ListHas(q, place[t := Idle], j) && QueueHas(queue, place[t := Idle])
  {
  }

  /** vListInsert into list `i`. */
  function InsertTimer(s: Service, t: Timer, i: nat, v: nat): Service
    requires i < |s.lists| && forall x :: x in s.lists[i] ==> x in s.value
  {
    var k := FirstGreater(Tasks.Vals(s.lists[i], s.value), v);
    s.(lists := s.lists[i := InsertAt(s.lists[i], k, t)], place := s.place[t := Listed(i)], value := s.value[t := v])
  }

  /** The timer's item goes to its place on list `i`, in order, and the other list stays as it is. */
  lemma {:induction false} InsertHas(q: seq<Timer>, o: seq<Timer>, place: map<Timer, Where>, value: Times,
                                     t: Timer, i: nat, j: nat, v: nat)
    requires ListHas(q, place, i) && ListHas(o, place, j) && i != j && t in place && place[t] == Idle
    requires Tasks.InOrder(q, value) && Tasks.InOrder(o, value)
    ensures forall x :: x in q ==> x in value
    ensures var q' := InsertAt(q, FirstGreater(Tasks.Vals(q, value), v), t);
            && ListHas(q', place[t := Listed(i)], i) && ListHas(o, place[t := Listed(i)], j)
            && Tasks.InOrder(q', value[t := v]) && Tasks.InOrder(o, value[t := v])
  {
    Tasks.OrderInsert(q, value, t, v);
    Tasks.OrderElsewhere(o, value, t, v);
    ListGains(q, place, i, t, FirstGreater(Tasks.Vals(q, value), v));
    ListKeeps(o, place, j, t, Listed(i));
  }

  lemma {:induction false} OkInsert(s: Service, period: Times, due: Times, max: nat, epoch: nat, t: Timer, i: nat,
                                    v: nat)
    requires Ok(s, period, due, max, epoch) && t in s.place && s.place[t] == Idle && i < 2 && v <= max
    ensures forall x :: x in s.lists[i] ==> x in s.value
    ensures var d := if i == s.cur then epoch + v else epoch + max + 1 + v;
            Ok(InsertTimer(s, t, i, v), period, due[t := d], max, epoch)
  {
    Unfold(s, period, due, max, epoch);
    InsertHas(s.lists[i], s.lists[1 - i], s.place, s.value, t, i, 1 - i, v);
    var d := if i == s.cur then epoch + v else epoch + max + 1 + v;
    QueueKeeps(s.queue, s.place, period, due, max, epoch, t, Listed(i), d);
    TimesGain(s.place, s.value, due, max, epoch, s.cur, t, i, v);
    OkIs(InsertTimer(s, t, i, v), period, due[t := d], max, epoch, i, 1 - i);
  }

  lemma {:induction false} OkIs(s: Service, period: Times, due: Times, max: nat, epoch: nat, i: nat, j: nat)
    requires s.cur < 2 && |s.lists| == 2 && i + j == 1
    requires ListHas(s.lists[i], s.place, i) && ListHas(s.lists[j], s.place, j) && QueueHas(s.queue, s.place)
    requires Tasks.InOrder(s.lists[i], s.value) && Tasks.InOrder(s.lists[j], s.value)
    requires ListTimes(s.place, s.value, due, max, epoch, s.cur) && QueueTimes(s.queue, period, due, max, epoch)
    requires Periods(s.place, period, max)
    ensures Ok(s, period, due, max, epoch)
  {
    Unfold(s, period, due, max, epoch);
  }

  lemma {:induction false} ListGains(q: seq<Timer>, place: map<Timer, Where>, i: nat, t: Timer, k: nat)
    requires ListHas(q, place, i) && t in place && place[t] == Idle && k <= |q|
    ensures ListHas(InsertAt(q, k, t), place[t := Listed(i)], i)
  {
    InsertMembers(q, k, t);
  }

  lemma {:induction false} ListKeeps(q: seq<Timer>, place: map<Timer, Where>, j: nat, t: Timer, w: Where)
    requires ListHas(q, place, j) && t in place && place[t] == Idle && w != Listed(j)
    ensures ListHas(q, place[t := w], j)
  {
  }

  lemma {:induction false} QueueKeeps(queue: seq<Command>, place: map<Timer, Where>, period: Times, due: Times,
                                      max: nat, epoch: nat, t: Timer, w: Where, d: nat)
    requires QueueHas(queue, place) && QueueTimes(queue, period, due, max, epoch) && t in place && place[t] == Idle
    requires w != Queued
    ensures QueueHas(queue, place[t := w]) && QueueTimes(queue, period, due[t := d], max, epoch)
  {
  }

  lemma {:induction false} TimesGain(place: map<Timer, Where>, value: Times, due: Times, max: nat, epoch: nat, cur: nat,
                                     t: Timer, i: nat, v: nat)
    requires ListTimes(place, value, due, max, epoch, cur) && i < 2 && v <= max
    ensures ListTimes(place[t := Listed(i)], value[t := v],
              due[t := if i == cur then epoch + v else epoch + max + 1 + v], max, epoch, cur)
  {
  }

  /** xTimerGenericCommand for a timer that is on no list; the queue has room. */
  function Send(s: Service, t: Timer, v: nat): Service {
    s.(queue := s.queue + [Command(t, v)], place := s.place[t := Queued])
  }

  lemma {:induction false} OkSend(s: Service, period: Times, due: Times, max: nat, epoch: nat, t: Timer, v: nat, c: nat)
    requires Ok(s, period, due, max, epoch) && t in s.place && s.place[t] == Idle && t in period
    requires CountsFrom(c, v, max, epoch)
    ensures Ok(Send(s, t, v), period, due[t := c + period[t]], max, epoch)
  {
    Unfold(s, period, due, max, epoch);
    var s', due' := Send(s, t, v), due[t := c + period[t]];
    ListKeeps(s.lists[0], s.place, 0, t, Queued);
    ListKeeps(s.lists[1], s.place, 1, t, Queued);
    QueueGains(s.queue, s.place, t, v);
    QueueDue(s.queue, s.place, period, due, max, epoch, t, v, c);
    assert ListTimes(s'.place, s.value, due', max, epoch, s.cur);
    OkIs(s', period, due', max, epoch, 0, 1);
  }

  lemma {:induction false} QueueGains(queue: seq<Command>, place: map<Timer, Where>, t: Timer, v: nat)
    requires QueueHas(queue, place) && t in place && place[t] == Idle
    ensures QueueHas(queue + [Command(t, v)], place[t := Queued])
  {
    var q := queue + [Command(t, v)];
    assert forall k :: 0 <= k < |queue| ==> q[k] == queue[k];
    assert q[|queue|].timer == t;
    forall x | x in place && x != t && place[x] == Queued ensures InQueue(q, x) {
      assert InQueue(queue, x);
      var k :| 0 <= k < |queue| && queue[k].timer == x;
      assert q[k].timer == x;
    }
  }

  lemma {:induction false} QueueDue(queue: seq<Command>, place: map<Timer, Where>, period: Times, due: Times, max: nat,
                                    epoch: nat, t: Timer, v: nat, c: nat)
    requires QueueHas(queue, place) && QueueTimes(queue, period, due, max, epoch) && t in place && place[t] == Idle
    requires t in period && CountsFrom(c, v, max, epoch)
    ensures QueueTimes(queue + [Command(t, v)], period, due[t := c + period[t]], max, epoch)
  {
    var q := queue + [Command(t, v)];
    assert forall k :: 0 <= k < |queue| ==> q[k] == queue[k];
    assert q[|queue|] == Command(t, v);
  }

  lemma {:induction false} QueueLoses(queue: seq<Command>, place: map<Timer, Where>)
    requires QueueHas(queue, place) && queue != []
    ensures QueueHas(queue[1..], place[queue[0].timer := Idle])
  {
    var q := queue[1..];
    assert forall k :: 0 <= k < |q| ==> q[k] == queue[k + 1];
    forall x | x in place && x != queue[0].timer && place[x] == Queued ensures InQueue(q, x) {
      assert InQueue(queue, x);
      var k :| 0 <= k < |queue| && queue[k].timer == x;
      assert q[k - 1].timer == x;
    }
  }

  /** xQueueReceive. */
  function Pop(s: Service): Service
    requires s.queue != []
  {
    s.(queue := s.queue[1..], place := s.place[s.queue[0].timer := Idle])
  }

  lemma {:induction false} OkPop(s: Service, period: Times, due: Times, max: nat, epoch: nat)
    requires Ok(s, period, due, max, epoch) && s.queue != []
    ensures Ok(Pop(s), period, due, max, epoch)
    ensures var t, v := s.queue[0].timer, s.queue[0].value;
            && t in s.place && s.place[t] == Queued && t in period && t in due && due[t] >= period[t]
            && 1 <= period[t] <= max && CountsFrom(due[t] - period[t], v, max, epoch)
  {
    Unfold(s, period, due, max, epoch);
    var s' := Pop(s);
    QueueLoses(s.queue, s.place);
    assert forall k :: 0 <= k < |s'.queue| ==> s'.queue[k] == s.queue[k + 1];
    Unfold(s', period, due, max, epoch);
  }

  /** The end of an epoch, with the current list worked off: the lists change roles. */
  lemma {:induction false} OkSwitch(s: Service, period: Times, due: Times, max: nat, epoch: nat, from: nat, upTo: nat)
    requires Ok(s, period, due, max, epoch) && s.lists[s.cur] == [] && epoch < from
    requires Prompt(s, period, due, from, upTo)
    ensures Ok(s.(cur := 1 - s.cur), period, due, max, epoch + max + 1)
    ensures Prompt(s.(cur := 1 - s.cur), period, due, from, upTo)
  {
    Promptly(s, period, due, from, upTo);
    Unfold(s, period, due, max, epoch);
    Unfold(s.(cur := 1 - s.cur), period, due, max, epoch + max + 1);
    Promptly(s.(cur := 1 - s.cur), period, due, from, upTo);
  }

  // ------------------------------------------------------------- regular firing

  /** The time of call number `k`, counting from zero. */
  function Nth(start: nat, period: nat, k: nat): nat {
    if k == 0 then start + period else Nth(start, period, k - 1) + period
  }

  /** Every active timer has been called back once for each of its first times, in order, and is due
      at the next one; an auto-reload timer stays active, a one-shot timer until its one call. */
  predicate Regular(active: set<Timer>, fired: map<Timer, seq<nat>>, start: Times, period: Times, due: Times,
                    reload: map<Timer, bool>) {
    && (forall t :: t in active ==>
          && t in fired && t in start && t in period && t in due
          && due[t] == Nth(start[t], period[t], |fired[t]|))
    && (forall t :: t in fired ==>
          && t in start && t in period && t in reload && InTurn(fired[t], start[t], period[t])
          && if reload[t] then t in active else |fired[t]| == if t in active then 0 else 1)
  }

  predicate InTurn(f: seq<nat>, start: nat, period: nat) {
    forall k :: 0 <= k < |f| ==> f[k] == Nth(start, period, k)
  }

  predicate Regular0(level: nat, active: set<Timer>, fired: map<Timer, seq<nat>>, start: Times, period: Times,
                     due: Times, reload: map<Timer, bool>) {
    if level == 0 then Regular(active, fired, start, period, due, reload)
    else Regular0(level - 1, active, fired, start, period, due, reload)
  }

  /** Regular by another name, kept folded. */
  predicate Steady(active: set<Timer>, fired: map<Timer, seq<nat>>, start: Times, period: Times, due: Times,
                   reload: map<Timer, bool>) {
    Regular0(2, active, fired, start, period, due, reload)
  }

  lemma {:induction false} Steadily(active: set<Timer>, fired: map<Timer, seq<nat>>, start: Times, period: Times,
                                    due: Times, reload: map<Timer, bool>)
    ensures Steady(active, fired, start, period, due, reload) <==> Regular(active, fired, start, period, due, reload)
  {
    assert Regular0(1, active, fired, start, period, due, reload) ==
        Regular0(0, active, fired, start, period, due, reload);
  }

  /** A callback at the due time keeps the rhythm: the timer is due again one period later, or done. */
  lemma {:induction false} SteadyFire(active: set<Timer>, fired: map<Timer, seq<nat>>, start: Times, period: Times,
                                      due: Times, reload: map<Timer, bool>, t: Timer)
    requires Steady(active, fired, start, period, due, reload) && t in active
    ensures t in fired && t in due && t in period && t in reload
    ensures var f := fired[t := fired[t] + [due[t]]];
            if reload[t] then Steady(active, f, start, period, due[t := due[t] + period[t]], reload)
            else Steady(active - {t}, f, start, period, due, reload)
  {
    Steadily(active, fired, start, period, due, reload);
    var f := fired[t] + [due[t]];
    assert InTurn(f, start[t], period[t]);
    if reload[t] {
      Steadily(active, fired[t := f], start, period, due[t := due[t] + period[t]], reload);
    } else {
      Steadily(active - {t}, fired[t := f], start, period, due, reload);
    }
  }

  lemma {:induction false} SteadyStart(active: set<Timer>, fired: map<Timer, seq<nat>>, start: Times, period: Times,
                                       due: Times, reload: map<Timer, bool>, t: Timer, c: nat)
    requires Steady(active, fired, start, period, due, reload) && t !in active && t in period && t in reload
    ensures Steady(active + {t}, fired[t := []], start[t := c], period, due[t := c + period[t]], reload)
  {
    Steadily(active, fired, start, period, due, reload);
    Steadily(active + {t}, fired[t := []], start[t := c], period, due[t := c + period[t]], reload);
  }

  lemma {:induction false} SteadyCreate(active: set<Timer>, fired: map<Timer, seq<nat>>, start: Times, period: Times,
                                        due: Times, reload: map<Timer, bool>, t: Timer, ticks: nat, again: bool)
    requires Steady(active, fired, start, period, due, reload) && t !in active && t !in fired
    ensures Steady(active, fired, start, period[t := ticks], due, reload[t := again])
  {
    Steadily(active, fired, start, period, due, reload);
    Steadily(active, fired, start, period[t := ticks], due, reload[t := again]);
  }

  // ---------------------------------------------------------------- termination

  /** What is left for the switching loop: the distance of each timer on the list to the end of the epoch. */
  function Left(q: seq<Timer>, value: Times, max: nat): nat
    requires forall t :: t in q ==> t in value && value[t] <= max
  {
    if q == [] then 0 else (max + 1 - value[q[0]]) + Left(q[1..], value, max)
  }

  lemma {:induction false} LeftInsert(q: seq<Timer>, value: Times, max: nat, k: nat, t: Timer, v: nat)
    requires (forall x :: x in q ==> x in value && value[x] <= max) && t !in q && k <= |q| && v <= max
    ensures forall x :: x in InsertAt(q, k, t) ==> x in value[t := v] && value[t := v][x] <= max
    ensures Left(InsertAt(q, k, t), value[t := v], max) == Left(q, value, max) + max + 1 - v
    decreases |q|
  {
    var q' := InsertAt(q, k, t);
    InsertMembers(q, k, t);
    if k == 0 {
      assert q'[0] == t && q'[1..] == q;
      LeftElsewhere(q, value, max, t, v);
    } else {
      assert q'[0] == q[0] && q'[1..] == InsertAt(q[1..], k - 1, t);
      LeftInsert(q[1..], value, max, k - 1, t, v);
    }
  }

  lemma {:induction false} LeftElsewhere(q: seq<Timer>, value: Times, max: nat, t: Timer, v: nat)
    requires (forall x :: x in q ==> x in value && value[x] <= max) && t !in q
    ensures Left(q, value[t := v], max) == Left(q, value, max)
  {
    if q != [] {
      LeftElsewhere(q[1..], value, max, t, v);
    }
  }

  lemma {:induction false} OkLeft(s: Service, period: Times, due: Times, max: nat, epoch: nat)
    requires Ok(s, period, due, max, epoch)
    ensures forall t :: t in s.lists[s.cur] ==>
              t in s.value && s.value[t] <= max && t in s.place && s.place[t] == Listed(s.cur)
  {
    Unfold(s, period, due, max, epoch);
  }

  /** No timer stops being due sooner than it was, and none becomes active. */
  predicate NotSooner(active0: set<Timer>, due0: Times, active: set<Timer>, due: Times) {
    active <= active0 && forall t :: t in active ==> t in due0 && t in due && due0[t] <= due[t]
  }

  predicate NotSooner0(level: nat, active0: set<Timer>, due0: Times, active: set<Timer>, due: Times) {
    if level == 0 then NotSooner(active0, due0, active, due) else NotSooner0(level - 1, active0, due0, active, due)
  }

  /** NotSooner by another name, kept folded. */
  predicate Later(active0: set<Timer>, due0: Times, active: set<Timer>, due: Times) {
    NotSooner0(2, active0, due0, active, due)
  }

  lemma {:induction false} LaterIs(active0: set<Timer>, due0: Times, active: set<Timer>, due: Times)
    ensures Later(active0, due0, active, due) <==> NotSooner(active0, due0, active, due)
  {
    assert NotSooner0(1, active0, due0, active, due) == NotSooner0(0, active0, due0, active, due);
  }

  lemma {:induction false} LaterStill(a0: set<Timer>, d0: Times, a1: set<Timer>, d1: Times, a2: set<Timer>, d2: Times)
    requires Later(a0, d0, a1, d1) && Later(a1, d1, a2, d2)
    ensures Later(a0, d0, a2, d2)
  {
    LaterIs(a0, d0, a1, d1);
    LaterIs(a1, d1, a2, d2);
    LaterIs(a0, d0, a2, d2);
  }

  /** The timer is done, or due later than it was. */
  predicate Onward(active0: set<Timer>, due0: Times, active: set<Timer>, due: Times, t: Timer) {
    t in active0 && t in due0 && (t in active ==> t in due && due0[t] < due[t])
  }

  /** How far the timers in `order` lag behind time `n`. */
  function Lag(order: seq<Timer>, active: set<Timer>, due: Times, n: nat): nat {
    if order == [] then 0
    else
      var t := order[0];
      (if t in active && t in due && due[t] <= n then n + 1 - due[t] else 0) + Lag(order[1..], active, due, n)
  }

  lemma {:induction false} LagFalls(order: seq<Timer>, a0: set<Timer>, d0: Times, a: set<Timer>, d: Times, n: nat)
    requires NotSooner(a0, d0, a, d)
    ensures Lag(order, a, d, n) <= Lag(order, a0, d0, n)
  {
    if order != [] {
      LagFalls(order[1..], a0, d0, a, d, n);
    }
  }

  lemma {:induction false} LagDrops(order: seq<Timer>, a0: set<Timer>, d0: Times, a: set<Timer>, d: Times, n: nat,
                                    t: Timer)
    requires NotSooner(a0, d0, a, d) && Onward(a0, d0, a, d, t) && d0[t] <= n && t in order
    ensures Lag(order, a, d, n) < Lag(order, a0, d0, n)
  {
    if order[0] == t {
      LagFalls(order[1..], a0, d0, a, d, n);
    } else {
      LagDrops(order[1..], a0, d0, a, d, n, t);
    }
  }

  /** The timers of a set in some order. */
  lemma {:induction false} Listing(active: set<Timer>) returns (order: seq<Timer>)
    ensures forall t :: t in active ==> t in order
    decreases |active|
  {
    order := [];
    if active != {} {
      var t :| t in active;
      var rest := Listing(active - {t});
      order := [t] + rest;
    }
  }

  /** The active timers are those on a list or with a command on its way, and the one in hand. */
  predicate Active(place: map<Timer, Where>, active: set<Timer>, held: set<Timer>) {
    && (forall t :: t in active ==> t in place && (place[t] != Idle || t in held))
    && (forall t :: t in place && place[t] != Idle ==> t in active && t !in held)
    && held <= active
  }

  predicate Active0(level: nat, place: map<Timer, Where>, active: set<Timer>, held: set<Timer>) {
    if level == 0 then Active(place, active, held) else Active0(level - 1, place, active, held)
  }

  /** Active by another name, kept folded. */
  predicate Match(place: map<Timer, Where>, active: set<Timer>, held: set<Timer>) { Active0(2, place, active, held) }

  lemma {:induction false} Matching(place: map<Timer, Where>, active: set<Timer>, held: set<Timer>)
    ensures Match(place, active, held) <==> Active(place, active, held)
  {
    assert Active0(1, place, active, held) == Active0(0, place, active, held);
  }

  /** A busy timer is active; it may be taken in hand, or be done. */
  lemma {:induction false} MatchBusy(place: map<Timer, Where>, active: set<Timer>, held: set<Timer>, t: Timer)
    requires Match(place, active, held) && t in place && place[t] != Idle
    ensures t in active && t !in held
    ensures Match(place[t := Idle], active - {t}, held) && Match(place[t := Idle], active, held + {t})
  {
    Matching(place, active, held);
    Matching(place[t := Idle], active - {t}, held);
    Matching(place[t := Idle], active, held + {t});
  }

  /** A timer in hand, or on its way, is put somewhere else. */
  lemma {:induction false} MatchMoved(place: map<Timer, Where>, active: set<Timer>, held: set<Timer>, t: Timer,
                                      w: Where)
    requires Match(place, active, held) && t in active && w != Idle
    ensures Match(place[t := w], active, held - {t})
  {
    Matching(place, active, held);
    Matching(place[t := w], active, held - {t});
  }

  lemma {:induction false} MatchDone(place: map<Timer, Where>, active: set<Timer>, t: Timer)
    requires Match(place, active, {t}) && t in place
    ensures place[t] == Idle && t in active && Match(place, active - {t}, {})
  {
    Matching(place, active, {t});
    Matching(place, active - {t}, {});
  }

  lemma {:induction false} MatchIdle(place: map<Timer, Where>, active: set<Timer>, held: set<Timer>, t: Timer)
    requires Match(place, active, held) && t in place && t !in active
    ensures place[t] == Idle
  {
    Matching(place, active, held);
  }

  lemma {:induction false} MatchStart(place: map<Timer, Where>, active: set<Timer>, held: set<Timer>, t: Timer,
                                      w: Where)
    requires Match(place, active, held) && t in place && place[t] == Idle && t !in active && w != Idle
    ensures Match(place[t := w], active + {t}, held)
  {
    Matching(place, active, held);
    Matching(place[t := w], active + {t}, held);
  }

  // ------------------------------------------------------------------ lateness

  /** Commands count from times between `from` and `upTo`, and no timer was due before `from`. */
  predicate OnTime(s: Service, period: Times, due: Times, from: nat, upTo: nat) {
    && (forall k :: 0 <= k < |s.queue| ==>
          var t := s.queue[k].timer;
          t in period && t in due ==> from <= due[t] - period[t] <= upTo)
    && (forall t :: t in s.place && s.place[t].Listed? && t in due ==> from <= due[t])
  }

  predicate OnTime0(level: nat, s: Service, period: Times, due: Times, from: nat, upTo: nat) {
    if level == 0 then OnTime(s, period, due, from, upTo) else OnTime0(level - 1, s, period, due, from, upTo)
  }

  /** OnTime by another name, kept folded. */
  predicate Prompt(s: Service, period: Times, due: Times, from: nat, upTo: nat) {
    OnTime0(2, s, period, due, from, upTo)
  }

  lemma {:induction false} Promptly(s: Service, period: Times, due: Times, from: nat, upTo: nat)
    ensures Prompt(s, period, due, from, upTo) <==> OnTime(s, period, due, from, upTo)
  {
    assert OnTime0(1, s, period, due, from, upTo) == OnTime0(0, s, period, due, from, upTo);
  }

  lemma {:induction false} PromptTake(s: Service, period: Times, due: Times, from: nat, upTo: nat, t: Timer)
    requires Prompt(s, period, due, from, upTo) && s.cur < |s.lists| && s.lists[s.cur] != [] && t == s.lists[s.cur][0]
    requires t in s.place && s.place[t] == Listed(s.cur) && t in due
    ensures Prompt(TakeHead(s), period, due, from, upTo) && from <= due[t]
  {
    Promptly(s, period, due, from, upTo);
    Promptly(TakeHead(s), period, due, from, upTo);
  }

  lemma {:induction false} PromptDue(s: Service, period: Times, due: Times, max: nat, epoch: nat, from: nat, upTo: nat,
                                     t: Timer, d: nat)
    requires Prompt(s, period, due, from, upTo) && Ok(s, period, due, max, epoch) && t in s.place && s.place[t] == Idle
    ensures Prompt(s, period, due[t := d], from, upTo)
  {
    Promptly(s, period, due, from, upTo);
    Unfold(s, period, due, max, epoch);
    Promptly(s, period, due[t := d], from, upTo);
  }

  lemma {:induction false} PromptInsert(s: Service, period: Times, due: Times, from: nat, upTo: nat, t: Timer, i: nat,
                                        v: nat)
    requires Prompt(s, period, due, from, upTo) && t in due && from <= due[t]
    requires i < |s.lists| && forall x :: x in s.lists[i] ==> x in s.value
    ensures Prompt(InsertTimer(s, t, i, v), period, due, from, upTo)
  {
    Promptly(s, period, due, from, upTo);
    Promptly(InsertTimer(s, t, i, v), period, due, from, upTo);
  }

  lemma {:induction false} PromptSend(s: Service, period: Times, due: Times, from: nat, upTo: nat, t: Timer, v: nat)
    requires Prompt(s, period, due, from, upTo) && t in due && t in period && from <= due[t] - period[t] <= upTo
    ensures Prompt(Send(s, t, v), period, due, from, upTo)
  {
    Promptly(s, period, due, from, upTo);
    var s' := Send(s, t, v);
    assert forall k :: 0 <= k < |s.queue| ==> s'.queue[k] == s.queue[k];
    assert s'.queue[|s.queue|] == Command(t, v);
    Promptly(s', period, due, from, upTo);
  }

  lemma {:induction false} PromptPop(s: Service, period: Times, due: Times, from: nat, upTo: nat)
    requires Prompt(s, period, due, from, upTo) && s.queue != []
    ensures Prompt(Pop(s), period, due, from, upTo)
    ensures var t := s.queue[0].timer; t in period && t in due ==> from <= due[t] - period[t] <= upTo
  {
    Promptly(s, period, due, from, upTo);
    var s' := Pop(s);
    assert forall k :: 0 <= k < |s'.queue| ==> s'.queue[k] == s.queue[k + 1];
    Promptly(s', period, due, from, upTo);
  }

  lemma {:induction false} PromptLater(s: Service, period: Times, due: Times, from: nat, upTo: nat, now: nat)
    requires Prompt(s, period, due, from, upTo) && upTo <= now
    ensures Prompt(s, period, due, from, now)
  {
    Promptly(s, period, due, from, upTo);
    Promptly(s, period, due, from, now);
  }

  /** A START sent at time `now` joins the queue with its tick count. */
  lemma {:induction false} StartSent(s: Service, period: Times, due: Times, max: nat, epoch: nat, from: nat, upTo: nat,
                                     t: Timer, now: nat)
    requires Ok(s, period, due, max, epoch) && Prompt(s, period, due, from, upTo) && TickAt(epoch, max) == 0
    requires t in s.place && s.place[t] == Idle && epoch <= upTo <= now <= from + max
    requires from <= upTo && from <= epoch + max
    ensures t in period
    ensures var s', due' := Send(s, t, TickAt(now, max)), due[t := now + period[t]];
            Ok(s', period, due', max, epoch) && Prompt(s', period, due', from, now)
  {
    OkPeriod(s, period, due, max, epoch, t);
    TickIs(epoch, now, max);
    PromptLater(s, period, due, from, upTo, now);
    PromptDue(s, period, due, max, epoch, from, now, t, now + period[t]);
    PromptSend(s, period, due[t := now + period[t]], from, now, t, TickAt(now, max));
    OkSend(s, period, due, max, epoch, t, TickAt(now, max), now);
  }

  lemma {:induction false} PromptCreate(s: Service, period: Times, due: Times, max: nat, epoch: nat, from: nat,
                                        upTo: nat,
                                        t: Timer, ticks: nat)
    requires Prompt(s, period, due, from, upTo) && Ok(s, period, due, max, epoch) && t !in s.place
    ensures Prompt(s.(place := s.place[t := Idle]), period[t := ticks], due, from, upTo)
  {
    Promptly(s, period, due, from, upTo);
    Unfold(s, period, due, max, epoch);
    Promptly(s.(place := s.place[t := Idle]), period[t := ticks], due, from, upTo);
  }

  /** Nothing is left to do at tick count `tick`: no command, and the first timer due lies ahead. */
  predicate Ahead(s: Service, tick: nat) {
    && s.queue == [] && s.cur < |s.lists|
    && (s.lists[s.cur] != [] ==> s.lists[s.cur][0] in s.value && s.value[s.lists[s.cur][0]] > tick)
  }

  /** When nothing is left to do, every timer on a list lies ahead. */
  lemma {:induction false} AllAhead(s: Service, period: Times, due: Times, max: nat, epoch: nat, tick: nat, t: Timer)
    requires Ok(s, period, due, max, epoch) && Ahead(s, tick) && tick <= max && t in s.place && s.place[t] != Idle
    ensures t in due && due[t] > epoch + tick
  {
    Unfold(s, period, due, max, epoch);
    if s.place[t] == Listed(s.cur) {
      OkHead(s, period, due, max, epoch);
    } else {
      QueuedThere(s.queue, s.place, t);
      AllListed(s, period, due, max, epoch, t);
    }
  }

  lemma {:induction false} PromptRest(s: Service, period: Times, due: Times, max: nat, epoch: nat, tick: nat)
    requires Ok(s, period, due, max, epoch) && Ahead(s, tick) && tick <= max
    ensures Prompt(s, period, due, epoch + tick, epoch + tick)
  {
    forall t | t in s.place && s.place[t].Listed? ensures t in due && epoch + tick <= due[t] {
      AllAhead(s, period, due, max, epoch, tick, t);
    }
    Promptly(s, period, due, epoch + tick, epoch + tick);
  }

  // ---------------------------------------------------------- nothing is forgotten

  /** No timer is lost, and no callback recorded is taken back. */
  predicate Kept(place0: map<Timer, Where>, fired0: map<Timer, seq<nat>>, place: map<Timer, Where>,
                 fired: map<Timer, seq<nat>>) {
    && place.Keys == place0.Keys && fired.Keys == fired0.Keys
    && forall t :: t in fired0 ==> t in fired && fired0[t] <= fired[t]
  }

  predicate Kept0(level: nat, place0: map<Timer, Where>, fired0: map<Timer, seq<nat>>, place: map<Timer, Where>,
                  fired: map<Timer, seq<nat>>) {
    if level == 0 then Kept(place0, fired0, place, fired) else Kept0(level - 1, place0, fired0, place, fired)
  }

  /** Kept by another name, kept folded. */
  predicate Carried(place0: map<Timer, Where>, fired0: map<Timer, seq<nat>>, place: map<Timer, Where>,
                    fired: map<Timer, seq<nat>>) {
    Kept0(2, place0, fired0, place, fired)
  }

  lemma {:induction false} CarriedIs(place0: map<Timer, Where>, fired0: map<Timer, seq<nat>>, place: map<Timer, Where>,
                                     fired: map<Timer, seq<nat>>)
    ensures Carried(place0, fired0, place, fired) <==> Kept(place0, fired0, place, fired)
  {
    assert Kept0(1, place0, fired0, place, fired) == Kept0(0, place0, fired0, place, fired);
  }

  lemma {:induction false} CarriedOn(p0: map<Timer, Where>, f0: map<Timer, seq<nat>>, p1: map<Timer, Where>,
                                     f1: map<Timer, seq<nat>>, p2: map<Timer, Where>, f2: map<Timer, seq<nat>>)
    requires Carried(p0, f0, p1, f1) && Carried(p1, f1, p2, f2)
    ensures Carried(p0, f0, p2, f2)
  {
    CarriedIs(p0, f0, p1, f1);
    CarriedIs(p1, f1, p2, f2);
    CarriedIs(p0, f0, p2, f2);
  }

  lemma {:induction false} CarriedSame(place: map<Timer, Where>, fired: map<Timer, seq<nat>>)
    ensures Carried(place, fired, place, fired)
  {
    CarriedIs(place, fired, place, fired);
  }

  /** One timer moves, and may have been called back. */
  lemma {:induction false} CarriedMove(place: map<Timer, Where>, fired: map<Timer, seq<nat>>, t: Timer, w: Where,
                                       d: nat)
    requires t in place
    ensures Carried(place, fired, place[t := w], fired)
    ensures t in fired ==> Carried(place, fired, place[t := w], fired[t := fired[t] + [d]])
  {
    CarriedIs(place, fired, place[t := w], fired);
    if t in fired {
      CarriedIs(place, fired, place[t := w], fired[t := fired[t] + [d]]);
    }
  }

  /** The timers in hand are left alone. */
  predicate LeftAlone(held: set<Timer>, due0: Times, fired0: map<Timer, seq<nat>>, due: Times,
                      fired: map<Timer, seq<nat>>, place: map<Timer, Where>) {
    forall t :: t in held ==>
      && t in due && t in due0 && due[t] == due0[t] && t in fired && t in fired0 && fired[t] == fired0[t]
      && t in place && place[t] == Idle
  }

  /** The timers that were on list `cur` are still there, or done, or due after `limit`. */
  predicate Working(place0: map<Timer, Where>, cur: nat, place: map<Timer, Where>, active: set<Timer>, due: Times,
                    limit: nat) {
    forall t :: t in place0 && place0[t] == Listed(cur) ==> Passed(t, cur, place, active, due, limit)
  }

  predicate Passed(t: Timer, cur: nat, place: map<Timer, Where>, active: set<Timer>, due: Times, limit: nat) {
    t in place && (place[t] == Listed(cur) || (t in active ==> t in due && due[t] > limit))
  }

  predicate Working0(level: nat, place0: map<Timer, Where>, cur: nat, place: map<Timer, Where>, active: set<Timer>,
                     due: Times, limit: nat) {
    if level == 0 then Working(place0, cur, place, active, due, limit)
    else Working0(level - 1, place0, cur, place, active, due, limit)
  }

  /** Working by another name, kept folded. */
  predicate WorkedOn(place0: map<Timer, Where>, cur: nat, place: map<Timer, Where>, active: set<Timer>, due: Times,
                     limit: nat) {
    Working0(2, place0, cur, place, active, due, limit)
  }

  lemma {:induction false} WorkedOnIs(place0: map<Timer, Where>, cur: nat, place: map<Timer, Where>,
                                      active: set<Timer>, due: Times, limit: nat)
    ensures WorkedOn(place0, cur, place, active, due, limit) <==> Working(place0, cur, place, active, due, limit)
  {
    assert Working0(1, place0, cur, place, active, due, limit) == Working0(0, place0, cur, place, active, due, limit);
  }

  lemma {:induction false} WorkedOnNext(place0: map<Timer, Where>, cur: nat, p1: map<Timer, Where>, a1: set<Timer>,
                                        d1: Times, p2: map<Timer, Where>, a2: set<Timer>, d2: Times, limit: nat,
                                        t: Timer)
    requires WorkedOn(place0, cur, p1, a1, d1, limit) && Later(a1, d1, a2, d2) && Passed(t, cur, p2, a2, d2, limit)
    requires forall x :: x != t && x in p1 ==> x in p2 && p2[x] == p1[x]
    ensures WorkedOn(place0, cur, p2, a2, d2, limit)
  {
    WorkedOnIs(place0, cur, p1, a1, d1, limit);
    LaterIs(a1, d1, a2, d2);
    forall x | x in place0 && place0[x] == Listed(cur) ensures Passed(x, cur, p2, a2, d2, limit) {
      assert Passed(x, cur, p1, a1, d1, limit);
    }
    WorkedOnIs(place0, cur, p2, a2, d2, limit);
  }

  /** The list is empty: each timer that was on it is done, or due after `limit`. */
  predicate WorkedOff(place0: map<Timer, Where>, cur: nat, active: set<Timer>, due: Times, limit: nat) {
    forall t :: t in place0 && place0[t] == Listed(cur) && t in active ==> t in due && due[t] > limit
  }

  lemma {:induction false} WorkedOnAll(s: Service, period: Times, due: Times, max: nat, epoch: nat,
                                       place0: map<Timer, Where>, active: set<Timer>, limit: nat)
    requires Ok(s, period, due, max, epoch) && s.lists[s.cur] == []
    requires WorkedOn(place0, s.cur, s.place, active, due, limit)
    ensures WorkedOff(place0, s.cur, active, due, limit)
  {
    Unfold(s, period, due, max, epoch);
    WorkedOnIs(place0, s.cur, s.place, active, due, limit);
    forall t | t in place0 && place0[t] == Listed(s.cur) && t in active ensures t in due && due[t] > limit {
      assert Passed(t, s.cur, s.place, active, due, limit);
    }
  }

  // --------------------------------------------------------------- the service

  class Daemon {
    const max: nat
    var s: Service
    var lastTime: nat
    var period: Times
    var reload: map<Timer, bool>

    ghost var epoch: nat
    ghost var due: Times
    ghost var fired: map<Timer, seq<nat>>
    ghost var start: Times
    ghost var active: set<Timer>
    ghost var held: set<Timer>
    ghost var clock: nat    // the time the service last looked at
    ghost var base: nat     // the time it last had nothing left to do
    ghost var latest: nat   // the time of the last event it may have heard of

    /** Everything but the time agrees: what holds also while the lists are being switched. */
    ghost predicate Sound()
      reads this
    {
      && Ok(s, period, due, max, epoch) && Steady(active, fired, start, period, due, reload) && Punctual(fired, clock)
      && Match(s.place, active, held) && (forall t :: t in s.place ==> t in reload) && fired.Keys <= s.place.Keys
      && Prompt(s, period, due, base, latest) && base <= clock <= latest <= base + max && TickAt(epoch, max) == 0
    }

    ghost predicate Valid()
      reads this
    {
      Sound() && lastTime <= max && clock == epoch + lastTime && held == {}
    }

    constructor (maxDelay: nat)
      ensures Valid() && max == maxDelay && s.place == map[] && clock == base == latest == 0
      ensures start == map[] && period == map[] && reload == map[] && fired == map[]
    {
      max, lastTime := maxDelay, 0;
      s := Service([[], []], 0, [], map[], map[]);
      period, reload := map[], map[];
      epoch, due, fired, start, active, held, clock, base, latest := 0, map[], map[], map[], {}, {}, 0, 0, 0;
      new;
      Unfold(s, period, due, max, epoch);
      Steadily(active, fired, start, period, due, reload);
      Matching(s.place, active, held);
      Promptly(s, period, due, 0, 0);
    }

    /** prvInsertTimerInActiveList for a timer whose period counts from `c`. */
    method Insert(t: Timer, expiry: nat, tick: nat, command: nat, ghost c: nat) returns (processNow: bool)
      requires Ok(s, period, due, max, epoch) && Prompt(s, period, due, base, latest)
      requires t in s.place && s.place[t] == Idle
      requires t in period && 1 <= period[t] <= max && t in due && due[t] == c + period[t] && base <= c
      requires tick <= max && command <= max && expiry == Plus(command, period[t], max)
      requires (c == epoch + command || c + max + 1 == epoch + command) && c <= epoch + tick <= c + max
      modifies this`s
      ensures Ok(s, period, due, max, epoch) && Prompt(s, period, due, base, latest)
      ensures s.queue == old(s.queue) && s.cur == old(s.cur)
      ensures processNow <==> due[t] <= epoch + tick
      ensures if processNow then s == old(s) else exists i :: 0 <= i < 2 && s.place == old(s.place)[t := Listed(i)]
    {
      DecidesRight(max, epoch, tick, c, command, period[t]);
      var verdict := Decide(expiry, tick, command, period[t], max);
      processNow := verdict == Expired;
      if verdict != Expired {
        var i := if verdict == ToOverflow then 1 - s.cur else s.cur;
        OkInsert(s, period, due, max, epoch, t, i, expiry);
        PromptInsert(s, period, due, base, latest, t, i, expiry);
        assert due[t := due[t]] == due;
        s := InsertTimer(s, t, i, expiry);
      }
    }

    /** prvProcessExpiredTimer: the head of the current list has reached its time. */
    method ProcessExpired(nextExpire: nat, tick: nat) returns (ghost t: Timer)
      requires Valid() && tick == lastTime && s.lists[s.cur] != []
      requires s.lists[s.cur][0] in s.value && nextExpire == s.value[s.lists[s.cur][0]] && nextExpire <= tick
      modifies this`s, this`due, this`fired, this`active
      ensures Valid() && t == old(s.lists[s.cur][0]) && Called(old(fired), fired, old(due), t)
      ensures Later(old(active), old(due), active, due) && Onward(old(active), old(due), active, due, t)
      ensures old(due)[t] <= clock && Carried(old(s.place), old(fired), s.place, fired)
    {
      ghost var place0 := s.place;
      MatchHead();
      OkLeft(s, period, due, max, epoch);
      CarriedMove(place0, fired, s.lists[s.cur][0], Idle, due[s.lists[s.cur][0]]);
      var timer, expiry, d := TakeExpired();
      t := timer;
      if reload[timer] {
        Reload(timer, nextExpire, tick, d);
        CarriedMove(place0, old(fired), t, s.place[t], d);
        MatchMoved(place0, active, held, t, s.place[t]);
        assert held - {t} == held && s.place == place0[t := s.place[t]];
      }
    }

    /** The reload in prvProcessExpiredTimer: onto a list, or by a command if the next time has passed too. */
    method Reload(timer: Timer, nextExpire: nat, tick: nat, ghost d: nat)
      requires Ok(s, period, due, max, epoch) && Prompt(s, period, due, base, latest)
      requires timer in s.place && s.place[timer] == Idle
      requires timer in period && 1 <= period[timer] <= max && timer in due && due[timer] == d + period[timer]
      requires nextExpire <= tick <= max && d == epoch + nextExpire && base <= d && epoch + tick <= latest
      modifies this`s
      ensures Ok(s, period, due, max, epoch) && Prompt(s, period, due, base, latest)
      ensures timer in s.place && s.place[timer] != Idle && s.place == old(s.place)[timer := s.place[timer]]
    {
      var again := Insert(timer, Plus(nextExpire, period[timer], max), tick, nextExpire, d);
      if again {
        OkSend(s, period, due, max, epoch, timer, nextExpire, d);
        PromptSend(s, period, due, base, latest, timer, nextExpire);
        assert due[timer := d + period[timer]] == due;
        s := Send(s, timer, nextExpire);
      }
    }

    // ----------------------------------------------------- the end of an epoch

    /** One turn of the loop in prvSwitchTimerLists: a timer left on the current list when the tick
        count has wrapped has expired. */
    method SwitchHead() returns (ghost t: Timer)
      requires Sound() && s.lists[s.cur] != [] && clock >= epoch + max + 1
      requires forall x :: x in s.lists[s.cur] ==> x in s.value && s.value[x] <= max
      modifies this`s, this`due, this`fired, this`active
      ensures Sound() && s.cur == old(s.cur)
      ensures t !in held && forall x :: x != t && x in old(s.place) ==> x in s.place && s.place[x] == old(s.place)[x]
      ensures forall x :: x != t && x in old(due) ==> x in due && due[x] == old(due)[x]
      ensures t == old(s.lists[s.cur][0]) && Called(old(fired), fired, old(due), t)
      ensures Later(old(active), old(due), active, due) && Carried(old(s.place), old(fired), s.place, fired)
      ensures Passed(t, s.cur, s.place, active, due, epoch + max)
      ensures forall x :: x in s.lists[s.cur] ==> x in s.value && s.value[x] <= max
      ensures Left(s.lists[s.cur], s.value, max) < old(Left(s.lists[s.cur], s.value, max))
    {
      ghost var place0 := s.place;
      MatchHead();
      CarriedMove(place0, fired, s.lists[s.cur][0], Idle, due[s.lists[s.cur][0]]);
      var timer, nextExpire, d := TakeExpired();
      t := timer;
      if reload[timer] {
        Restart(timer, nextExpire, d);
        CarriedMove(place0, old(fired), t, s.place[t], d);
        MatchMoved(place0, active, held, t, s.place[t]);
        assert held - {t} == held && s.place == place0[t := s.place[t]];
      }
    }

    lemma {:induction false} MatchHead()
      requires Sound() && s.lists[s.cur] != []
      ensures var t := s.lists[s.cur][0];
              && t in s.place && s.place[t] == Listed(s.cur) && t in active && t !in held
              && Match(s.place[t := Idle], active - {t}, held) && t in due && t in fired
    {
      Steadily(active, fired, start, period, due, reload);
      OkHead(s, period, due, max, epoch);
      MatchBusy(s.place, active, held, s.lists[s.cur][0]);
    }

    /** The head of the current list is taken off and called back. */
    method TakeExpired() returns (timer: Timer, nextExpire: nat, ghost d: nat)
      requires Ok(s, period, due, max, epoch) && Steady(active, fired, start, period, due, reload)
      requires Punctual(fired, clock)
      requires s.lists[s.cur] != [] && Prompt(s, period, due, base, latest)
      requires s.lists[s.cur][0] in active && s.lists[s.cur][0] in reload
      requires forall x :: x in s.lists[s.cur] ==> x in s.value && s.value[x] <= max
      requires epoch + s.value[s.lists[s.cur][0]] <= clock
      modifies this`s, this`due, this`fired, this`active
      ensures Ok(s, period, due, max, epoch) && Steady(active, fired, start, period, due, reload)
      ensures Punctual(fired, clock)
      ensures Prompt(s, period, due, base, latest) && s == TakeHead(old(s))
      ensures timer == old(s.lists[s.cur][0]) && Called(old(fired), fired, old(due), timer)
      ensures timer in period && 1 <= period[timer] <= max && timer in old(s.place)
      ensures nextExpire <= max && d == epoch + nextExpire && base <= d <= clock && d == old(due)[timer]
      ensures timer in old(s.value) && nextExpire == old(s.value)[timer]
      ensures if reload[timer] then active == old(active) && due == old(due)[timer := d + period[timer]]
              else active == old(active) - {timer} && due == old(due)
      ensures Later(old(active), old(due), active, due) && Onward(old(active), old(due), active, due, timer)
      ensures forall x :: x in s.lists[s.cur] ==> x in s.value && s.value[x] <= max
      ensures Left(s.lists[s.cur], s.value, max) + max + 1 - nextExpire == old(Left(s.lists[s.cur], s.value, max))
    {
      OkHead(s, period, due, max, epoch);
      OkTakeHead(s, period, due, max, epoch);
      timer := s.lists[s.cur][0];
      nextExpire := s.value[timer];
      PromptTake(s, period, due, base, latest, timer);
      SteadyFire(active, fired, start, period, due, reload, timer);
      FireLater(active, fired, start, period, due, reload, timer);
      d := due[timer];
      PunctualCall(fired, clock, timer, d);
      s := TakeHead(s);
      OkLeft(s, period, due, max, epoch);
      fired := fired[timer := fired[timer] + [d]];
      if reload[timer] {
        DueIdle(s, period, due, max, epoch, timer, d + period[timer]);
        PromptDue(s, period, due, max, epoch, base, latest, timer, d + period[timer]);
        due := due[timer := d + period[timer]];
      } else {
        active := active - {timer};
      }
    }

    /** The reload in prvSwitchTimerLists: into the same list while the next time is still in this
        epoch, otherwise by a command. */
    method Restart(t: Timer, nextExpire: nat, ghost d: nat)
      requires Ok(s, period, due, max, epoch) && Prompt(s, period, due, base, latest)
      requires t in s.place && s.place[t] == Idle
      requires t in period && 1 <= period[t] <= max && t in due && due[t] == d + period[t]
      requires nextExpire <= max && d == epoch + nextExpire && epoch + max + 1 <= latest && base <= d
      requires forall x :: x in s.lists[s.cur] ==> x in s.value && s.value[x] <= max
      modifies this`s
      ensures Ok(s, period, due, max, epoch) && Prompt(s, period, due, base, latest) && s.cur == old(s.cur)
      ensures s.place == old(s.place)[t := Listed(s.cur)]
              || (s.place == old(s.place)[t := Queued] && due[t] > epoch + max)
      ensures forall x :: x in s.lists[s.cur] ==> x in s.value && s.value[x] <= max
      ensures Left(s.lists[s.cur], s.value, max) <= old(Left(s.lists[s.cur], s.value, max)) + max - nextExpire
    {
      assert due[t := due[t]] == due;
      var reloadTime := Plus(nextExpire, period[t], max);
      if reloadTime > nextExpire {
        OkInsert(s, period, due, max, epoch, t, s.cur, reloadTime);
        LeftAfter(s, period, due, max, epoch, t, reloadTime);
        PromptInsert(s, period, due, base, latest, t, s.cur, reloadTime);
        s := InsertTimer(s, t, s.cur, reloadTime);
      } else {
        OkSend(s, period, due, max, epoch, t, nextExpire, d);
        PromptSend(s, period, due, base, latest, t, nextExpire);
        s := Send(s, t, nextExpire);
      }
    }

    /** Every timer left on the current list is called back, as often as it has expired. The loop ends:
        each turn brings some timer closer to the end of the epoch. */
    method WorkOff()
      requires Sound() && clock >= epoch + max + 1
      modifies this`s, this`due, this`fired, this`active
      ensures Sound() && s.lists[s.cur] == [] && s.cur == old(s.cur) && Later(old(active), old(due), active, due)
      ensures Carried(old(s.place), old(fired), s.place, fired)
      ensures WorkedOff(old(s.place), s.cur, active, due, epoch + max)
      ensures LeftAlone(held, old(due), old(fired), due, fired, s.place)
    {
      OkLeft(s, period, due, max, epoch);
      HeldIdle();
      LaterNow();
      CarriedSame(s.place, fired);
      WorkedOnIs(s.place, s.cur, s.place, active, due, epoch + max);
      while s.lists[s.cur] != []
        invariant Sound() && s.cur == old(s.cur) && Later(old(active), old(due), active, due)
        invariant Carried(old(s.place), old(fired), s.place, fired)
        invariant WorkedOn(old(s.place), s.cur, s.place, active, due, epoch + max)
        invariant forall x :: x in s.lists[s.cur] ==> x in s.value && s.value[x] <= max
        invariant LeftAlone(held, old(due), old(fired), due, fired, s.place)
        decreases Left(s.lists[s.cur], s.value, max)
      {
        WorkTurn(old(s.place), old(fired), old(active), old(due));
      }
      WorkedOnAll(s, period, due, max, epoch, old(s.place), active, epoch + max);
    }

    /** One turn of that loop, as part of the whole. */
    method WorkTurn(ghost place0: map<Timer, Where>, ghost fired0: map<Timer, seq<nat>>, ghost active0: set<Timer>,
                    ghost due0: Times)
      requires Sound() && s.lists[s.cur] != [] && clock >= epoch + max + 1
      requires Later(active0, due0, active, due) && Carried(place0, fired0, s.place, fired)
      requires WorkedOn(place0, s.cur, s.place, active, due, epoch + max)
      requires LeftAlone(held, due0, fired0, due, fired, s.place)
      requires forall x :: x in s.lists[s.cur] ==> x in s.value && s.value[x] <= max
      modifies this`s, this`due, this`fired, this`active
      ensures Sound() && s.cur == old(s.cur)
      ensures Later(active0, due0, active, due) && Carried(place0, fired0, s.place, fired)
      ensures WorkedOn(place0, s.cur, s.place, active, due, epoch + max)
      ensures LeftAlone(held, due0, fired0, due, fired, s.place)
      ensures forall x :: x in s.lists[s.cur] ==> x in s.value && s.value[x] <= max
      ensures Left(s.lists[s.cur], s.value, max) < old(Left(s.lists[s.cur], s.value, max))
    {
      ghost var t := SwitchHead();
      LaterStill(active0, due0, old(active), old(due), active, due);
      CarriedOn(place0, fired0, old(s.place), old(fired), s.place, fired);
      WorkedOnNext(place0, s.cur, old(s.place), old(active), old(due), s.place, active, due, epoch + max, t);
    }

    /** prvSwitchTimerLists. */
    method SwitchLists()
      requires Sound() && clock >= epoch + max + 1
      modifies this`s, this`due, this`fired, this`active, this`epoch
      ensures Sound() && epoch == old(epoch) + max + 1 && s.cur == 1 - old(s.cur)
      ensures Later(old(active), old(due), active, due) && Carried(old(s.place), old(fired), s.place, fired)
      ensures WorkedOff(old(s.place), old(s.cur), active, due, old(epoch) + max)
      ensures LeftAlone(held, old(due), old(fired), due, fired, s.place)
    {
      WorkOff();
      OkSwitch(s, period, due, max, epoch, base, latest);
      epoch := epoch + max + 1;
      s := s.(cur := 1 - s.cur);
    }

    lemma {:induction false} HeldIdle()
      requires Sound()
      ensures LeftAlone(held, due, fired, due, fired, s.place)
    {
      Matching(s.place, active, held);
      Steadily(active, fired, start, period, due, reload);
    }

    lemma {:induction false} LaterNow()
      requires Sound()
      ensures Later(active, due, active, due)
    {
      Steadily(active, fired, start, period, due, reload);
      LaterIs(active, due, active, due);
    }

    /** prvSampleTimeNow: notices that the tick count has wrapped, given that less than a turn has
        passed since the service last had nothing left to do. */
    method Sample(tick: nat, ghost now: nat) returns (switched: bool)
      requires Sound() && lastTime <= max && clock == epoch + lastTime
      requires latest <= now <= base + max && tick == TickAt(now, max)
      modifies this`s, this`due, this`fired, this`active, this`epoch, this`clock, this`latest, this`lastTime
      ensures Sound() && lastTime == tick && clock == latest == now == epoch + tick
      ensures switched <==> tick < old(lastTime)
      ensures epoch == if switched then old(epoch) + max + 1 else old(epoch)
      ensures !switched ==> s == old(s) && due == old(due) && fired == old(fired) && active == old(active)
      ensures Later(old(active), old(due), active, due) && Carried(old(s.place), old(fired), s.place, fired)
      ensures switched ==> WorkedOff(old(s.place), old(s.cur), active, due, old(epoch) + max)
      ensures LeftAlone(held, old(due), old(fired), due, fired, s.place)
    {
      HeldIdle();
      LaterNow();
      CarriedSame(s.place, fired);
      TickIs(epoch, now, max);
      PromptLater(s, period, due, base, latest, now);
      clock, latest := now, now;
      switched := false;
      if tick < lastTime {
        SwitchLists();
        switched := true;
      }
      lastTime := tick;
    }

    // ---------------------------------------------------------------- commands

    /** xTimerCreate. */
    method CreateTimer(t: Timer, ticks: nat, autoReload: bool)
      requires Valid() && t !in s.place && 1 <= ticks <= max
      modifies this`s, this`period, this`reload
      ensures Valid() && s.place == old(s.place)[t := Idle] && period == old(period)[t := ticks]
      ensures reload == old(reload)[t := autoReload]
    {
      OkCreate(s, period, due, max, epoch, t, ticks);
      PromptCreate(s, period, due, max, epoch, base, latest, t, ticks);
      Matching(s.place, active, held);
      SteadyCreate(active, fired, start, period, due, reload, t, ticks, autoReload);
      Matching(s.place[t := Idle], active, held);
      s := s.(place := s.place[t := Idle]);
      period, reload := period[t := ticks], reload[t := autoReload];
    }

    /** xTimerStart at time `now`, for a timer that is not active. */
    method StartTimer(t: Timer, tick: nat, ghost now: nat)
      requires Valid() && t in s.place && t !in active
      requires latest <= now <= base + max && tick == TickAt(now, max)
      modifies this`s, this`due, this`fired, this`start, this`active, this`latest
      ensures Valid() && active == old(active) + {t} && start == old(start)[t := now] && fired == old(fired)[t := []]
      ensures t in period && due == old(due)[t := now + period[t]] && latest == now
      ensures s.place == old(s.place)[t := Queued]
    {
      MatchIdle(s.place, active, held, t);
      StartSent(s, period, due, max, epoch, base, latest, t, now);
      SteadyStart(active, fired, start, period, due, reload, t, now);
      MatchStart(s.place, active, held, t, Queued);
      due, start, fired, active := due[t := now + period[t]], start[t := now], fired[t := []], active + {t};
      latest := now;
      s := Send(s, t, tick);
    }

    /** The START branch of prvProcessReceivedCommands, for the first command in the queue. */
    method ProcessCommand(tick: nat, ghost now: nat) returns (called: bool)
      requires Valid() && s.queue != [] && latest <= now <= base + max && tick == TickAt(now, max)
      modifies this`s, this`due, this`fired, this`active, this`epoch, this`clock, this`latest, this`lastTime, this`held
      ensures Valid() && clock == latest == now && lastTime == tick
      ensures epoch == old(epoch) || epoch == old(epoch) + max + 1
      ensures var t := old(s.queue[0].timer);
              && t in old(due) && t in old(fired) && t in fired && (called <==> old(due)[t] <= now)
              && (called ==> Onward(old(active), old(due), active, due, t) && fired[t] == old(fired)[t] + [old(due)[t]])
              && (!called ==> t in s.place && s.place[t].Listed? && t in due && due[t] == old(due)[t])
      ensures Later(old(active), old(due), active, due) && Carried(old(s.place), old(fired), s.place, fired)
      ensures !called && epoch == old(epoch) ==> s.queue == old(s.queue[1..])
    {
      var timer, v, c := Fetch(tick, now);
      ghost var active1, due1, place1, fired1 := active, due, s.place, fired;
      called := Begin(timer, v, tick, c);
      LaterStill(old(active), old(due), active1, due1, active, due);
      CarriedOn(old(s.place), old(fired), place1, fired1, s.place, fired);
    }

    /** The command is received, and the time looked at after that. */
    method Fetch(tick: nat, ghost now: nat) returns (timer: Timer, v: nat, ghost c: nat)
      requires Valid() && s.queue != [] && latest <= now <= base + max && tick == TickAt(now, max)
      modifies this`s, this`due, this`fired, this`active, this`epoch, this`clock, this`latest, this`lastTime, this`held
      ensures Sound() && held == {timer} && timer in s.place && lastTime == tick <= max
      ensures clock == latest == now == epoch + tick
      ensures epoch == old(epoch) || epoch == old(epoch) + max + 1
      ensures timer == old(s.queue[0].timer) && v == old(s.queue[0].value) && timer in old(active)
      ensures timer in period && 1 <= period[timer] <= max && timer in due && due[timer] == c + period[timer]
      ensures timer in old(due) && due[timer] == old(due)[timer]
      ensures timer in fired && timer in old(fired) && fired[timer] == old(fired)[timer]
      ensures v <= max && (c == epoch + v || c + max + 1 == epoch + v) && base <= c <= clock
      ensures Later(old(active), old(due), active, due) && Carried(old(s.place), old(fired), s.place, fired)
      ensures epoch == old(epoch) ==> s.queue == old(s.queue[1..])
    {
      timer, v, c := TakeCommand();
      ghost var place1 := s.place;
      var switched := Sample(tick, now);
      CarriedOn(old(s.place), old(fired), place1, old(fired), s.place, fired);
    }

    /** xQueueReceive on the timer queue. */
    method TakeCommand() returns (timer: Timer, v: nat, ghost c: nat)
      requires Valid() && s.queue != []
      modifies this`s, this`held
      ensures Sound() && held == {timer} && s == Pop(old(s)) && timer in s.place
      ensures timer == old(s.queue[0].timer) && v == old(s.queue[0].value) && timer in active
      ensures timer in period && 1 <= period[timer] <= max && timer in due && due[timer] == c + period[timer]
      ensures base <= c <= latest && CountsFrom(c, v, max, epoch)
      ensures Carried(old(s.place), fired, s.place, fired)
    {
      OkPop(s, period, due, max, epoch);
      PromptPop(s, period, due, base, latest);
      timer, v := s.queue[0].timer, s.queue[0].value;
      MatchBusy(s.place, active, held, timer);
      c := due[timer] - period[timer];
      assert held + {timer} == {timer};
      CarriedMove(s.place, fired, timer, Idle, 0);
      held := {timer};
      s := Pop(s);
    }

    /** Insert the timer of a START command, or call it back at once if its time has passed. */
    method Begin(timer: Timer, v: nat, tick: nat, ghost c: nat) returns (called: bool)
      requires Sound() && held == {timer} && timer in s.place && lastTime == tick <= max && clock == epoch + tick
      requires timer in period && 1 <= period[timer] <= max && timer in due && due[timer] == c + period[timer]
      requires v <= max && (c == epoch + v || c + max + 1 == epoch + v) && base <= c <= clock
      modifies this`s, this`due, this`fired, this`active, this`held
      ensures Valid() && (called <==> old(due)[timer] <= clock)
      ensures if called then
                && Called(old(fired), fired, old(due), timer)
                && Onward(old(active), old(due), active, due, timer)
              else
                && fired == old(fired) && s.queue == old(s.queue) && due == old(due)
                && timer in s.place && s.place[timer].Listed?
      ensures Later(old(active), old(due), active, due) && Carried(old(s.place), old(fired), s.place, fired)
    {
      MatchDone(s.place, active, timer);
      LaterNow();
      ghost var place0 := s.place;
      called := Insert(timer, Plus(v, period[timer], max), tick, v, c);
      if called {
        CallBack(timer, v);
      } else {
        MatchMoved(place0, active, held, timer, s.place[timer]);
        CarriedMove(place0, fired, timer, s.place[timer], 0);
        assert held - {timer} == {};
        held := {};
      }
    }

    /** The callback of a timer found expired when its command is processed. */
    method CallBack(timer: Timer, v: nat)
      requires Sound() && held == {timer} && timer in s.place && s.place[timer] == Idle
      requires lastTime <= max && clock == epoch + lastTime
      requires timer in period && 1 <= period[timer] <= max && timer in due && base <= due[timer] <= clock
      requires v <= max && CountsFrom(due[timer], Plus(v, period[timer], max), max, epoch)
      modifies this`s, this`due, this`fired, this`active, this`held
      ensures Valid() && Called(old(fired), fired, old(due), timer)
      ensures Later(old(active), old(due), active, due) && Onward(old(active), old(due), active, due, timer)
      ensures Carried(old(s.place), old(fired), s.place, fired)
    {
      MatchDone(s.place, active, timer);
      SteadyFire(active, fired, start, period, due, reload, timer);
      FireLater(active, fired, start, period, due, reload, timer);
      PunctualCall(fired, clock, timer, due[timer]);
      CarriedMove(s.place, fired, timer, if reload[timer] then Queued else Idle, due[timer]);
      assert s.place[timer := Idle] == s.place;
      fired := fired[timer := fired[timer] + [due[timer]]];
      if reload[timer] {
        Resend(timer, Plus(v, period[timer], max));
      } else {
        active := active - {timer};
        held := {};
      }
    }

    /** The timer just called back is started again, counting from the time it was due. */
    method Resend(timer: Timer, v: nat)
      requires Ok(s, period, due, max, epoch) && Prompt(s, period, due, base, latest) && Match(s.place, active, held)
      requires held == {timer} && timer in s.place && s.place[timer] == Idle && timer in active
      requires timer in period && timer in due && base <= due[timer] <= latest && CountsFrom(due[timer], v, max, epoch)
      modifies this`s, this`due, this`held
      ensures Ok(s, period, due, max, epoch) && Prompt(s, period, due, base, latest) && Match(s.place, active, held)
      ensures held == {} && due == old(due)[timer := old(due)[timer] + period[timer]]
      ensures s.place == old(s.place)[timer := Queued]
    {
      ghost var d := due[timer];
      OkSend(s, period, due, max, epoch, timer, v, d);
      PromptDue(s, period, due, max, epoch, base, latest, timer, d + period[timer]);
      PromptSend(s, period, due[timer := d + period[timer]], base, latest, timer, v);
      MatchMoved(s.place, active, held, timer, Queued);
      assert held - {timer} == {};
      due, held := due[timer := d + period[timer]], {};
      s := Send(s, timer, v);
    }

    /** The timers are those created by the first `k` events, and started as these say. */
    ghost predicate Tracks(events: seq<Event>, k: nat)
      reads this
      requires k <= |events|
    {
      Traced(events, k, max, s.place.Keys, fired.Keys, period, reload, start)
    }

    /** A timer is created, unless there is one of that name or its period is no period; or it is
        started, unless it does not exist or is active. */
    method Accept(events: seq<Event>, k: nat)
      requires k < |events| && Valid() && Tracks(events, k)
      requires events[k].Create? || (events[k].Start? && latest <= events[k].at <= base + max)
      modifies this`s, this`period, this`reload, this`due, this`fired, this`start, this`active, this`latest
      ensures Valid() && Tracks(events, k + 1)
      ensures latest == old(latest) || (events[k].Start? && latest == events[k].at)
    {
      match events[k]
      case Create(t, ticks, autoReload) => AcceptCreate(events, k, t, ticks, autoReload);
      case Start(t, at) => AcceptStart(events, k, t, at);
    }

    method AcceptCreate(events: seq<Event>, ghost k: nat, t: Timer, ticks: nat, autoReload: bool)
      requires k < |events| && Valid() && Tracks(events, k) && events[k] == Create(t, ticks, autoReload)
      modifies this`s, this`period, this`reload
      ensures Valid() && Tracks(events, k + 1)
    {
      if t !in s.place && 1 <= ticks <= max {
        TracedCreate(events, k, max, s.place.Keys, fired.Keys, period, reload, start);
        CreateTimer(t, ticks, autoReload);
        assert s.place.Keys == old(s.place.Keys) + {t};
      } else {
        TracedNothing(events, k, max, s.place.Keys, fired.Keys, period, reload, start);
      }
    }

    method AcceptStart(events: seq<Event>, ghost k: nat, t: Timer, at: nat)
      requires k < |events| && Valid() && Tracks(events, k) && events[k] == Start(t, at) && latest <= at <= base + max
      modifies this`s, this`due, this`fired, this`start, this`active, this`latest
      ensures Valid() && Tracks(events, k + 1) && (latest == old(latest) || latest == at)
    {
      if t in s.place {
        FiredActive(t);
      }
      if t in s.place && s.place[t] == Idle {
        TracedStart(events, k, max, s.place.Keys, fired.Keys, period, reload, start);
        StartTimer(t, TickAt(at, max), at);
        assert s.place.Keys == old(s.place.Keys) && fired.Keys == old(fired.Keys) + {t};
      } else {
        TracedNothing(events, k, max, s.place.Keys, fired.Keys, period, reload, start);
      }
    }

    /** A timer that is on a list or has a command on its way was started, and an auto-reload timer once
        started is one of these. */
    lemma {:induction false} FiredActive(t: Timer)
      requires Valid() && t in s.place
      ensures s.place[t] == Idle ==> t !in active && (t in fired ==> t in reload && !reload[t])
      ensures s.place[t] != Idle ==> t in fired
    {
      Matching(s.place, active, {});
      Steadily(active, fired, start, period, due, reload);
    }

    // ------------------------------------------------------------ the task itself

    /** prvGetNextExpireTime. */
    method NextExpireTime() returns (nextExpire: nat, wasEmpty: bool)
      requires Valid()
      ensures wasEmpty <==> s.lists[s.cur] == []
      ensures !wasEmpty ==> s.lists[s.cur][0] in s.value && nextExpire == s.value[s.lists[s.cur][0]]
    {
      OkLeft(s, period, due, max, epoch);
      wasEmpty := s.lists[s.cur] == [];
      nextExpire := if wasEmpty then 0 else s.value[s.lists[s.cur][0]];
    }

    /** prvProcessTimerOrBlockTask: `waits` when the task is to block for a command or the next expiry. */
    method ProcessTimerOrBlock(nextExpire: nat, wasEmpty: bool, tick: nat, ghost now: nat) returns (waits: bool)
      requires Valid() && (wasEmpty <==> s.lists[s.cur] == [])
      requires !wasEmpty ==> s.lists[s.cur][0] in s.value && nextExpire == s.value[s.lists[s.cur][0]]
      requires latest <= now <= base + max && tick == TickAt(now, max)
      modifies this`s, this`due, this`fired, this`active, this`epoch, this`clock, this`latest, this`lastTime
      ensures Valid() && clock == latest == now
      ensures epoch == old(epoch) || epoch == old(epoch) + max + 1
      ensures Later(old(active), old(due), active, due) && Carried(old(s.place), old(fired), s.place, fired)
      ensures waits ==> s == old(s) && fired == old(fired) && (s.queue == [] ==> Ahead(s, lastTime))
      ensures !waits && epoch == old(epoch) ==>
                exists t :: Onward(old(active), old(due), active, due, t) && old(due)[t] <= clock
    {
      waits := false;
      var switched := Sample(tick, now);
      if !switched {
        CarriedSame(s.place, fired);
        if !wasEmpty && nextExpire <= tick {
          ghost var t := ProcessExpired(nextExpire, tick);
        } else {
          waits := true;
        }
      }
    }

    /** prvProcessReceivedCommands: every command, at whatever times the clock shows. `order` lists the
        active timers, and `n` is a time not reached before the service rests. */
    method ProcessCommands(readings: seq<nat>, i: nat, ghost n: nat, ghost order: seq<Timer>) returns (j: nat)
      requires Valid() && Ascending(readings) && n == ReadingAt(readings, |readings|) <= base + max
      requires latest <= ReadingAt(readings, i) && (forall t :: t in active ==> t in order)
      modifies this`s, this`due, this`fired, this`active, this`epoch, this`clock, this`latest, this`lastTime, this`held
      ensures Valid() && s.queue == [] && latest <= ReadingAt(readings, j) && clock >= old(clock) && epoch >= old(epoch)
      ensures Later(old(active), old(due), active, due) && Carried(old(s.place), old(fired), s.place, fired)
    {
      j := i;
      LaterNow();
      CarriedSame(s.place, fired);
      Gathered(readings, i);
      while s.queue != []
        invariant Valid() && latest <= ReadingAt(readings, j) <= n && clock >= old(clock) && epoch >= old(epoch)
        invariant Later(old(active), old(due), active, due) && (forall t :: t in active ==> t in order)
        invariant Carried(old(s.place), old(fired), s.place, fired)
        decreases n - epoch, Lag(order, active, due, n), |s.queue|
      {
        ghost var active1, due1, t := active, due, s.queue[0].timer;
        ghost var place1, fired1 := s.place, fired;
        var now := ReadingAt(readings, j);
        var called := ProcessCommand(TickAt(now, max), now);
        LaterIs(active1, due1, active, due);
        LagFalls(order, active1, due1, active, due, n);
        if called {
          LagDrops(order, active1, due1, active, due, n, t);
        }
        LaterStill(old(active), old(due), active1, due1, active, due);
        CarriedOn(old(s.place), old(fired), place1, fired1, s.place, fired);
        Gathered(readings, j);
        j := j + 1;
      }
    }

    /** prvTimerTask from the moment it is woken until it blocks again, the clock showing the given
        readings one after the other. It does block, and then every timer due has been called back. */
    method Serve(readings: seq<nat>)
      requires Valid() && Ascending(readings) && latest <= readings[0] && ReadingAt(readings, |readings|) <= base + max
      modifies this`s, this`due, this`fired, this`active, this`epoch, this`clock, this`latest, this`lastTime, this`held,
               this`base
      ensures Valid() && Ahead(s, lastTime) && Settled()
      ensures readings[0] <= clock == base == latest <= ReadingAt(readings, |readings|)
      ensures Carried(old(s.place), old(fired), s.place, fired)
    {
      ghost var n := ReadingAt(readings, |readings|);
      ghost var order := Listing(active);
      var i := ProcessCommands(readings, 0, n, order);
      LaterIs(old(active), old(due), active, due);
      var waits := false;
      while !waits
        invariant Valid() && latest <= ReadingAt(readings, i) && base == old(base) && s.queue == []
        invariant (forall t :: t in active ==> t in order) && Carried(old(s.place), old(fired), s.place, fired)
        invariant waits ==> Ahead(s, lastTime) && readings[0] <= clock == latest <= n
        decreases !waits, n - epoch, Lag(order, active, due, n)
      {
        ghost var place1, fired1 := s.place, fired;
        i, waits := Round(readings, i, n, order);
        CarriedOn(old(s.place), old(fired), place1, fired1, s.place, fired);
      }
      Rest();
    }

    /** The task blocks with nothing left to do. */
    ghost method Rest()
      requires Valid() && Ahead(s, lastTime) && latest == clock
      modifies this`base
      ensures Valid() && base == clock && Settled()
    {
      PromptRest(s, period, due, max, epoch, lastTime);
      base := clock;
      AllCaughtUp();
    }

    /** Once round the loop of prvTimerTask. */
    method Round(readings: seq<nat>, i: nat, ghost n: nat, ghost order: seq<Timer>) returns (j: nat, waits: bool)
      requires Valid() && Ascending(readings) && n == ReadingAt(readings, |readings|) <= base + max
      requires s.queue == [] && latest <= ReadingAt(readings, i) && (forall t :: t in active ==> t in order)
      modifies this`s, this`due, this`fired, this`active, this`epoch, this`clock, this`latest, this`lastTime, this`held
      ensures Valid() && s.queue == [] && latest <= ReadingAt(readings, j)
      ensures active <= old(active) && Carried(old(s.place), old(fired), s.place, fired)
      ensures waits ==> Ahead(s, lastTime) && readings[0] <= clock == latest <= n
      ensures !waits ==>
                || epoch > old(epoch)
                || (epoch == old(epoch) && Lag(order, active, due, n) < Lag(order, old(active), old(due), n))
    {
      Gathered(readings, i);
      j := i + 1;
      var now := ReadingAt(readings, i);
      var nextExpire, wasEmpty := NextExpireTime();
      waits := ProcessTimerOrBlock(nextExpire, wasEmpty, TickAt(now, max), now);
      LaterIs(old(active), old(due), active, due);
      ghost var active1, due1, place1, fired1 := active, due, s.place, fired;
      if !waits {
        if epoch == old(epoch) {
          ghost var t :| Onward(old(active), old(due), active, due, t) && old(due)[t] <= clock;
          LagDrops(order, old(active), old(due), active, due, n, t);
        }
        j := ProcessCommands(readings, j, n, order);
        LaterIs(active1, due1, active, due);
        LagFalls(order, active1, due1, active, due, n);
        CarriedOn(old(s.place), old(fired), place1, fired1, s.place, fired);
      }
    }

    /** No drift and no call lost: whenever the service has nothing left to do, a timer has been called
        back exactly once for every start + k * period up to now, and a one-shot timer for the first. */
    lemma {:induction false} CaughtUp(t: Timer)
      requires Valid() && t in fired && Ahead(s, lastTime)
      ensures t in start && t in period && t in reload && OnSchedule(fired[t], start[t], period[t], reload[t], clock)
    {
      Steadily(active, fired, start, period, due, reload);
      Matching(s.place, active, held);
      if t in active {
        AllAhead(s, period, due, max, epoch, lastTime, t);
      }
      assert forall k :: 0 <= k < |fired[t]| ==> fired[t][k] <= clock;
      Scheduled(fired[t], start[t], period[t], reload[t], clock);
    }

    lemma {:induction false} AllCaughtUp()
      requires Valid() && Ahead(s, lastTime)
      ensures Settled()
    {
      forall t | t in fired
        ensures t in start && t in period && t in reload && OnSchedule(fired[t], start[t], period[t], reload[t], clock)
      {
        CaughtUp(t);
      }
    }

    /** One event of a run. */
    method Handle(events: seq<Event>, k: nat, ghost looked: nat, ghost heard: nat)
      returns (ghost looked': nat, ghost heard': nat)
      requires k < |events| && Valid() && Tracks(events, k)
      requires Paced(events[k..], looked, heard, max) && looked <= base && latest <= heard
      modifies this
      ensures Valid() && Tracks(events, k + 1)
      ensures Paced(events[k + 1..], looked', heard', max) && looked' <= base && latest <= heard'
      ensures events[k].Wake? ==> Done(events[k].readings)
    {
      PacedNext(events, k, looked, heard, max);
      looked', heard' := looked, heard;
      if events[k].Wake? {
        var readings := events[k].readings;
        TracedNothing(events, k, max, s.place.Keys, fired.Keys, period, reload, start);
        Serve(readings);
        CarriedIs(old(s.place), old(fired), s.place, fired);
        looked', heard' := readings[0], ReadingAt(readings, |readings|);
      } else {
        Accept(events, k);
        heard' := if events[k].Start? then events[k].at else heard;
      }
    }

    /** The task has blocked with every timer on its schedule, at a time that was read. */
    ghost predicate Done(readings: seq<nat>)
      reads this
    {
      Settled() && readings != [] && readings[0] <= clock <= ReadingAt(readings, |readings|)
    }

    /** What CaughtUp says, of every timer that was ever started. */
    ghost predicate Settled()
      reads this
    {
      forall t :: t in fired ==>
        && t in start && t in period && t in reload
        && OnSchedule(fired[t], start[t], period[t], reload[t], clock)
    }
  }

  /** Called back for each of the times start + period, start + 2 * period, ... that `clock` has reached,
      once and in order; without auto-reload for the first of them only. */
  ghost predicate OnSchedule(f: seq<nat>, start: nat, period: nat, again: bool, clock: nat) {
    && InTurn(f, start, period) && (again || |f| <= 1)
    && forall k: nat :: k == 0 || again ==> (k < |f| <==> Nth(start, period, k) <= clock)
  }

  lemma {:induction false} Scheduled(f: seq<nat>, start: nat, period: nat, again: bool, clock: nat)
    requires InTurn(f, start, period) && (forall k :: 0 <= k < |f| ==> f[k] <= clock)
    requires Nth(start, period, |f|) > clock || (!again && |f| == 1)
    requires again || |f| <= 1
    ensures OnSchedule(f, start, period, again, clock)
  {
    forall k: nat | k == 0 || again ensures k < |f| <==> Nth(start, period, k) <= clock {
      if k < |f| {
        assert f[k] == Nth(start, period, k);
      } else {
        NthGrows(start, period, |f|, k);
      }
    }
  }

  // ------------------------------------------------------------------- whole runs

  /** Readings of the clock: at least one, and never falling. */
  predicate Ascending(readings: seq<nat>) {
    readings != [] && forall i, j :: 0 <= i < j < |readings| ==> readings[i] <= readings[j]
  }

  /** Reading number `i`; the clock stands still after the last. */
  function ReadingAt(readings: seq<nat>, i: nat): nat
    requires readings != []
  {
    if i < |readings| then readings[i] else readings[|readings| - 1]
  }

  lemma {:induction false} Gathered(readings: seq<nat>, i: nat)
    requires Ascending(readings)
    ensures readings[0] <= ReadingAt(readings, i) <= ReadingAt(readings, i + 1) <= ReadingAt(readings, |readings|)
  {
  }

  /** What happens to the service: timers are created and started at some time, and its task is woken
      and runs until it blocks again, looking at the clock as often as it needs to. */
  datatype Event =
    | Create(timer: Timer, ticks: nat, autoReload: bool)
    | Start(timer: Timer, at: nat)
    | Wake(readings: seq<nat>)

  /** The clock never falls, and between the first look at the clock in one waking and everything up to
      the last look in the next there is less than a turn of the tick count. */
  predicate Paced(events: seq<Event>, looked: nat, latest: nat, max: nat)
    decreases |events|
  {
    events != [] ==>
      match events[0]
      case Create(_, _, _) => Paced(events[1..], looked, latest, max)
      case Start(_, at) => latest <= at <= looked + max && Paced(events[1..], looked, at, max)
      case Wake(readings) =>
        && Ascending(readings) && latest <= readings[0] && ReadingAt(readings, |readings|) <= looked + max
        && Paced(events[1..], readings[0], ReadingAt(readings, |readings|), max)
  }

  lemma {:induction false} PacedNext(events: seq<Event>, k: nat, looked: nat, latest: nat, max: nat)
    requires k < |events| && Paced(events[k..], looked, latest, max)
    ensures match events[k]
            case Create(_, _, _) => Paced(events[k + 1..], looked, latest, max)
            case Start(_, at) => latest <= at <= looked + max && Paced(events[k + 1..], looked, at, max)
            case Wake(readings) =>
              && Ascending(readings) && latest <= readings[0] && ReadingAt(readings, |readings|) <= looked + max
              && Paced(events[k + 1..], readings[0], ReadingAt(readings, |readings|), max)
  {
    assert events[k..][0] == events[k] && events[k..][1..] == events[k + 1..];
  }

  /** The event creates the timer, if there is none of that name yet. */
  predicate Makes(event: Event, t: Timer, max: nat) {
    event.Create? && event.timer == t && 1 <= event.ticks <= max
  }

  /** Which of the first `n` events created the timer; `n` if none did. */
  function MadeAt(events: seq<Event>, t: Timer, max: nat, n: nat): (k: nat)
    requires n <= |events|
    ensures k <= n && (k < n ==> Makes(events[k], t, max)) && forall i :: 0 <= i < k ==> !Makes(events[i], t, max)
  {
    if n == 0 then 0
    else
      var k := MadeAt(events, t, max, n - 1);
      if k < n - 1 || Makes(events[n - 1], t, max) then k else n
  }

  /** Event `i` is a START for a timer that exists by then. */
  predicate Starts(events: seq<Event>, i: nat, t: Timer, max: nat)
    requires i < |events|
  {
    events[i].Start? && events[i].timer == t && MadeAt(events, t, max, i) < i
  }

  /** Which of the first `n` events first started the timer; `n` if none did. */
  function StartedAt(events: seq<Event>, t: Timer, max: nat, n: nat): (k: nat)
    requires n <= |events|
    ensures k <= n && (k < n ==> Starts(events, k, t, max)) && forall i :: 0 <= i < k ==> !Starts(events, i, t, max)
  {
    if n == 0 then 0
    else
      var k := StartedAt(events, t, max, n - 1);
      if k < n - 1 || Starts(events, n - 1, t, max) then k else n
  }

  /** A timer exists, and was ever started, as the first `n` events say. Its period is the one it was
      created with, its starting time that of a START, and an auto-reload timer counts from its first one. */
  predicate Agreed(events: seq<Event>, n: nat, max: nat, t: Timer, timers: set<Timer>, started: set<Timer>,
                   period: Times, reload: map<Timer, bool>, start: Times)
    requires n <= |events|
  {
    var made, began := MadeAt(events, t, max, n), StartedAt(events, t, max, n);
    && (t in timers <==> made < n) && (t in started <==> began < n)
    && (t in timers ==> t in period && t in reload && events[made] == Create(t, period[t], reload[t]))
    && (t in started ==>
          && t in start && t in reload && Start(t, start[t]) in events[..n]
          && (reload[t] ==> events[began] == Start(t, start[t])))
  }

  ghost predicate Follows(events: seq<Event>, n: nat, max: nat, timers: set<Timer>, started: set<Timer>, period: Times,
                          reload: map<Timer, bool>, start: Times)
    requires n <= |events|
  {
    forall t :: Agreed(events, n, max, t, timers, started, period, reload, start)
  }

  ghost predicate Follows0(level: nat, events: seq<Event>, n: nat, max: nat, timers: set<Timer>, started: set<Timer>,
                     period: Times, reload: map<Timer, bool>, start: Times)
    requires n <= |events|
  {
    if level == 0 then Follows(events, n, max, timers, started, period, reload, start)
    else Follows0(level - 1, events, n, max, timers, started, period, reload, start)
  }

  /** Follows by another name, kept folded. */
  ghost predicate Traced(events: seq<Event>, n: nat, max: nat, timers: set<Timer>, started: set<Timer>, period: Times,
                   reload: map<Timer, bool>, start: Times)
    requires n <= |events|
  {
    Follows0(2, events, n, max, timers, started, period, reload, start)
  }

  lemma {:induction false} TracedIs(events: seq<Event>, n: nat, max: nat, timers: set<Timer>, started: set<Timer>,
                                    period: Times, reload: map<Timer, bool>, start: Times)
    requires n <= |events|
    ensures Traced(events, n, max, timers, started, period, reload, start) <==>
            Follows(events, n, max, timers, started, period, reload, start)
  {
    assert Follows0(1, events, n, max, timers, started, period, reload, start) ==
           Follows0(0, events, n, max, timers, started, period, reload, start);
  }

  /** The event is nothing to this timer: it neither creates it nor starts it for the first time. */
  predicate Irrelevant(event: Event, t: Timer, max: nat, timers: set<Timer>, started: set<Timer>) {
    match event
    case Create(x, ticks, _) => x != t || t in timers || !(1 <= ticks <= max)
    case Start(x, _) => x != t || t !in timers || t in started
    case Wake(_) => true
  }

  lemma {:induction false} AgreedStill(events: seq<Event>, k: nat, max: nat, t: Timer, timers: set<Timer>,
                                       started: set<Timer>, period: Times, reload: map<Timer, bool>, start: Times)
    requires k < |events| && Agreed(events, k, max, t, timers, started, period, reload, start)
    requires Irrelevant(events[k], t, max, timers, started)
    ensures Agreed(events, k + 1, max, t, timers, started, period, reload, start)
  {
    assert events[..k + 1] == events[..k] + [events[k]];
  }

  /** An event that neither creates nor starts a timer for the first time. */
  lemma {:induction false} TracedNothing(events: seq<Event>, k: nat, max: nat, timers: set<Timer>, started: set<Timer>,
                                         period: Times, reload: map<Timer, bool>, start: Times)
    requires k < |events| && Traced(events, k, max, timers, started, period, reload, start)
    requires forall t :: Irrelevant(events[k], t, max, timers, started)
    ensures Traced(events, k + 1, max, timers, started, period, reload, start)
  {
    TracedIs(events, k, max, timers, started, period, reload, start);
    var n := k + 1;
    forall t ensures Agreed(events, n, max, t, timers, started, period, reload, start) {
      assert Irrelevant(events[k], t, max, timers, started);
      AgreedStill(events, k, max, t, timers, started, period, reload, start);
    }
    TracedIs(events, k + 1, max, timers, started, period, reload, start);
  }

  lemma {:induction false} TracedCreate(events: seq<Event>, k: nat, max: nat, timers: set<Timer>, started: set<Timer>,
                                        period: Times, reload: map<Timer, bool>, start: Times)
    requires k < |events| && Traced(events, k, max, timers, started, period, reload, start)
    requires events[k].Create? && events[k].timer !in timers && 1 <= events[k].ticks <= max
    ensures var t := events[k].timer;
            Traced(events, k + 1, max, timers + {t}, started, period[t := events[k].ticks],
                   reload[t := events[k].autoReload], start)
  {
    var x := events[k].timer;
    var timers', period', reload' := timers + {x}, period[x := events[k].ticks], reload[x := events[k].autoReload];
    TracedIs(events, k, max, timers, started, period, reload, start);
    var n := k + 1;
    forall t ensures Agreed(events, n, max, t, timers', started, period', reload', start) {
      assert Agreed(events, k, max, t, timers, started, period, reload, start);
      if t == x {
        AgreedCreate(events, k, max, timers, started, period, reload, start);
      } else {
        AgreedStill(events, k, max, t, timers, started, period, reload, start);
      }
    }
    TracedIs(events, k + 1, max, timers', started, period', reload', start);
  }

  lemma {:induction false} AgreedCreate(events: seq<Event>, k: nat, max: nat, timers: set<Timer>, started: set<Timer>,
                                        period: Times, reload: map<Timer, bool>, start: Times)
    requires k < |events| && events[k].Create? && events[k].timer !in timers && 1 <= events[k].ticks <= max
    requires Agreed(events, k, max, events[k].timer, timers, started, period, reload, start)
    ensures var t := events[k].timer;
            Agreed(events, k + 1, max, t, timers + {t}, started, period[t := events[k].ticks],
                   reload[t := events[k].autoReload], start)
  {
    StartedMade(events, events[k].timer, max, k);
  }

  /** Only a timer that exists can be started. */
  lemma {:induction false} StartedMade(events: seq<Event>, t: Timer, max: nat, n: nat)
    requires n <= |events|
    ensures StartedAt(events, t, max, n) < n ==> MadeAt(events, t, max, n) < n
  {
    var k := StartedAt(events, t, max, n);
    if k < n {
      assert Makes(events[MadeAt(events, t, max, k)], t, max);
    }
  }

  lemma {:induction false} TracedStart(events: seq<Event>, k: nat, max: nat, timers: set<Timer>, started: set<Timer>,
                                       period: Times, reload: map<Timer, bool>, start: Times)
    requires k < |events| && Traced(events, k, max, timers, started, period, reload, start)
    requires events[k].Start? && events[k].timer in timers
    requires events[k].timer in started ==> events[k].timer in reload && !reload[events[k].timer]
    ensures var t := events[k].timer;
            Traced(events, k + 1, max, timers, started + {t}, period, reload, start[t := events[k].at])
  {
    var x := events[k].timer;
    var started', start' := started + {x}, start[x := events[k].at];
    TracedIs(events, k, max, timers, started, period, reload, start);
    var n := k + 1;
    forall t ensures Agreed(events, n, max, t, timers, started', period, reload, start') {
      assert Agreed(events, k, max, t, timers, started, period, reload, start);
      if t == x {
        AgreedStart(events, k, max, timers, started, period, reload, start);
      } else {
        AgreedStill(events, k, max, t, timers, started, period, reload, start);
      }
    }
    TracedIs(events, k + 1, max, timers, started', period, reload, start');
  }

  lemma {:induction false} AgreedStart(events: seq<Event>, k: nat, max: nat, timers: set<Timer>, started: set<Timer>,
                                       period: Times, reload: map<Timer, bool>, start: Times)
    requires k < |events| && events[k].Start? && events[k].timer in timers
    requires events[k].timer in started ==> events[k].timer in reload && !reload[events[k].timer]
    requires Agreed(events, k, max, events[k].timer, timers, started, period, reload, start)
    ensures var t := events[k].timer;
            Agreed(events, k + 1, max, t, timers, started + {t}, period, reload, start[t := events[k].at])
  {
    assert events[..k + 1] == events[..k] + [events[k]];
  }

  /** Any run of the service: whenever its task blocks, each timer that was created and started has been
      called back exactly on its schedule. A START for a timer that is active is passed over. */
  method Run(max: nat, events: seq<Event>) returns (d: Daemon)
    requires Paced(events, 0, 0, max)
    ensures d.Valid() && d.max == max
    ensures Follows(events, |events|, max, d.s.place.Keys, d.fired.Keys, d.period, d.reload, d.start)
    ensures events != [] && events[|events| - 1].Wake? ==> d.Done(events[|events| - 1].readings)
  {
    d := new Daemon(max);
    ghost var looked: nat, latest: nat := 0, 0;
    var k := 0;
    TracedIs(events, 0, max, {}, {}, map[], map[], map[]);
    while k < |events|
      invariant k <= |events| && d.Valid() && d.max == max && fresh(d) && d.Tracks(events, k)
      invariant Paced(events[k..], looked, latest, max) && looked <= d.base && d.latest <= latest
      invariant k > 0 && events[k - 1].Wake? ==> d.Done(events[k - 1].readings)
    {
      looked, latest := d.Handle(events, k, looked, latest);
      k := k + 1;
    }
    TracedIs(events, k, max, d.s.place.Keys, d.fired.Keys, d.period, d.reload, d.start);
  }

  lemma {:induction false} QueuedThere(queue: seq<Command>, place: map<Timer, Where>, t: Timer)
    requires QueueHas(queue, place) && t in place
    ensures place[t] == Queued ==> InQueue(queue, t)
  {
  }

  lemma {:induction false} AllListed(s: Service, period: Times, due: Times, max: nat, epoch: nat, t: Timer)
    requires Agrees(s, period, due, max, epoch) && t in s.place && s.place[t].Listed? && s.place[t].i != s.cur
    ensures t in due && due[t] > epoch + max
  {
  }

  lemma {:induction false} NthGrows(start: nat, period: nat, i: nat, j: nat)
    requires i <= j
    ensures Nth(start, period, i) <= Nth(start, period, j)
  {
    if i < j {
      NthGrows(start, period, i, j - 1);
    }
  }

  /** Call number `k` is due k + 1 periods after the start. */
  lemma {:induction false} NthIs(start: nat, period: nat, k: nat)
    ensures Nth(start, period, k) == start + (k + 1) * period
  {
    if k > 0 {
      NthIs(start, period, k - 1);
    }
  }

  lemma {:induction false} OkPeriod(s: Service, period: Times, due: Times, max: nat, epoch: nat, t: Timer)
    requires Ok(s, period, due, max, epoch) && t in s.place
    ensures t in period && 1 <= period[t] <= max
  {
    Unfold(s, period, due, max, epoch);
  }

  lemma {:induction false} OkCreate(s: Service, period: Times, due: Times, max: nat, epoch: nat, t: Timer, ticks: nat)
    requires Ok(s, period, due, max, epoch) && t !in s.place && 1 <= ticks <= max
    ensures Ok(s.(place := s.place[t := Idle]), period[t := ticks], due, max, epoch)
  {
    Unfold(s, period, due, max, epoch);
    ListJoined(s.lists[0], s.place, 0, t);
    ListJoined(s.lists[1], s.place, 1, t);
    QueueJoined(s.queue, s.place, period, due, max, epoch, t, ticks);
    assert ListTimes(s.place[t := Idle], s.value, due, max, epoch, s.cur);
    OkIs(s.(place := s.place[t := Idle]), period[t := ticks], due, max, epoch, 0, 1);
  }

  lemma {:induction false} ListJoined(q: seq<Timer>, place: map<Timer, Where>, j: nat, t: Timer)
    requires ListHas(q, place, j) && t !in place
    ensures ListHas(q, place[t := Idle], j)
  {
  }

  lemma {:induction false} QueueJoined(queue: seq<Command>, place: map<Timer, Where>, period: Times, due: Times,
                                       max: nat, epoch: nat, t: Timer, ticks: nat)
    requires QueueHas(queue, place) && QueueTimes(queue, period, due, max, epoch) && t !in place
    ensures QueueHas(queue, place[t := Idle]) && QueueTimes(queue, period[t := ticks], due, max, epoch)
  {
  }

  lemma {:induction false} LeftAfter(s: Service, period: Times, due: Times, max: nat, epoch: nat, t: Timer, v: nat)
    requires Ok(s, period, due, max, epoch) && t in s.place && s.place[t] == Idle && v <= max
    ensures forall x :: x in s.lists[s.cur] ==> x in s.value && s.value[x] <= max
    ensures var s' := InsertTimer(s, t, s.cur, v);
            && (forall x :: x in s'.lists[s.cur] ==> x in s'.value && s'.value[x] <= max)
            && Left(s'.lists[s.cur], s'.value, max) == Left(s.lists[s.cur], s.value, max) + max + 1 - v
  {
    OkLeft(s, period, due, max, epoch);
    var q := s.lists[s.cur];
    LeftInsert(q, s.value, max, FirstGreater(Tasks.Vals(q, s.value), v), t, v);
  }

  /** The due time of a timer on no list and in no command is free. */
  lemma {:induction false} DueIdle(s: Service, period: Times, due: Times, max: nat, epoch: nat, t: Timer, d: nat)
    requires Ok(s, period, due, max, epoch) && t in s.place && s.place[t] == Idle
    ensures Ok(s, period, due[t := d], max, epoch)
  {
    Unfold(s, period, due, max, epoch);
    QueueKeeps(s.queue, s.place, period, due, max, epoch, t, Idle, d);
    Unfold(s, period, due[t := d], max, epoch);
  }

  /** A callback leaves its timer done, or due later, and the other timers as they were. */
  lemma {:induction false} FireLater(active: set<Timer>, fired: map<Timer, seq<nat>>, start: Times, period: Times,
                                     due: Times, reload: map<Timer, bool>, t: Timer)
    requires Steady(active, fired, start, period, due, reload) && t in active && t in period && period[t] >= 1
    ensures t in due && Later(active, due, active - {t}, due)
    ensures Later(active, due, active, due[t := due[t] + period[t]])
  {
    Steadily(active, fired, start, period, due, reload);
    LaterIs(active, due, active - {t}, due);
    LaterIs(active, due, active, due[t := due[t] + period[t]]);
  }

  /** No callback comes before its time. */
  predicate Punctual(fired: map<Timer, seq<nat>>, clock: nat) {
    forall t, k :: t in fired && 0 <= k < |fired[t]| ==> fired[t][k] <= clock
  }

  lemma {:induction false} PunctualCall(fired: map<Timer, seq<nat>>, clock: nat, t: Timer, d: nat)
    requires Punctual(fired, clock) && t in fired && d <= clock
    ensures Punctual(fired[t := fired[t] + [d]], clock)
  {
  }

  /** One callback, for the time the timer was due. */
  predicate Called(before: map<Timer, seq<nat>>, after: map<Timer, seq<nat>>, due: Times, t: Timer) {
    t in before && t in due && after == before[t := before[t] + [due[t]]]
  }
}
