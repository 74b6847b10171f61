/** Runs of the scheduler: any sequence of calls and interrupts, each doing what tasks.c says, and after
    each of them the current task has the highest ready priority or a switch has been asked for. */
module TaskRuns {
  import opened Rings
  import opened TaskLists
  import opened Tasks

  /** What tasks and interrupts do to the scheduler. */
  datatype Call =
    | Create(t: Task, p: nat)
    | Sleep(ticks: nat)                          // vTaskDelay
    | Wait(ticks: nat)                           // vTaskPlaceOnEventList
    | Wake(t: Task)                              // xTaskRemoveFromEventList
    | Suspend(t: Task)
    | Delete(t: Task)
    | Resume(t: Task)
    | SetPriority(t: Task, p: nat)
    | Inherit(holder: Task)
    | Give(holder: Task, waiters: seq<Task>)     // a mutex given back, with the tasks that wait for it
    | Interrupt                                  // the tick
    | Lock                                       // vTaskSuspendAll
    | Unlock                                     // xTaskResumeAll
    | Switch                                     // vTaskSwitchContext

  /** What can be seen of the scheduler. `asked`: a context switch has been asked for and not yet made. */
  datatype View = View(place: map<Task, Place>, prio: Values, base: Values, current: Task, depth: nat,
                       waiting: set<Task>, pending: seq<Task>, now: nat, pended: nat, deadline: Values, asked: bool)

  ghost function Seen(k: Kernel, asked: bool): View
    reads k
  {
    View(k.lists.place, k.prio, k.base, k.current, k.depth, k.waiting, k.pending, k.Now(), k.pendedTicks, k.deadline,
         asked)
  }

  predicate IsReady(place: map<Task, Place>, t: Task) { t in place && place[t].Ready? }

  /** The call can be made. The idle task never blocks and is never suspended or deleted; only a task that
      is ready calls. */
  predicate Enabled(call: Call, place: map<Task, Place>, current: Task, depth: nat, waiting: set<Task>, n: nat,
                    max: nat, idle: Task) {
    match call
    case Create(t, p) => t !in place && p < n
    case Sleep(ticks) => depth == 0 && IsReady(place, current) && current != idle && ticks <= max
    case Wait(ticks) => IsReady(place, current) && current != idle && 1 <= ticks <= max
    case Wake(t) => t in waiting
    case Suspend(t) => t in place && t != idle
    case Delete(t) => t in place && t != idle
    case Resume(t) => t in place
    case SetPriority(t, _) => t in place
    case Inherit(holder) => holder in place
    case Give(holder, waiters) => IsReady(place, holder) && (waiters != [] ==> waiters[0] in waiting)
    case Interrupt => true
    case Lock => true
    case Unlock => depth > 0
    case Switch => true
  }

  function Capped(p: nat, n: nat): nat { if p >= n && n > 0 then n - 1 else p }

  /** A ready task goes to the list of its priority. */
  function Reranked(place: map<Task, Place>, t: Task, p: nat): map<Task, Place> {
    if IsReady(place, t) then place[t := Ready(p)] else place
  }

  /** The priorities once `holder` has given the mutex back. */
  function GivenBack(prio: Values, base: Values, holder: Task): Values { prio[holder := PrioOf(base, holder)] }

  predicate Outranks(prio: Values, t: Task, current: Task) { PrioOf(prio, t) >= PrioOf(prio, current) }

  /** What a call that can be made does. Which tasks wait for events after a call that lets time pass is
      left open: those that became ready no longer do. */
  ghost predicate Does(call: Call, a: View, b: View, n: nat, max: nat) {
    match call
    case Create(t, p) =>
      b == a.(place := a.place[t := Ready(p)], prio := a.prio[t := p], base := a.base[t := p],
              asked := a.asked || PrioOf(a.prio, a.current) < p)
    case Sleep(ticks) =>
      if ticks == 0 then b == a.(asked := true)
      else
        && a.current in b.place && b.place[a.current].Timed?
        && b == a.(place := a.place[a.current := b.place[a.current]], waiting := b.waiting,
                   deadline := a.deadline[a.current := a.now + ticks], asked := true)
    case Wait(ticks) =>
      && a.current in b.place && (if ticks == max then b.place[a.current] == Suspended else b.place[a.current].Timed?)
      && b == a.(place := a.place[a.current := b.place[a.current]], waiting := a.waiting + {a.current},
                 deadline := if ticks == max then a.deadline else a.deadline[a.current := a.now + ticks],
                 asked := true)
    case Wake(t) =>
      var next := a.(waiting := a.waiting - {t}, asked := a.asked || Outranks(a.prio, t, a.current));
      b == if a.depth == 0 then next.(place := a.place[t := Ready(PrioOf(a.prio, t))])
           else next.(pending := a.pending + [t])
    case Suspend(t) =>
      b == a.(place := a.place[t := Suspended], waiting := a.waiting - {t}, pending := LeftOut(a.pending, t),
              asked := a.asked || t == a.current)
    case Delete(t) =>
      b == a.(place := a.place[t := Dead], waiting := a.waiting - {t}, pending := LeftOut(a.pending, t),
              asked := a.asked || t == a.current)
    case Resume(t) =>
      if t != a.current && t in a.place && a.place[t] == Suspended && t !in a.pending && t !in a.waiting then
        b == a.(place := a.place[t := Ready(PrioOf(a.prio, t))], asked := a.asked || Outranks(a.prio, t, a.current))
      else b == a
    case SetPriority(t, p0) =>
      var p, was := Capped(p0, n), PrioOf(a.base, t);
      var q := if PrioOf(a.prio, t) == was then p else PrioOf(a.prio, t);
      b == a.(place := Reranked(a.place, t, q), prio := a.prio[t := q], base := a.base[t := p],
              asked := a.asked || if t == a.current then p < was else was < p && PrioOf(a.prio, a.current) <= p)
    case Inherit(holder) =>
      var q := if Outranks(a.prio, holder, a.current) then PrioOf(a.prio, holder) else PrioOf(a.prio, a.current);
      b == a.(place := Reranked(a.place, holder, q), prio := a.prio[holder := q])
    case Give(holder, waiters) =>
      var prio := GivenBack(a.prio, a.base, holder);
      var next := a.(place := a.place[holder := Ready(PrioOf(a.base, holder))], prio := prio);
      b == if waiters == [] then next
           else
             var w := waiters[0];
             var woken := next.(waiting := a.waiting - {w}, asked := a.asked || Outranks(prio, w, a.current));
             if a.depth == 0 then woken.(place := next.place[w := Ready(PrioOf(prio, w))])
             else woken.(pending := a.pending + [w])
    case Interrupt =>
      && (a.asked ==> b.asked)
      && (if a.depth > 0 then b == a.(pended := a.pended + 1, waiting := b.waiting)
          else
            && WokeExactly(a.place, b.place, a.deadline, a.now + 1, a.prio)
            && b == a.(place := b.place, now := a.now + 1, waiting := b.waiting, asked := b.asked))
    case Lock => b == a.(depth := a.depth + 1)
    case Unlock =>
      if a.depth > 1 then b == a.(depth := a.depth - 1, waiting := b.waiting)
      else
        && (a.asked ==> b.asked)
        && ResumedExactly(a.place, b.place, a.deadline, a.now, a.now + a.pended, a.prio, a.pending)
        && b == a.(place := b.place, depth := 0, now := a.now + a.pended, pended := 0, pending := [],
                   waiting := b.waiting, asked := b.asked)
    case Switch => if a.depth > 0 then b == a else b == a.(current := b.current, asked := false)
  }

  /** A step of a run: a call that cannot be made is passed over. */
  ghost predicate Step(call: Call, a: View, b: View, n: nat, max: nat, idle: Task) {
    if Enabled(call, a.place, a.current, a.depth, a.waiting, n, max, idle) then Does(call, a, b, n, max) else b == a
  }

  /** The current task has the highest ready priority, or a switch has been asked for. */
  predicate Good(v: View) { v.asked || Leads(v.place, v.prio, v.current) }

  /** A mutex given back leaves a task of a higher priority behind, and nothing asks for a switch. */
  predicate Strands(place: map<Task, Place>, prio: Values, base: Values, current: Task, asked: bool, holder: Task,
                    waiters: seq<Task>) {
    && !asked && !KeepsLead(place, prio, current, holder, PrioOf(base, holder))
    && (waiters != [] ==> !Outranks(GivenBack(prio, base, holder), waiters[0], current))
  }

  ghost predicate Fit(k: Kernel, idle: Task)
    reads k
  {
    k.Valid() && IsReady(k.lists.place, idle) && k.n >= 1
  }

  /** From `a` the call has been made, and the property kept. */
  ghost predicate Made(k: Kernel, call: Call, a: View, asked: bool, idle: Task)
    reads k
  {
    Fit(k, idle) && Does(call, a, Seen(k, asked), k.n, k.max) && Good(Seen(k, asked))
  }

  // ----------------------------------------------------------------- single calls

  method DoCreate(k: Kernel, idle: Task, asked: bool, t: Task, p: nat) returns (asked': bool)
    requires Fit(k, idle) && Good(Seen(k, asked)) && t !in k.lists.place && p < k.n
    modifies k`lists, k`top, k`prio, k`base
    ensures Made(k, Create(t, p), old(Seen(k, asked)), asked', idle)
  {
    RankOf(k.lists.place, k.prio, k.base, k.n, k.top, k.current);
    var yieldRequired := k.CreateTask(t, p);
    asked' := asked || yieldRequired;
  }

  method DoSleep(k: Kernel, idle: Task, asked: bool, ticks: nat) returns (asked': bool)
    requires Fit(k, idle) && k.depth == 0 && IsReady(k.lists.place, k.current) && k.current != idle && ticks <= k.max
    modifies k`depth, k`tick, k`cur, k`next, k`epoch, k`lists, k`top, k`waiting, k`pendedTicks, k`pending,
             k`yieldPending, k`value, k`deadline
    ensures Made(k, Sleep(ticks), old(Seen(k, asked)), asked', idle)
  {
    var alreadyYielded := k.Delay(ticks);
    asked' := true;
  }

  method DoWait(k: Kernel, idle: Task, asked: bool, ticks: nat) returns (asked': bool)
    requires Fit(k, idle) && IsReady(k.lists.place, k.current) && k.current != idle && 1 <= ticks <= k.max
    modifies k`lists, k`value, k`next, k`deadline, k`waiting
    ensures Made(k, Wait(ticks), old(Seen(k, asked)), asked', idle)
  {
    k.PlaceOnEventList(ticks);
    asked' := true;
  }

  method DoWake(k: Kernel, idle: Task, asked: bool, t: Task) returns (asked': bool)
    requires Fit(k, idle) && Good(Seen(k, asked)) && t in k.waiting
    modifies k`lists, k`top, k`waiting, k`pending
    ensures Made(k, Wake(t), old(Seen(k, asked)), asked', idle)
  {
    var higher := k.RemoveFromEventList(t);
    asked' := asked || higher;
  }

  method DoSuspend(k: Kernel, idle: Task, asked: bool, t: Task) returns (asked': bool)
    requires Fit(k, idle) && Good(Seen(k, asked)) && t in k.lists.place && t != idle
    modifies k`lists, k`waiting, k`pending
    ensures Made(k, Suspend(t), old(Seen(k, asked)), asked', idle)
  {
    asked' := asked || t == k.current;
    if !asked' {
      LeadsAway(k.lists.place, k.prio, k.current, t, Suspended);
    }
    k.SuspendTask(t);
  }

  method DoDelete(k: Kernel, idle: Task, asked: bool, t: Task) returns (asked': bool)
    requires Fit(k, idle) && Good(Seen(k, asked)) && t in k.lists.place && t != idle
    modifies k`lists, k`waiting, k`pending
    ensures Made(k, Delete(t), old(Seen(k, asked)), asked', idle)
  {
    asked' := asked || t == k.current;
    if !asked' {
      LeadsAway(k.lists.place, k.prio, k.current, t, Dead);
    }
    k.DeleteTask(t);
  }

  method DoResume(k: Kernel, idle: Task, asked: bool, t: Task) returns (asked': bool)
    requires Fit(k, idle) && Good(Seen(k, asked)) && t in k.lists.place
    modifies k`lists, k`top, k`waiting
    ensures Made(k, Resume(t), old(Seen(k, asked)), asked', idle)
  {
    var yieldRequired := k.ResumeTask(t);
    asked' := asked || yieldRequired;
    assert old(k.lists.place[t]) == Suspended ==> old(k.lists.place)[t := Ready(k.prio[t])] != old(k.lists.place) by {
      assert old(k.lists.place)[t := Ready(k.prio[t])][t] == Ready(k.prio[t]);
    }
  }

  method DoSetPriority(k: Kernel, idle: Task, asked: bool, t: Task, p: nat) returns (asked': bool)
    requires Fit(k, idle) && Good(Seen(k, asked)) && t in k.lists.place
    modifies k`lists, k`top, k`prio, k`base
    ensures Made(k, SetPriority(t, p), old(Seen(k, asked)), asked', idle)
  {
    RankOf(k.lists.place, k.prio, k.base, k.n, k.top, t);
    var yieldRequired := k.PrioritySet(t, p);
    asked' := asked || yieldRequired;
  }

  method DoInherit(k: Kernel, idle: Task, asked: bool, holder: Task) returns (asked': bool)
    requires Fit(k, idle) && Good(Seen(k, asked)) && holder in k.lists.place
    modifies k`lists, k`top, k`prio, k`base
    ensures Made(k, Inherit(holder), old(Seen(k, asked)), asked', idle)
  {
    k.PriorityInherit(holder);
    asked' := asked;
  }

  method DoGive(k: Kernel, idle: Task, asked: bool, holder: Task, waiters: seq<Task>) returns (asked': bool)
    requires Fit(k, idle) && Good(Seen(k, asked)) && IsReady(k.lists.place, holder)
    requires waiters != [] ==> waiters[0] in k.waiting
    requires !Strands(k.lists.place, k.prio, k.base, k.current, asked, holder, waiters)
    modifies k`lists, k`top, k`prio, k`base, k`waiting, k`pending
    ensures Made(k, Give(holder, waiters), old(Seen(k, asked)), asked', idle)
  {
    RankOf(k.lists.place, k.prio, k.base, k.n, k.top, holder);
    var yieldRequired := k.GiveMutex(holder, waiters);
    asked' := asked || yieldRequired;
  }

  method DoInterrupt(k: Kernel, idle: Task, asked: bool) returns (asked': bool)
    requires Fit(k, idle) && Good(Seen(k, asked))
    modifies k`tick, k`cur, k`next, k`epoch, k`lists, k`top, k`waiting, k`pendedTicks, k`interrupts
    ensures Made(k, Interrupt, old(Seen(k, asked)), asked', idle)
  {
    var switchRequired := k.Tick();
    Waked(old(k.lists.place), k.lists.place, k.deadline, k.Now(), k.prio);
    asked' := asked || switchRequired;
  }

  method DoUnlock(k: Kernel, idle: Task, asked: bool) returns (asked': bool)
    requires Fit(k, idle) && Good(Seen(k, asked)) && k.depth > 0
    modifies k`depth, k`tick, k`cur, k`next, k`epoch, k`lists, k`top, k`waiting, k`pendedTicks, k`pending,
             k`yieldPending
    ensures Made(k, Unlock, old(Seen(k, asked)), asked', idle)
  {
    var alreadyYielded := k.ResumeAll();
    Resuming(old(k.lists.place), k.lists.place, k.deadline, old(k.Now()), k.Now(), k.prio, old(k.pending));
    asked' := asked || alreadyYielded;
  }

  method DoSwitch(k: Kernel, idle: Task, asked: bool) returns (asked': bool)
    requires Fit(k, idle) && Good(Seen(k, asked))
    modifies k`yieldPending, k`top, k`current, k`lists
    ensures Made(k, Switch, old(Seen(k, asked)), asked', idle)
  {
    k.SwitchContext(idle);
    asked' := asked && k.depth > 0;
  }

  // ------------------------------------------------------------------- whole runs

  /** One call, whichever it is. */
  method Do(k: Kernel, idle: Task, asked: bool, call: Call) returns (asked': bool)
    requires Fit(k, idle) && Good(Seen(k, asked))
    requires Enabled(call, k.lists.place, k.current, k.depth, k.waiting, k.n, k.max, idle)
    requires call.Give? ==>
               !Strands(k.lists.place, k.prio, k.base, k.current, asked, call.holder, call.waiters)
    modifies k
    ensures Made(k, call, old(Seen(k, asked)), asked', idle)
  {
    match call
    case Create(t, p) => asked' := DoCreate(k, idle, asked, t, p);
    case Sleep(ticks) => asked' := DoSleep(k, idle, asked, ticks);
    case Wait(ticks) => asked' := DoWait(k, idle, asked, ticks);
    case Wake(t) => asked' := DoWake(k, idle, asked, t);
    case Suspend(t) => asked' := DoSuspend(k, idle, asked, t);
    case Delete(t) => asked' := DoDelete(k, idle, asked, t);
    case Resume(t) => asked' := DoResume(k, idle, asked, t);
    case SetPriority(t, p) => asked' := DoSetPriority(k, idle, asked, t, p);
    case Inherit(holder) => asked' := DoInherit(k, idle, asked, holder);
    case Give(holder, waiters) => asked' := DoGive(k, idle, asked, holder, waiters);
    case Interrupt => asked' := DoInterrupt(k, idle, asked);
    case Lock =>
      k.SuspendAll();
      asked' := asked;
    case Unlock => asked' := DoUnlock(k, idle, asked);
    case Switch => asked' := DoSwitch(k, idle, asked);
  }

  /** The scheduler as it starts. */
  function Started(idle: Task): View {
    View(map[idle := Ready(0)], map[idle := 0], map[idle := 0], idle, 0, {}, [], 0, 0, map[], false)
  }

  /** `views` are the states of a run over the first calls. */
  ghost predicate Trace(calls: seq<Call>, views: seq<View>, n: nat, max: nat, idle: Task) {
    && 1 <= |views| <= |calls| + 1 && views[0] == Started(idle)
    && (forall i :: 0 <= i < |views| ==> Good(views[i]))
    && forall i :: 0 <= i < |views| - 1 ==> Step(calls[i], views[i], views[i + 1], n, max, idle)
  }

  /** Any run: every call does what it should, and after each of them the current task has the highest
      ready priority or a switch has been asked for, up to the first mutex given back that leaves a task
      of a higher priority behind. */
  method Run(n: nat, max: nat, idle: Task, calls: seq<Call>) returns (k: Kernel, asked: bool, ghost views: seq<View>)
    requires n >= 1
    ensures k.Valid() && k.n == n && k.max == max && Trace(calls, views, n, max, idle)
    ensures views[|views| - 1] == Seen(k, asked)
    ensures |views| <= |calls| ==>
              var call := calls[|views| - 1];
              && Enabled(call, k.lists.place, k.current, k.depth, k.waiting, n, max, idle)
              && call.Give? && Strands(k.lists.place, k.prio, k.base, k.current, asked, call.holder, call.waiters)
  {
    k := new Kernel(n, max, idle);
    asked := false;
    Leading(k.lists.place, k.prio, k.current);
    views := [Seen(k, asked)];
    var i := 0;
    while i < |calls|
      invariant i <= |calls| && Fit(k, idle) && k.n == n && k.max == max && fresh(k) && Good(Seen(k, asked))
      invariant |views| == i + 1 && views[i] == Seen(k, asked) && Trace(calls, views, n, max, idle)
    {
      var call := calls[i];
      if Enabled(call, k.lists.place, k.current, k.depth, k.waiting, k.n, k.max, idle) {
        if call.Give? && Strands(k.lists.place, k.prio, k.base, k.current, asked, call.holder, call.waiters) {
          return;
        }
        asked := Do(k, idle, asked, call);
      }
      TraceNext(calls, views, Seen(k, asked), n, max, idle);
      views := views + [Seen(k, asked)];
      i := i + 1;
    }
  }

  lemma {:induction false} TraceNext(calls: seq<Call>, views: seq<View>, v: View, n: nat, max: nat, idle: Task)
    requires Trace(calls, views, n, max, idle) && |views| <= |calls| && Good(v)
    requires Step(calls[|views| - 1], views[|views| - 1], v, n, max, idle)
    ensures Trace(calls, views + [v], n, max, idle)
  {
    var views' := views + [v];
    assert forall i :: 0 <= i < |views| ==> views'[i] == views[i];
  }
}
