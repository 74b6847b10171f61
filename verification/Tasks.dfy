/** FreeRTOS/Source/tasks.c: the tick, the two delayed lists, the ready lists and the operations
    that move tasks between them. `max` is portMAX_DELAY; ticks are taken modulo `max + 1`. */
module Tasks {
  import opened Rings
  import opened TaskLists

  type Values = map<Task, nat>

  // ---------------------------------------------------------------- deadlines

  function Vals(q: seq<Task>, value: Values): seq<nat>
    requires forall t :: t in q ==> t in value
  {
    seq(|q|, i requires 0 <= i < |q| => value[q[i]])
  }

  predicate InOrder(q: seq<Task>, value: Values) {
    && (forall i :: 0 <= i < |q| ==> q[i] in value)
    && forall i, j {:trigger q[i], q[j]} :: 0 <= i < j < |q| ==> value[q[i]] <= value[q[j]]
  }

  /** The item values of the tasks on delayed list `i` are their deadlines counted from `start`,
      and lie beyond `lo`. */
  predicate Due(place: map<Task, Place>, i: nat, value: Values, deadline: Values, lo: int, max: nat, start: nat) {
    forall t :: t in place && place[t] == Timed(i) ==>
      t in value && t in deadline && lo < value[t] <= max && deadline[t] == start + value[t]
  }

  lemma {:induction false} OrderInsert(q: seq<Task>, value: Values, t: Task, v: nat)
    requires InOrder(q, value) && t !in q
    ensures (forall x :: x in q ==> x in value)
    ensures var k := FirstGreater(Vals(q, value), v); k <= |q| && InOrder(InsertAt(q, k, t), value[t := v])
  {
    var vs := Vals(q, value);
    var k, value' := FirstGreater(vs, v), value[t := v];
    var q', vs' := InsertAt(q, k, t), InsertAt(vs, k, v);
    assert Sorted(vs);
    PlaceSorted(vs, v);
    forall i | 0 <= i < |q'| ensures q'[i] in value' && value'[q'[i]] == vs'[i] {
      assert q'[i] == if i < k then q[i] else if i == k then t else q[i - 1];
    }
    assert forall i, j :: 0 <= i < j < |q'| ==> vs'[i] <= vs'[j];
  }

  lemma {:induction false} OrderElsewhere(q: seq<Task>, value: Values, t: Task, v: nat)
    requires InOrder(q, value) && t !in q
    ensures InOrder(q, value[t := v])
  {
  }

  lemma {:induction false} OrderLess(q: seq<Task>, value: Values, q': seq<Task>)
    requires InOrder(q, value) && SameOrLess(q, q')
    ensures InOrder(q', value)
  {
    if q' != q {
      var k :| 0 <= k < |q| && q' == q[..k] + q[k + 1..];
      assert forall i :: 0 <= i < |q'| ==> q'[i] == q[if i < k then i else i + 1];
    }
  }

  /** The clock as one value: the epoch's start on the unbounded clock, the last tick dealt with
      (`lo`), which delayed list is current, and the recorded next unblock time. */
  datatype Clock = Clock(max: nat, epoch: nat, lo: int, cur: nat, next: nat)

  /** Both delayed lists against the unbounded clock: the current one holds this epoch's deadlines,
      the other one those of the next. The next unblock time is never later than the first deadline. */
  predicate Times(l: Lists, value: Values, deadline: Values, c: Clock) {
    && c.cur < 2 && |l.timed| == 2
    && InOrder(l.timed[0], value) && InOrder(l.timed[1], value)
    && Due(l.place, c.cur, value, deadline, c.lo, c.max, c.epoch)
    && Due(l.place, 1 - c.cur, value, deadline, -1, c.max, c.epoch + c.max + 1)
    && NextOk(l.place, c.cur, value, c.next)
  }

  predicate Timed0(level: nat, l: Lists, value: Values, deadline: Values, c: Clock) {
    if level == 0 then Times(l, value, deadline, c) else Timed0(level - 1, l, value, deadline, c)
  }

  /** Times by another name, kept folded in the proofs about the kernel. */
  predicate Timing(l: Lists, value: Values, deadline: Values, c: Clock) {
    Timed0(2, l, value, deadline, c) && c.cur < 2
  }

  lemma {:induction false} Unseal(l: Lists, value: Values, deadline: Values, c: Clock)
    ensures Timing(l, value, deadline, c) <==> Times(l, value, deadline, c)
  {
    assert Timed0(1, l, value, deadline, c) == Timed0(0, l, value, deadline, c);
  }

  lemma {:induction false} TimingDetach(l: Lists, n: nat, value: Values, deadline: Values, c: Clock, t: Task)
    requires Timing(l, value, deadline, c) && Kept(l, n) && t in l.place
    ensures Detachable(l, t) && Timing(Detach(l, t), value, deadline, c)
  {
    var l' := (KeptDetach(l, n, t); Detach(l, t));
    KeptDetach(l, n, t);
    Unseal(l, value, deadline, c);
    Unseal(l', value, deadline, c);
    OrderLess(l.timed[0], value, l'.timed[0]);
    OrderLess(l.timed[1], value, l'.timed[1]);
  }

  /** Where a task without a deadline is put does not matter to the clock. */
  lemma {:induction false} TimingPlace(l: Lists, l': Lists, value: Values, deadline: Values, c: Clock, t: Task,
                                       w: Place)
    requires Timing(l, value, deadline, c) && Free(l, t)
    requires l'.timed == l.timed && l'.place == l.place[t := w] && !w.Timed?
    ensures Timing(l', value, deadline, c)
  {
    Unseal(l, value, deadline, c);
    DueMoved(l.place, c.cur, value, deadline, c.lo, c.max, c.epoch, t, w);
    DueMoved(l.place, 1 - c.cur, value, deadline, -1, c.max, c.epoch + c.max + 1, t, w);
    NextMoved(l.place, c.cur, value, c.next, t, w);
    TimingIs(l', value, deadline, c);
  }

  lemma {:induction false} DueMoved(place: map<Task, Place>, i: nat, value: Values, deadline: Values, lo: int, max: nat,
                                    start: nat, t: Task, w: Place)
    requires Due(place, i, value, deadline, lo, max, start) && w != Timed(i)
    ensures Due(place[t := w], i, value, deadline, lo, max, start)
  {
  }

  /** The next unblock time is no later than any deadline on list `i`. */
  predicate NextOk(place: map<Task, Place>, i: nat, value: Values, next: nat) {
    forall t :: t in place && place[t] == Timed(i) ==> t in value && next <= value[t]
  }

  lemma {:induction false} NextMoved(place: map<Task, Place>, i: nat, value: Values, next: nat, t: Task, w: Place)
    requires NextOk(place, i, value, next) && w != Timed(i)
    ensures NextOk(place[t := w], i, value, next)
  {
  }

  lemma {:induction false} NextJoins(place: map<Task, Place>, i: nat, value: Values, next: nat, t: Task, v: nat,
                                     next': nat)
    requires NextOk(place, i, value, next) && next' <= next && next' <= v
    ensures NextOk(place[t := Timed(i)], i, value[t := v], next')
  {
  }

  lemma {:induction false} NextOther(place: map<Task, Place>, i: nat, value: Values, next: nat, t: Task, w: Place,
                                     v: nat)
    requires NextOk(place, i, value, next) && w != Timed(i)
    ensures NextOk(place[t := w], i, value[t := v], next)
  {
  }

  function Delayed0(level: nat, l: Lists, value: Values, t: Task, i: nat, v: nat): Lists {
    if level > 0 then Delayed0(level - 1, l, value, t, i, v)
    else if i < |l.timed| && forall x :: x in l.timed[i] ==> x in value
    then AddTimed(l, t, i, FirstGreater(Vals(l.timed[i], value), v)) else l
  }

  /** vListInsert of the task's item, with value `v`, into delayed list `i`. */
  function Delayed(l: Lists, value: Values, t: Task, i: nat, v: nat): Lists { Delayed0(2, l, value, t, i, v) }

  /** Both delayed lists stay in order when a task joins list `i`. */
  lemma {:induction false} OrderBoth(l: Lists, n: nat, value: Values, deadline: Values, c: Clock, t: Task, v: nat,
                                     i: nat)
    requires Timing(l, value, deadline, c) && Kept(l, n) && Free(l, t) && i < 2
    ensures var l' := Delayed(l, value, t, i, v);
            && Kept(l', n) && |l'.timed| == 2 && l'.place == l.place[t := Timed(i)]
            && InOrder(l'.timed[0], value[t := v]) && InOrder(l'.timed[1], value[t := v])
  {
    assert Delayed0(1, l, value, t, i, v) == Delayed0(0, l, value, t, i, v);
    Unseal(l, value, deadline, c);
    KeptAt(l, n, 0, t);
    KeptAt(l, n, 1, t);
    OrderInsert(l.timed[i], value, t, v);
    OrderElsewhere(l.timed[1 - i], value, t, v);
    KeptTimed(l, n, t, i, FirstGreater(Vals(l.timed[i], value), v));
  }

  /** A clock reading put together from its parts. */
  lemma {:induction false} TimingIs(l: Lists, value: Values, deadline: Values, c: Clock)
    requires c.cur < 2 && |l.timed| == 2 && InOrder(l.timed[0], value) && InOrder(l.timed[1], value)
    requires Due(l.place, c.cur, value, deadline, c.lo, c.max, c.epoch)
    requires Due(l.place, 1 - c.cur, value, deadline, -1, c.max, c.epoch + c.max + 1)
    requires NextOk(l.place, c.cur, value, c.next)
    ensures Timing(l, value, deadline, c)
  {
    Unseal(l, value, deadline, c);
  }

  /** Delaying a task until `v` in this epoch. */
  lemma {:induction false} TimingDelay(l: Lists, value: Values, deadline: Values, c: Clock, t: Task, v: nat, l': Lists,
                                       c': Clock, other: nat, start: nat)
    requires Timing(l, value, deadline, c) && c.lo < v <= c.max && other == 1 - c.cur && start == c.epoch + c.max + 1
    requires l'.place == l.place[t := Timed(c.cur)] && |l'.timed| == 2
    requires InOrder(l'.timed[0], value[t := v]) && InOrder(l'.timed[1], value[t := v])
    requires c' == c.(next := if v < c.next then v else c.next)
    ensures Timing(l', value[t := v], deadline[t := c.epoch + v], c')
  {
    DueParts(l, value, deadline, c);
    DueDelay(l.place, l'.place, value, deadline, c, t, v, c', other, start);
    TimingIs(l', value[t := v], deadline[t := c.epoch + v], c');
  }

  lemma {:induction false} DueDelay(place: map<Task, Place>, place': map<Task, Place>, value: Values, deadline: Values,
                                    c: Clock, t: Task, v: nat, c': Clock, other: nat, start: nat)
    requires Due(place, c.cur, value, deadline, c.lo, c.max, c.epoch) && NextOk(place, c.cur, value, c.next)
    requires Due(place, other, value, deadline, -1, c.max, start) && other != c.cur
    requires c.lo < v <= c.max && place' == place[t := Timed(c.cur)] && c'.next <= v && c'.next <= c.next
    ensures Due(place', c.cur, value[t := v], deadline[t := c.epoch + v], c.lo, c.max, c.epoch)
    ensures Due(place', other, value[t := v], deadline[t := c.epoch + v], -1, c.max, start)
    ensures NextOk(place', c.cur, value[t := v], c'.next)
  {
    DueJoins(place, c.cur, value, deadline, c.lo, c.max, c.epoch, t, v);
    DueLeaves(place, other, value, deadline, -1, c.max, start, t, Timed(c.cur), v, c.epoch + v);
    NextJoins(place, c.cur, value, c.next, t, v, c'.next);
  }

  lemma {:induction false} DueParts(l: Lists, value: Values, deadline: Values, c: Clock)
    requires Timing(l, value, deadline, c)
    ensures Due(l.place, c.cur, value, deadline, c.lo, c.max, c.epoch)
    ensures Due(l.place, 1 - c.cur, value, deadline, -1, c.max, c.epoch + c.max + 1)
    ensures NextOk(l.place, c.cur, value, c.next)
  {
    Unseal(l, value, deadline, c);
  }

  /** Delaying a task until `v` in the next epoch. */
  lemma {:induction false} TimingDelayLater(l: Lists, value: Values, deadline: Values, c: Clock, t: Task, v: nat,
                                            l': Lists, other: nat, start: nat)
    requires Timing(l, value, deadline, c) && v <= c.max && other == 1 - c.cur && start == c.epoch + c.max + 1
    requires l'.place == l.place[t := Timed(other)] && |l'.timed| == 2
    requires InOrder(l'.timed[0], value[t := v]) && InOrder(l'.timed[1], value[t := v])
    ensures Timing(l', value[t := v], deadline[t := start + v], c)
  {
    DueParts(l, value, deadline, c);
    assert Due(l'.place, other, value[t := v], deadline[t := start + v], -1, c.max, start) by {
      DueJoins(l.place, other, value, deadline, -1, c.max, start, t, v);
    }
    assert Due(l'.place, c.cur, value[t := v], deadline[t := start + v], c.lo, c.max, c.epoch) by {
      DueLeaves(l.place, c.cur, value, deadline, c.lo, c.max, c.epoch, t, Timed(other), v, start + v);
    }
    NextOther(l.place, c.cur, value, c.next, t, Timed(other), v);
    TimingIs(l', value[t := v], deadline[t := start + v], c);
  }

  lemma {:induction false} DueLeaves(place: map<Task, Place>, j: nat, value: Values, deadline: Values, lo: int,
                                     max: nat, start: nat,
                                     t: Task, w: Place, v: nat, d: nat)
    requires Due(place, j, value, deadline, lo, max, start) && w != Timed(j)
    ensures Due(place[t := w], j, value[t := v], deadline[t := d], lo, max, start)
  {
  }

  lemma {:induction false} DelayTimes(l: Lists, value: Values, deadline: Values, c: Clock, t: Task, w: nat, delay: nat,
                                      i: nat, l': Lists)
    requires Timing(l, value, deadline, c) && Free(l, t) && 0 <= c.lo <= c.max && 1 <= delay <= c.max
    requires w == if c.lo + delay <= c.max then c.lo + delay else c.lo + delay - (c.max + 1)
    requires i == if w < c.lo then 1 - c.cur else c.cur
    requires l'.place == l.place[t := Timed(i)] && |l'.timed| == 2
    requires InOrder(l'.timed[0], value[t := w]) && InOrder(l'.timed[1], value[t := w])
    ensures Timing(l', value[t := w], deadline[t := c.epoch + c.lo + delay],
                   c.(next := if w >= c.lo && w < c.next then w else c.next))
  {
    if w < c.lo {
      TimingDelayLater(l, value, deadline, c, t, w, l', i, c.epoch + c.max + 1);
    } else {
      var c' := c.(next := if w < c.next then w else c.next);
      TimingDelay(l, value, deadline, c, t, w, l', c', 1 - c.cur, c.epoch + c.max + 1);
    }
  }

  /** prvAddCurrentTaskToDelayedList on the unbounded clock: a wake time that has wrapped goes on the
      other list, and stands for the same deadline. */
  lemma {:induction false} DelayKeeps(l: Lists, n: nat, value: Values, deadline: Values, c: Clock, t: Task, w: nat,
                                      delay: nat, i: nat)
    requires Timing(l, value, deadline, c) && Kept(l, n) && Free(l, t) && 0 <= c.lo <= c.max && 1 <= delay <= c.max
    requires w == if c.lo + delay <= c.max then c.lo + delay else c.lo + delay - (c.max + 1)
    requires i == if w < c.lo then 1 - c.cur else c.cur
    ensures var l' := Delayed(l, value, t, i, w);
            && Kept(l', n) && l'.place == l.place[t := Timed(i)]
            && Timing(l', value[t := w], deadline[t := c.epoch + c.lo + delay],
                      c.(next := if w >= c.lo && w < c.next then w else c.next))
  {
    OrderBoth(l, n, value, deadline, c, t, w, i);
    DelayTimes(l, value, deadline, c, t, w, delay, i, Delayed(l, value, t, i, w));
  }

  lemma {:induction false} DueJoins(place: map<Task, Place>, i: nat, value: Values, deadline: Values, lo: int, max: nat,
                                    start: nat, t: Task, v: nat)
    requires Due(place, i, value, deadline, lo, max, start) && lo < v <= max
    ensures Due(place[t := Timed(i)], i, value[t := v], deadline[t := start + v], lo, max, start)
  {
  }

  /** The head of the current list has the least value. */
  lemma {:induction false} TimingHead(l: Lists, n: nat, value: Values, deadline: Values, c: Clock)
    requires Timing(l, value, deadline, c) && Kept(l, n) && l.timed[c.cur] != []
    ensures var t := l.timed[c.cur][0];
            && t in l.place && l.place[t] == Timed(c.cur) && t in value && c.lo < value[t] <= c.max
            && t in deadline && deadline[t] == c.epoch + value[t]
            && Timing(l, value, deadline, c.(next := value[t], lo := value[t] as int - 1))
  {
    Unseal(l, value, deadline, c);
    var q := l.timed[c.cur];
    KeptAt(l, n, c.cur, q[0]);
    forall t | t in l.place && l.place[t] == Timed(c.cur) ensures t in value && value[q[0]] <= value[t] {
      KeptAt(l, n, c.cur, t);
      var k :| 0 <= k < |q| && q[k] == t;
    }
    Unseal(l, value, deadline, c.(next := value[q[0]], lo := value[q[0]] as int - 1));
  }

  /** An empty current list puts no bound on the clock. */
  lemma {:induction false} TimingEmpty(l: Lists, n: nat, value: Values, deadline: Values, c: Clock, c': Clock)
    requires Timing(l, value, deadline, c) && Kept(l, n) && l.timed[c.cur] == []
    requires c' == c.(lo := c'.lo, next := c'.next)
    ensures Timing(l, value, deadline, c')
    ensures forall t :: t in l.place ==> l.place[t] != Timed(c.cur)
  {
    Unseal(l, value, deadline, c);
    forall t | t in l.place ensures l.place[t] != Timed(c.cur) {
      KeptAt(l, n, c.cur, t);
    }
    Unseal(l, value, deadline, c');
  }

  /** No deadline lies before the next unblock time, nor at or before `lo`. */
  lemma {:induction false} TimingBound(l: Lists, value: Values, deadline: Values, c: Clock, lo: int, next: nat)
    requires Timing(l, value, deadline, c) && (lo <= c.lo || lo < c.next)
    requires next <= c.next
    ensures Timing(l, value, deadline, c.(lo := lo, next := next))
  {
    Unseal(l, value, deadline, c);
    Unseal(l, value, deadline, c.(lo := lo, next := next));
  }

  /** The end of an epoch: the current list is empty, and the lists change roles. */
  lemma {:induction false} TimingWrap(l: Lists, n: nat, value: Values, deadline: Values, c: Clock)
    requires Timing(l, value, deadline, c) && Kept(l, n) && c.lo == c.max
    ensures l.timed[c.cur] == []
    ensures Timing(l, value, deadline, Clock(c.max, c.epoch + c.max + 1, -1, 1 - c.cur, 0))
  {
    Unseal(l, value, deadline, c);
    if l.timed[c.cur] != [] {
      KeptAt(l, n, c.cur, l.timed[c.cur][0]);
    }
    Unseal(l, value, deadline, Clock(c.max, c.epoch + c.max + 1, -1, 1 - c.cur, 0));
  }

  /** On the unbounded clock: a delayed task's deadline is still ahead, and is the next tick
      exactly when its item value is the next tick's count. */
  lemma {:induction false} TimingMeans(l: Lists, value: Values, deadline: Values, c: Clock, t: Task)
    requires Timing(l, value, deadline, c) && t in l.place && l.place[t].Timed? && l.place[t].i < 2
    requires -1 <= c.lo <= c.max
    ensures t in value && t in deadline && deadline[t] > c.epoch + c.lo
    ensures l.place[t] == Timed(c.cur) ==> deadline[t] == c.epoch + value[t]
    ensures l.place[t] != Timed(c.cur) ==> deadline[t] > c.epoch + c.max
  {
    Unseal(l, value, deadline, c);
  }

  // --------------------------------------------------------------- priorities

  /** Every ready task is on the list of its priority, and none is above `top`. */
  predicate Ranks(place: map<Task, Place>, prio: Values, base: Values, n: nat, top: nat) {
    && top < n
    && forall t :: t in place ==>
         t in prio && t in base && prio[t] < n && base[t] < n && (place[t].Ready? ==> place[t].p == prio[t] <= top)
  }

  predicate Ranked0(level: nat, place: map<Task, Place>, prio: Values, base: Values, n: nat, top: nat) {
    if level == 0 then Ranks(place, prio, base, n, top) else Ranked0(level - 1, place, prio, base, n, top)
  }

  /** Ranks by another name, kept folded. */
  predicate Ranked(place: map<Task, Place>, prio: Values, base: Values, n: nat, top: nat) {
    Ranked0(2, place, prio, base, n, top)
  }

  lemma {:induction false} Ranking(place: map<Task, Place>, prio: Values, base: Values, n: nat, top: nat)
    ensures Ranked(place, prio, base, n, top) <==> Ranks(place, prio, base, n, top)
  {
    assert Ranked0(1, place, prio, base, n, top) == Ranked0(0, place, prio, base, n, top);
  }

  lemma {:induction false} RankOf(place: map<Task, Place>, prio: Values, base: Values, n: nat, top: nat, t: Task)
    requires Ranked(place, prio, base, n, top) && t in place
    ensures top < n && t in prio && t in base && prio[t] < n && base[t] < n
    ensures place[t].Ready? ==> place[t].p == prio[t] <= top
  {
    Ranking(place, prio, base, n, top);
  }

  /** A task made ready at its priority, with `top` raised if need be. */
  lemma {:induction false} RankReady(place: map<Task, Place>, prio: Values, base: Values, n: nat, top: nat, t: Task)
    requires Ranked(place, prio, base, n, top) && t in prio && t in base && prio[t] < n && base[t] < n
    ensures Ranked(place[t := Ready(prio[t])], prio, base, n, if prio[t] > top then prio[t] else top)
  {
    Ranking(place, prio, base, n, top);
    Ranking(place[t := Ready(prio[t])], prio, base, n, if prio[t] > top then prio[t] else top);
  }

  lemma {:induction false} RankAway(place: map<Task, Place>, prio: Values, base: Values, n: nat, top: nat, t: Task,
                                    w: Place)
    requires Ranked(place, prio, base, n, top) && t in place && !w.Ready?
    ensures Ranked(place[t := w], prio, base, n, top)
  {
    Ranking(place, prio, base, n, top);
    Ranking(place[t := w], prio, base, n, top);
  }

  /** The priority of a task that is not on a ready list may change. */
  lemma {:induction false} RankChange(place: map<Task, Place>, prio: Values, base: Values, n: nat, top: nat, t: Task,
                                      p: nat, b: nat)
    requires Ranked(place, prio, base, n, top) && (t in place ==> !place[t].Ready?) && p < n && b < n
    ensures Ranked(place, prio[t := p], base[t := b], n, top)
  {
    Ranking(place, prio, base, n, top);
    Ranking(place, prio[t := p], base[t := b], n, top);
  }

  // ---------------------------------------------------- woken but not yet ready

  /** Tasks woken while the scheduler was suspended, and tasks waiting for an event, are blocked. */
  predicate Waits(place: map<Task, Place>, pending: seq<Task>, waiting: set<Task>) {
    && Distinct(pending)
    && (forall t :: t in pending ==> t in place && Blocked(place[t]) && t !in waiting)
    && (forall t :: t in waiting ==> t in place && Blocked(place[t]))
  }

  predicate Waits0(level: nat, place: map<Task, Place>, pending: seq<Task>, waiting: set<Task>) {
    if level == 0 then Waits(place, pending, waiting) else Waits0(level - 1, place, pending, waiting)
  }

  /** Waits by another name, kept folded. */
  predicate Pends(place: map<Task, Place>, pending: seq<Task>, waiting: set<Task>) {
    Waits0(2, place, pending, waiting)
  }

  lemma {:induction false} Pending(place: map<Task, Place>, pending: seq<Task>, waiting: set<Task>)
    ensures Pends(place, pending, waiting) <==> Waits(place, pending, waiting)
  {
    assert Waits0(1, place, pending, waiting) == Waits0(0, place, pending, waiting);
  }

  lemma {:induction false} PendingOf(place: map<Task, Place>, pending: seq<Task>, waiting: set<Task>, t: Task)
    requires Pends(place, pending, waiting)
    ensures t in pending || t in waiting ==> t in place && Blocked(place[t])
    ensures t in pending ==> t !in waiting
  {
    Pending(place, pending, waiting);
  }

  /** A task that no longer waits for anything may be anywhere. */
  lemma {:induction false} PendsMove(place: map<Task, Place>, pending: seq<Task>, waiting: set<Task>, t: Task, w: Place)
    requires Pends(place, pending, waiting) && t !in pending && t !in waiting
    ensures Pends(place[t := w], pending, waiting)
  {
    Pending(place, pending, waiting);
    Pending(place[t := w], pending, waiting);
  }

  lemma {:induction false} PendsLess(place: map<Task, Place>, pending: seq<Task>, waiting: set<Task>, t: Task)
    requires Pends(place, pending, waiting)
    ensures Pends(place, pending, waiting - {t}) && Pends(place, LeftOut(pending, t), waiting)
    ensures t !in LeftOut(pending, t)
  {
    Pending(place, pending, waiting);
    Pending(place, pending, waiting - {t});
    if t in pending {
      RemoveMembers(pending, IndexOf(pending, t));
    }
    Pending(place, LeftOut(pending, t), waiting);
  }

  /** The pending list without `t`. */
  function LeftOut(pending: seq<Task>, t: Task): seq<Task> {
    if t in pending then Without(pending, t) else pending
  }

  lemma {:induction false} PendsHead(place: map<Task, Place>, pending: seq<Task>, waiting: set<Task>)
    requires Pends(place, pending, waiting) && pending != []
    ensures Pends(place, pending[1..], waiting) && pending[0] !in pending[1..] && pending[0] !in waiting
    ensures pending[0] in place
  {
    Pending(place, pending, waiting);
    Pending(place, pending[1..], waiting);
  }

  ghost predicate JoinsLast0(level: nat, a: Lists, b: Lists, t: Task, p: nat) {
    if level == 0 then p < |a.ready| && a.ready[p].Valid() && b == AddReady(a, t, p)
    else JoinsLast0(level - 1, a, b, t, p)
  }

  /** Only the ready list of priority `p` changes: the task joins it as the last one the cursor
      will visit. */
  ghost predicate JoinsLast(a: Lists, b: Lists, t: Task, p: nat) { JoinsLast0(2, a, b, t, p) }

  lemma {:induction false} JoinedLast(a: Lists, t: Task, p: nat)
    requires p < |a.ready| && a.ready[p].Valid()
    ensures JoinsLast(a, AddReady(a, t, p), t, p)
  {
    assert JoinsLast0(1, a, AddReady(a, t, p), t, p) == JoinsLast0(0, a, AddReady(a, t, p), t, p);
  }

  predicate Blocked(w: Place) { w.Timed? || w.Suspended? }

  /** `t` was blocked with a time limit that ends at `now`. */
  predicate TimeUp(place: map<Task, Place>, deadline: Values, now: nat, t: Task) {
    t in place && place[t].Timed? && t in deadline && deadline[t] == now
  }

  function PrioOf(prio: Values, t: Task): nat { if t in prio then prio[t] else 0 }

  /** Exactly the tasks whose time is up are made ready; everything else stays where it is. */
  predicate WokeExactly(place: map<Task, Place>, place': map<Task, Place>, deadline: Values, now: nat, prio: Values) {
    && place.Keys == place'.Keys
    && forall t :: t in place ==>
        place'[t] == if TimeUp(place, deadline, now, t) then Ready(PrioOf(prio, t)) else place[t]
  }

  predicate Woke0(level: nat, place: map<Task, Place>, place': map<Task, Place>, deadline: Values, now: nat,
                  prio: Values) {
    if level == 0 then WokeExactly(place, place', deadline, now, prio)
    else Woke0(level - 1, place, place', deadline, now, prio)
  }

  /** WokeExactly by another name, kept folded. */
  predicate Woke(place: map<Task, Place>, place': map<Task, Place>, deadline: Values, now: nat, prio: Values) {
    Woke0(2, place, place', deadline, now, prio)
  }

  lemma {:induction false} Waked(place: map<Task, Place>, place': map<Task, Place>, deadline: Values, now: nat,
                                 prio: Values)
    ensures Woke(place, place', deadline, now, prio) <==> WokeExactly(place, place', deadline, now, prio)
  {
    assert Woke0(1, place, place', deadline, now, prio) == Woke0(0, place, place', deadline, now, prio);
  }

  /** Part of the way there. */
  predicate Waking(place: map<Task, Place>, place': map<Task, Place>, deadline: Values, now: nat, prio: Values) {
    && place.Keys == place'.Keys
    && forall t :: t in place ==>
         place'[t] == place[t] || (TimeUp(place, deadline, now, t) && place'[t] == Ready(PrioOf(prio, t)))
  }

  /** What resuming the scheduler does: the tasks in `pend`, and those with a deadline after `from` and
      no later than `now`, are ready; everything else stays where it was. */
  predicate ResumedExactly(place: map<Task, Place>, place': map<Task, Place>, deadline: Values, from: nat, now: nat,
                           prio: Values, pend: seq<Task>) {
    && place.Keys == place'.Keys
    && forall t :: t in place ==>
         place'[t] == if t in pend || (place[t].Timed? && t in deadline && from < deadline[t] <= now)
                      then Ready(PrioOf(prio, t)) else place[t]
  }

  predicate Resumed0(level: nat, place: map<Task, Place>, place': map<Task, Place>, deadline: Values, from: nat,
                     now: nat, prio: Values, pend: seq<Task>) {
    if level == 0 then ResumedExactly(place, place', deadline, from, now, prio, pend)
    else Resumed0(level - 1, place, place', deadline, from, now, prio, pend)
  }

  /** ResumedExactly by another name, kept folded. */
  predicate Resumed(place: map<Task, Place>, place': map<Task, Place>, deadline: Values, from: nat, now: nat,
                    prio: Values, pend: seq<Task>) {
    Resumed0(2, place, place', deadline, from, now, prio, pend)
  }

  lemma {:induction false} Resuming(place: map<Task, Place>, place': map<Task, Place>, deadline: Values, from: nat,
                                    now: nat, prio: Values, pend: seq<Task>)
    ensures Resumed(place, place', deadline, from, now, prio, pend) <==>
              ResumedExactly(place, place', deadline, from, now, prio, pend)
  {
    assert Resumed0(1, place, place', deadline, from, now, prio, pend) ==
        Resumed0(0, place, place', deadline, from, now, prio, pend);
  }

  lemma {:induction false} ResumedNone(place: map<Task, Place>, deadline: Values, now: nat, prio: Values)
    ensures Resumed(place, place, deadline, now, now, prio, [])
  {
    Resuming(place, place, deadline, now, now, prio, []);
  }

  lemma {:induction false} ResumedNothing(place: map<Task, Place>, place': map<Task, Place>, deadline: Values, now: nat,
                                          prio: Values)
    requires Resumed(place, place', deadline, now, now, prio, [])
    ensures place' == place
  {
    Resuming(place, place', deadline, now, now, prio, []);
  }

  lemma {:induction false} ResumedOne(place0: map<Task, Place>, a: map<Task, Place>, b: map<Task, Place>,
                                      deadline: Values, now: nat, prio: Values,
                                      pend: seq<Task>, k: nat)
    requires k < |pend| && Resumed(place0, a, deadline, now, now, prio, pend[..k])
    requires pend[k] in a && b == a[pend[k] := Ready(PrioOf(prio, pend[k]))]
    ensures Resumed(place0, b, deadline, now, now, prio, pend[..k + 1])
  {
    assert pend[..k + 1] == pend[..k] + [pend[k]];
    Resuming(place0, a, deadline, now, now, prio, pend[..k]);
    Resuming(place0, b, deadline, now, now, prio, pend[..k + 1]);
  }

  lemma {:induction false} ResumedTick(place0: map<Task, Place>, a: map<Task, Place>, b: map<Task, Place>,
                                       deadline: Values, from: nat, now: nat, prio: Values,
                                       pend: seq<Task>)
    requires from <= now && Resumed(place0, a, deadline, from, now, prio, pend) && Woke(a, b, deadline, now + 1, prio)
    ensures Resumed(place0, b, deadline, from, now + 1, prio, pend)
  {
    Resuming(place0, a, deadline, from, now, prio, pend);
    Waked(a, b, deadline, now + 1, prio);
    Resuming(place0, b, deadline, from, now + 1, prio, pend);
  }

  /** With its top list empty, the bound on ready priorities comes down by one. */
  lemma {:induction false} RankLower(l: Lists, prio: Values, base: Values, n: nat, top: nat)
    requires Ranked(l.place, prio, base, n, top) && Kept(l, n) && 0 < top < n && l.ready[top].items == []
    ensures Ranked(l.place, prio, base, n, top - 1)
  {
    Ranking(l.place, prio, base, n, top);
    forall t | t in l.place && l.place[t].Ready? ensures l.place[t].p <= top - 1 {
      KeptList(l, n, top, t);
    }
    Ranking(l.place, prio, base, n, top - 1);
  }

  /** Nothing ready is above the bound. */
  lemma {:induction false} RankBound(place: map<Task, Place>, prio: Values, base: Values, n: nat, top: nat)
    requires Ranked(place, prio, base, n, top)
    ensures top < n
    ensures forall t :: t in place && place[t].Ready? ==> t in prio && place[t] == Ready(prio[t]) && prio[t] <= top
  {
    Ranking(place, prio, base, n, top);
  }

  // ------------------------------------------------------------ who should run

  /** `current` is ready, and no ready task has a higher priority. */
  predicate Foremost(place: map<Task, Place>, prio: Values, current: Task) {
    && current in place && place[current].Ready?
    && forall t :: t in place && place[t].Ready? ==> PrioOf(prio, t) <= PrioOf(prio, current)
  }

  predicate Foremost0(level: nat, place: map<Task, Place>, prio: Values, current: Task) {
    if level == 0 then Foremost(place, prio, current) else Foremost0(level - 1, place, prio, current)
  }

  /** Foremost by another name, kept folded. */
  predicate Leads(place: map<Task, Place>, prio: Values, current: Task) { Foremost0(2, place, prio, current) }

  lemma {:induction false} Leading(place: map<Task, Place>, prio: Values, current: Task)
    ensures Leads(place, prio, current) <==> Foremost(place, prio, current)
  {
    assert Foremost0(1, place, prio, current) == Foremost0(0, place, prio, current);
  }

  /** Another task is made ready, and its priority is not higher. */
  lemma {:induction false} LeadsReady(place: map<Task, Place>, prio: Values, current: Task, t: Task, p: nat)
    requires Leads(place, prio, current) && PrioOf(prio, t) <= PrioOf(prio, current)
    ensures Leads(place[t := Ready(p)], prio, current)
  {
    Leading(place, prio, current);
    Leading(place[t := Ready(p)], prio, current);
  }

  /** Priorities change, in favour of the current task or of one that is not ready or still not above it. */
  lemma {:induction false} LeadsChange(place: map<Task, Place>, place': map<Task, Place>, prio: Values, current: Task,
                                       t: Task, p: nat)
    requires Leads(place, prio, current) && t in place
    requires place' == if place[t].Ready? then place[t := Ready(p)] else place
    requires if t == current then p >= PrioOf(prio, t)
             else place[t].Ready? ==> p <= PrioOf(prio, current) || p <= PrioOf(prio, t)
    ensures Leads(place', prio[t := p], current)
  {
    Leading(place, prio, current);
    Leading(place', prio[t := p], current);
  }

  /** Whether the current task still has the highest ready priority once `holder` falls back to priority `b`. */
  predicate KeepsLead(place: map<Task, Place>, prio: Values, current: Task, holder: Task, b: nat) {
    if holder != current then b <= PrioOf(prio, current)
    else forall t :: t in place && place[t].Ready? && t != current ==> PrioOf(prio, t) <= b
  }

  lemma {:induction false} LeadsDisinherit(place: map<Task, Place>, prio: Values, current: Task, holder: Task, b: nat)
    requires Leads(place, prio, current) && holder in place && place[holder].Ready?
    ensures Leads(place[holder := Ready(b)], prio[holder := b], current) <==> KeepsLead(place, prio, current, holder, b)
  {
    var place', prio' := place[holder := Ready(b)], prio[holder := b];
    Leading(place, prio, current);
    Leading(place', prio', current);
    assert forall t :: t != holder ==> PrioOf(prio', t) == PrioOf(prio, t);
    assert PrioOf(prio', holder) == b;
    if Leads(place', prio', current) {
      assert place'[holder].Ready?;
      forall t | t in place && place[t].Ready? && t != holder ensures PrioOf(prio, t) <= PrioOf(prio', current) {
        assert place'[t].Ready?;
      }
    }
  }

  lemma {:induction false} LeadsAway(place: map<Task, Place>, prio: Values, current: Task, t: Task, w: Place)
    requires Leads(place, prio, current) && t != current && !w.Ready?
    ensures Leads(place[t := w], prio, current)
  {
    Leading(place, prio, current);
    Leading(place[t := w], prio, current);
  }

  /** A task that stays behind is not helped by another one of lower priority that becomes ready. */
  lemma {:induction false} NotLeading(place: map<Task, Place>, prio: Values, current: Task, t: Task, p: nat)
    requires !Leads(place, prio, current) && current in place && place[current].Ready?
    requires t in place && !place[t].Ready?
    ensures !Leads(place[t := Ready(p)], prio, current)
  {
    Leading(place, prio, current);
    Leading(place[t := Ready(p)], prio, current);
    var x :| x in place && place[x].Ready? && PrioOf(prio, x) > PrioOf(prio, current);
    assert place[t := Ready(p)][x].Ready?;
  }

  lemma {:induction false} LeadsNew(place: map<Task, Place>, prio: Values, current: Task, t: Task, p: nat)
    requires Leads(place, prio, current) && t !in place && p <= PrioOf(prio, current)
    ensures Leads(place[t := Ready(p)], prio[t := p], current)
  {
    Leading(place, prio, current);
    Leading(place[t := Ready(p)], prio[t := p], current);
  }

  lemma {:induction false} LeadsWoke(place: map<Task, Place>, place': map<Task, Place>, deadline: Values, now: nat,
                                     prio: Values, current: Task)
    requires Leads(place, prio, current) && Woke(place, place', deadline, now, prio)
    requires !Outranked(place, deadline, now, prio, current)
    ensures Leads(place', prio, current)
  {
    Leading(place, prio, current);
    Waked(place, place', deadline, now, prio);
    Leading(place', prio, current);
  }

  class Kernel {
    const n: nat
    const max: nat
    var lists: Lists
    var prio: Values
    var base: Values
    var value: Values
    var top: nat
    var current: Task
    var tick: nat
    var next: nat
    var cur: nat
    var depth: nat
    var pendedTicks: nat
    var yieldPending: bool
    var pending: seq<Task>
    var waiting: set<Task>

    ghost var epoch: nat
    ghost var deadline: Values
    ghost var interrupts: nat

    /** The unbounded clock: ticks processed since the start. */
    ghost function Now(): nat
      reads this
    {
      epoch + tick
    }

    ghost function At(lo: int, next': nat): Clock
      reads this
    {
      Clock(max, epoch, lo, cur, next')
    }

    ghost predicate Placed()
      reads this
    {
      Kept(lists, n) && Ranked(lists.place, prio, base, n, top) && current in lists.place
    }

    /** The lists, the priorities, the clock and the tasks waiting agree with each other. */
    ghost predicate Core()
      reads this
    {
      && Placed() && tick <= max && next <= max
      && Timing(lists, value, deadline, At(tick, next)) && Pends(lists.place, pending, waiting)
    }

    ghost predicate Valid()
      reads this
    {
      && Core()
      && Now() + pendedTicks == interrupts
      && (depth == 0 ==> pending == [] && pendedTicks == 0)
    }

    /** The scheduler as vTaskStartScheduler leaves it: the idle task is ready and the tick is zero. */
    constructor (priorities: nat, maxDelay: nat, idle: Task)
      requires priorities >= 1
      ensures Valid() && n == priorities && max == maxDelay && Now() == 0 && depth == 0
      ensures lists.place == map[idle := Ready(0)] && current == idle && prio == base == map[idle := 0]
      ensures waiting == {} && pending == [] && deadline == map[]
    {
      n, max := priorities, maxDelay;
      var l := NoTasks(priorities);
      prio, base, value := map[idle := 0], map[idle := 0], map[];
      top, current, tick, next, cur, depth := 0, idle, 0, maxDelay, 0, 0;
      pendedTicks, yieldPending, pending, waiting := 0, false, [], {};
      epoch, deadline, interrupts := 0, map[], 0;
      KeptNone(priorities);
      KeptReady(l, priorities, idle, 0);
      lists := AddReady(l, idle, 0);
      new;
      Ranking(lists.place, prio, base, n, top);
      Pending(lists.place, pending, waiting);
      Unseal(lists, value, deadline, At(tick, next));
    }

    // ------------------------------------------------------------ single moves

    /** prvAddTaskToReadyList. */
    method AddToReady(t: Task, ghost c: Clock)
      requires Kept(lists, n) && Free(lists, t) && Ranked(lists.place, prio, base, n, top)
      requires t in prio && t in base && prio[t] < n && base[t] < n && Timing(lists, value, deadline, c)
      modifies this`lists, this`top
      ensures Kept(lists, n) && Ranked(lists.place, prio, base, n, top) && Timing(lists, value, deadline, c)
      ensures lists.place == old(lists.place)[t := Ready(prio[t])] && lists.timed == old(lists.timed)
      ensures JoinsLast(old(lists), lists, t, prio[t])
      ensures top == if prio[t] > old(top) then prio[t] else old(top)
    {
      KeptReady(lists, n, t, prio[t]);
      JoinedLast(lists, t, prio[t]);
      RankReady(lists.place, prio, base, n, top, t);
      TimingPlace(lists, AddReady(lists, t, prio[t]), value, deadline, c, t, Ready(prio[t]));
      if prio[t] > top {
        top := prio[t];
      }
      lists := AddReady(lists, t, prio[t]);
    }

    /** uxListRemove on a task's generic item. */
    method Unlist(t: Task, ghost c: Clock)
      requires Kept(lists, n) && Ranked(lists.place, prio, base, n, top) && t in lists.place
      requires Timing(lists, value, deadline, c)
      modifies this`lists
      ensures Kept(lists, n) && Ranked(lists.place, prio, base, n, top) && Timing(lists, value, deadline, c)
      ensures lists.place == old(lists.place)[t := Nowhere]
      ensures forall i :: 0 <= i < 2 && old(lists.place[t]) == Timed(i) ==> |lists.timed[i]| < |old(lists.timed[i])|
    {
      TimingDetach(lists, n, value, deadline, c, t);
      KeptDetach(lists, n, t);
      RankAway(lists.place, prio, base, n, top, t, Nowhere);
      lists := Detach(lists, t);
    }

    /** Take a blocked task off its lists and make it ready. */
    method Unblock(t: Task, ghost c: Clock)
      requires Placed() && Timing(lists, value, deadline, c) && t in lists.place
      requires Pends(lists.place, pending, waiting) && t !in pending
      modifies this`lists, this`top, this`waiting
      ensures Placed() && Timing(lists, value, deadline, c) && Pends(lists.place, pending, waiting)
      ensures t in prio && lists.place == old(lists.place)[t := Ready(PrioOf(prio, t))] && waiting == old(waiting) - {t}
      ensures forall i :: 0 <= i < 2 && old(lists.place[t]) == Timed(i) ==> |lists.timed[i]| < |old(lists.timed[i])|
    {
      RankOf(lists.place, prio, base, n, top, t);
      PendsLess(lists.place, pending, waiting, t);
      PendsMove(lists.place, pending, waiting - {t}, t, Ready(prio[t]));
      ghost var place0 := lists.place[t := Ready(prio[t])];
      Unlist(t, c);
      waiting := waiting - {t};
      AddToReady(t, c);
      assert lists.place == place0;
    }

    // ------------------------------------------------------------------- ticks

    /** The first half of xTaskIncrementTick: count, and switch the delayed lists when the count
        wraps. The list switched away is empty: the assertion in taskSWITCH_DELAYED_LISTS holds. */
    method CountTick()
      requires Kept(lists, n) && tick <= max && next <= max && Timing(lists, value, deadline, At(tick, next))
      modifies this`tick, this`cur, this`next, this`epoch
      ensures tick <= max && next <= max && Timing(lists, value, deadline, At(tick - 1, next))
      ensures Now() == old(Now()) + 1 && tick == if old(tick) == max then 0 else old(tick) + 1
      ensures cur == if tick == 0 then 1 - old(cur) else old(cur)
      ensures tick == 0 ==> lists.timed[old(cur)] == []
    {
      if tick == max {
        TimingWrap(lists, n, value, deadline, At(tick, next));
        tick, epoch := 0, epoch + max + 1;
      } else {
        tick := tick + 1;
      }
      if tick == 0 {
        assert lists.timed[cur] == [];
        cur := 1 - cur;
        if lists.timed[cur] == [] {
          next := max;
          TimingEmpty(lists, n, value, deadline, At(-1, 0), At(-1, next));
        } else {
          TimingHead(lists, n, value, deadline, At(-1, 0));
          next := value[lists.timed[cur][0]];
          TimingBound(lists, value, deadline, At(next - 1, next), -1, next);
        }
      }
    }

    /** The second half of xTaskIncrementTick: wake the tasks whose time is up. */
    method WakeDue() returns (switchRequired: bool)
      requires Placed() && tick <= max && next <= max && Timing(lists, value, deadline, At(tick - 1, next))
      requires Pends(lists.place, pending, waiting) && pending == []
      modifies this`lists, this`top, this`next, this`waiting
      ensures Placed() && next <= max && Timing(lists, value, deadline, At(tick, next))
      ensures Pends(lists.place, pending, waiting)
      ensures Woke(old(lists.place), lists.place, deadline, Now(), prio)
      ensures switchRequired <==> Outranked(old(lists.place), deadline, Now(), prio, current)
    {
      switchRequired := WakeLoop();
      AllWoken(lists, n, value, deadline, At(tick, next), old(lists.place), prio, Now(), current);
    }

    /** The loop: it stops at the first task whose time is still to come. */
    method WakeLoop() returns (switchRequired: bool)
      requires Placed() && tick <= max && next <= max && Timing(lists, value, deadline, At(tick - 1, next))
      requires Pends(lists.place, pending, waiting) && pending == []
      modifies this`lists, this`top, this`next, this`waiting
      ensures Placed() && next <= max && Timing(lists, value, deadline, At(tick, next))
      ensures Pends(lists.place, pending, waiting)
      ensures Waking(old(lists.place), lists.place, deadline, Now(), prio)
      ensures switchRequired <==> Urgent(old(lists.place), lists.place, prio, current)
    {
      switchRequired := false;
      assert !Urgent(lists.place, lists.place, prio, current);
      ghost var place0 := lists.place;
      var going := tick >= next;
      TimingBound(lists, value, deadline, At(tick - 1, next),
                  if going then tick - 1 else tick, if going then 0 else next);
      while going
        invariant Placed() && next <= max && Pends(lists.place, pending, waiting)
        invariant Timing(lists, value, deadline, if going then At(tick - 1, 0) else At(tick, next))
        invariant Waking(place0, lists.place, deadline, Now(), prio)
        invariant switchRequired <==> Urgent(place0, lists.place, prio, current)
        decreases going, |lists.timed[cur]|
      {
        ghost var before := lists.place;
        var higher;
        ghost var t;
        going, higher, t := WakeHead();
        if going {
          WakingStep(place0, before, lists.place, deadline, Now(), prio, t, current);
        }
        switchRequired := switchRequired || higher;
      }
    }

    /** One turn of the wake-up loop: the head of the current list, if its time is up. */
    method WakeHead() returns (going: bool, higher: bool, ghost t: Task)
      requires Placed() && tick <= max && next <= max && Pends(lists.place, pending, waiting) && pending == []
      requires Timing(lists, value, deadline, At(tick - 1, 0))
      modifies this`lists, this`top, this`next, this`waiting
      ensures Placed() && next <= max && Pends(lists.place, pending, waiting)
      ensures Timing(lists, value, deadline, if going then At(tick - 1, 0) else At(tick, next))
      ensures !going ==> lists == old(lists) && !higher
      ensures going ==>
                && TimeUp(old(lists.place), deadline, Now(), t)
                && lists.place == old(lists.place)[t := Ready(PrioOf(prio, t))]
                && higher == (PrioOf(prio, t) >= PrioOf(prio, current)) && |lists.timed[cur]| < |old(lists.timed[cur])|
    {
      t := 0;
      if lists.timed[cur] == [] {
        next := max;
        TimingEmpty(lists, n, value, deadline, At(tick - 1, 0), At(tick, next));
        return false, false, t;
      }
      TimingHead(lists, n, value, deadline, At(tick - 1, 0));
      var head := lists.timed[cur][0];
      if tick < value[head] {
        next := value[head];
        TimingBound(lists, value, deadline, At(next - 1, next), tick, next);
        return false, false, t;
      }
      t := head;
      RankOf(lists.place, prio, base, n, top, current);
      Unblock(head, At(tick - 1, 0));
      return true, prio[head] >= prio[current], t;
    }

    /** xTaskIncrementTick. With the scheduler running, the clock moves on and exactly the tasks whose
        deadline is this tick are woken; with the scheduler suspended the tick is only recorded. */
    method IncrementTick() returns (switchRequired: bool)
      requires Placed() && tick <= max && next <= max && Timing(lists, value, deadline, At(tick, next))
      requires Pends(lists.place, pending, waiting)
      requires depth == 0 ==> pending == []
      modifies this`tick, this`cur, this`next, this`epoch, this`lists, this`top, this`waiting, this`pendedTicks
      ensures Placed() && tick <= max && next <= max && Timing(lists, value, deadline, At(tick, next))
      ensures Pends(lists.place, pending, waiting)
      ensures depth > 0 ==>
                pendedTicks == old(pendedTicks) + 1 && lists == old(lists) && Now() == old(Now()) && !switchRequired
      ensures depth == 0 ==> pendedTicks == old(pendedTicks) && Now() == old(Now()) + 1
                             && Woke(old(lists.place), lists.place, deadline, Now(), prio)
      ensures depth == 0 ==>
                (Outranked(old(lists.place), deadline, Now(), prio, current) ==> switchRequired)
      ensures !switchRequired && Leads(old(lists.place), prio, current) ==> Leads(lists.place, prio, current)
    {
      if depth > 0 {
        pendedTicks := pendedTicks + 1;
        return false;
      }
      CountTick();
      switchRequired := WakeDue();
      if !switchRequired && Leads(old(lists.place), prio, current) {
        LeadsWoke(old(lists.place), lists.place, deadline, Now(), prio, current);
      }
      RankOf(lists.place, prio, base, n, top, current);
      if |lists.ready[prio[current]].items| > 1 {
        switchRequired := true;
      }
    }

    /** The tick interrupt. No tick is lost: it is counted now or pended. */
    method Tick() returns (switchRequired: bool)
      requires Valid()
      modifies this`tick, this`cur, this`next, this`epoch, this`lists, this`top, this`waiting, this`pendedTicks,
               this`interrupts
      ensures Valid() && interrupts == old(interrupts) + 1
      ensures depth == 0 ==>
                && Now() == old(Now()) + 1 && pendedTicks == old(pendedTicks)
                && Woke(old(lists.place), lists.place, deadline, Now(), prio)
      ensures depth > 0 ==>
                lists == old(lists) && Now() == old(Now()) && pendedTicks == old(pendedTicks) + 1 && !switchRequired
      ensures !switchRequired && Leads(old(lists.place), prio, current) ==> Leads(lists.place, prio, current)
    {
      interrupts := interrupts + 1;
      switchRequired := IncrementTick();
    }

    /** vTaskSuspendAll. */
    method SuspendAll()
      requires Valid()
      modifies this`depth
      ensures Valid() && depth == old(depth) + 1
    {
      depth := depth + 1;
    }

    /** The tasks woken while the scheduler was suspended become ready. */
    method DrainPending() returns (yieldRequired: bool)
      requires Placed() && Timing(lists, value, deadline, At(tick, next)) && Pends(lists.place, pending, waiting)
      modifies this`lists, this`top, this`waiting, this`pending
      ensures Placed() && Timing(lists, value, deadline, At(tick, next)) && Pends(lists.place, pending, waiting)
      ensures pending == []
      ensures Resumed(old(lists.place), lists.place, deadline, Now(), Now(), prio, old(pending))
      ensures !yieldRequired && Leads(old(lists.place), prio, current) ==> Leads(lists.place, prio, current)
    {
      yieldRequired := false;
      ghost var place0, pending0 := lists.place, pending;
      ghost var done: nat := 0;
      ResumedNone(place0, deadline, Now(), prio);
      assert pending0[..0] == [];
      while pending != []
        invariant Placed() && Timing(lists, value, deadline, At(tick, next)) && Pends(lists.place, pending, waiting)
        invariant done <= |pending0| && pending == pending0[done..]
        invariant Resumed(place0, lists.place, deadline, Now(), Now(), prio, pending0[..done])
        invariant !yieldRequired && Leads(place0, prio, current) ==> Leads(lists.place, prio, current)
        decreases |pending|
      {
        PendsHead(lists.place, pending, waiting);
        var t := pending[0];
        ghost var before := lists.place;
        pending := pending[1..];
        Unblock(t, At(tick, next));
        ResumedOne(place0, before, lists.place, deadline, Now(), prio, pending0, done);
        done := done + 1;
        RankOf(lists.place, prio, base, n, top, current);
        if prio[t] >= prio[current] {
          yieldRequired := true;
        } else if Leads(before, prio, current) {
          LeadsReady(before, prio, current, t, prio[t]);
        }
      }
      assert pending0[..done] == pending0;
    }

    /** The ticks pended while the scheduler was suspended are replayed, every one. */
    method ReplayTicks(ghost place0: map<Task, Place>, ghost pending0: seq<Task>, ghost from: nat)
      returns (yieldRequired: bool)
      requires Placed() && tick <= max && next <= max && Timing(lists, value, deadline, At(tick, next))
      requires Pends(lists.place, pending, waiting)
      requires depth == 0 && pending == [] && from == Now()
      requires Resumed(place0, lists.place, deadline, from, from, prio, pending0)
      modifies this`tick, this`cur, this`next, this`epoch, this`lists, this`top, this`waiting, this`pendedTicks
      ensures Placed() && tick <= max && next <= max && Timing(lists, value, deadline, At(tick, next))
      ensures Pends(lists.place, pending, waiting)
      ensures pendedTicks == 0 && Now() == from + old(pendedTicks)
      ensures Resumed(place0, lists.place, deadline, from, Now(), prio, pending0)
      ensures !yieldRequired && Leads(old(lists.place), prio, current) ==> Leads(lists.place, prio, current)
    {
      yieldRequired := false;
      while pendedTicks > 0
        invariant Placed() && tick <= max && next <= max && Timing(lists, value, deadline, At(tick, next))
        invariant Pends(lists.place, pending, waiting)
        invariant Now() + pendedTicks == from + old(pendedTicks)
        invariant Resumed(place0, lists.place, deadline, from, Now(), prio, pending0)
        invariant !yieldRequired && Leads(old(lists.place), prio, current) ==> Leads(lists.place, prio, current)
        decreases pendedTicks
      {
        ghost var before := lists.place;
        var more := IncrementTick();
        ResumedTick(place0, before, lists.place, deadline, from, Now() - 1, prio, pending0);
        if more {
          yieldRequired := true;
        }
        pendedTicks := pendedTicks - 1;
      }
    }

    /** xTaskResumeAll. */
    method ResumeAll() returns (alreadyYielded: bool)
      requires Valid() && depth > 0
      modifies this`depth, this`tick, this`cur, this`next, this`epoch, this`lists, this`top, this`waiting,
               this`pendedTicks,
               this`pending, this`yieldPending
      ensures Valid() && depth == old(depth) - 1
      ensures depth > 0 ==>
                && lists == old(lists) && Now() == old(Now()) && !alreadyYielded
                && pending == old(pending) && pendedTicks == old(pendedTicks)
      ensures depth == 0 ==> Now() == interrupts && Now() == old(Now()) + old(pendedTicks)
                             && Resumed(old(lists.place), lists.place, deadline, old(Now()), Now(), prio, old(pending))
      ensures !alreadyYielded && Leads(old(lists.place), prio, current) ==> Leads(lists.place, prio, current)
    {
      alreadyYielded := false;
      depth := depth - 1;
      if depth == 0 {
        alreadyYielded := CatchUp();
      }
    }

    /** What xTaskResumeAll does once the scheduler runs again. */
    method CatchUp() returns (alreadyYielded: bool)
      requires Core() && depth == 0
      modifies this`tick, this`cur, this`next, this`epoch, this`lists, this`top, this`waiting, this`pendedTicks,
               this`pending, this`yieldPending
      ensures Core() && pending == [] && pendedTicks == 0 && Now() == old(Now()) + old(pendedTicks)
      ensures Resumed(old(lists.place), lists.place, deadline, old(Now()), Now(), prio, old(pending))
      ensures !alreadyYielded && Leads(old(lists.place), prio, current) ==> Leads(lists.place, prio, current)
    {
      alreadyYielded := false;
      ghost var place0, pending0, from := lists.place, pending, Now();
      var yield1 := DrainPending();
      var yield2 := ReplayTicks(place0, pending0, from);
      if yield1 || yield2 || yieldPending {
        alreadyYielded, yieldPending := true, false;
      }
    }

    // ---------------------------------------------------------------- blocking

    /** prvAddCurrentTaskToDelayedList, for a wake time `delay` ticks ahead. */
    method AddCurrentToDelayed(timeToWake: nat, ghost delay: nat)
      requires Core() && lists.place[current] == Nowhere && 1 <= delay <= max
      requires timeToWake == if tick + delay <= max then tick + delay else tick + delay - (max + 1)
      requires current !in pending && current !in waiting
      modifies this`lists, this`value, this`next, this`deadline
      ensures Core() && deadline == old(deadline)[current := Now() + delay]
      ensures lists.place == old(lists.place)[current := Timed(if tick + delay <= max then cur else 1 - cur)]
    {
      var i := if timeToWake < tick then 1 - cur else cur;
      DelayKeeps(lists, n, value, deadline, At(tick, next), current, timeToWake, delay, i);
      RankAway(lists.place, prio, base, n, top, current, Timed(i));
      PendsMove(lists.place, pending, waiting, current, Timed(i));
      deadline := deadline[current := Now() + delay];
      lists, value, next := Delayed(lists, value, current, i, timeToWake), value[current := timeToWake],
        if timeToWake >= tick && timeToWake < next then timeToWake else next;
    }

    /** The current task leaves its ready list. */
    method UnlistCurrent()
      requires Core() && lists.place[current].Ready?
      modifies this`lists
      ensures Core() && lists.place == old(lists.place)[current := Nowhere]
      ensures current !in pending && current !in waiting
    {
      PendingOf(lists.place, pending, waiting, current);
      PendsMove(lists.place, pending, waiting, current, Nowhere);
      Unlist(current, At(tick, next));
    }

    /** The current task goes from its ready list to a delayed list. */
    method BlockCurrent(ticks: nat)
      requires Core() && lists.place[current].Ready? && 1 <= ticks <= max
      modifies this`lists, this`value, this`next, this`deadline
      ensures Core() && deadline == old(deadline)[current := Now() + ticks] && current !in pending
      ensures current !in waiting
      ensures lists.place == old(lists.place)[current := Timed(if tick + ticks <= max then cur else 1 - cur)]
    {
      UnlistCurrent();
      AddCurrentToDelayed(if tick + ticks <= max then tick + ticks else tick + ticks - (max + 1), ticks);
    }

    /** vTaskDelay: the task is blocked until exactly `ticks` ticks from now. */
    method Delay(ticks: nat) returns (alreadyYielded: bool)
      requires Valid() && depth == 0 && lists.place[current].Ready? && ticks <= max
      modifies this`depth, this`tick, this`cur, this`next, this`epoch, this`lists, this`top, this`waiting,
               this`pendedTicks,
               this`pending, this`yieldPending, this`value, this`deadline
      ensures Valid() && depth == 0 && Now() == old(Now())
      ensures ticks == 0 ==> lists == old(lists)
      ensures ticks == 0 ==> unchanged(this)
      ensures ticks > 0 ==>
                && deadline == old(deadline)[current := Now() + ticks] && lists.place[current].Timed?
                && lists.place == old(lists.place)[current := lists.place[current]]
      ensures forall t :: t in old(lists.place) && t != current ==>
                t in lists.place && lists.place[t] == old(lists.place)[t]
    {
      alreadyYielded := false;
      if ticks > 0 {
        SuspendAll();
        BlockCurrent(ticks);
        ghost var l := lists.place;
        alreadyYielded := ResumeAll();
        ResumedNothing(l, lists.place, deadline, Now(), prio);
      }
    }

    /** vTaskPlaceOnEventList: the current task waits for an event, for at most `ticks` ticks. The
        largest value means no limit. */
    method PlaceOnEventList(ticks: nat)
      requires Core() && lists.place[current].Ready? && 1 <= ticks <= max
      modifies this`lists, this`value, this`next, this`deadline, this`waiting
      ensures Core() && waiting == old(waiting) + {current}
      ensures ticks == max ==> lists.place == old(lists.place)[current := Suspended] && deadline == old(deadline)
      ensures ticks < max ==> deadline == old(deadline)[current := Now() + ticks]
                              && lists.place ==
                                  old(lists.place)[current := Timed(if tick + ticks <= max then cur else 1 - cur)]
    {
      if ticks == max {
        UnlistCurrent();
        KeptSuspended(lists, n, current);
        RankAway(lists.place, prio, base, n, top, current, Suspended);
        PendsMove(lists.place, pending, waiting, current, Suspended);
        TimingPlace(lists, AddSuspended(lists, current), value, deadline, At(tick, next), current, Suspended);
        lists := AddSuspended(lists, current);
      } else {
        BlockCurrent(ticks);
      }
      PendsMore(lists.place, pending, waiting, current);
      waiting := waiting + {current};
    }

    /** xTaskRemoveFromEventList for the task at the head of an event list. */
    method RemoveFromEventList(t: Task) returns (higher: bool)
      requires Valid() && t in waiting
      modifies this`lists, this`top, this`waiting, this`pending
      ensures Valid() && waiting == old(waiting) - {t}
      ensures t in prio && current in prio && higher == (prio[t] >= prio[current])
      ensures depth == 0 ==> lists.place == old(lists.place)[t := Ready(prio[t])] && pending == old(pending)
      ensures depth > 0 ==> lists == old(lists) && pending == old(pending) + [t]
      ensures !higher && Leads(old(lists.place), prio, current) ==> Leads(lists.place, prio, current)
    {
      PendingOf(lists.place, pending, waiting, t);
      RankOf(lists.place, prio, base, n, top, t);
      RankOf(lists.place, prio, base, n, top, current);
      if depth == 0 {
        Unblock(t, At(tick, next));
      } else {
        PendsWake(lists.place, pending, waiting, t);
        waiting := waiting - {t};
        pending := pending + [t];
      }
      higher := prio[t] >= prio[current];
      if !higher && Leads(old(lists.place), prio, current) {
        LeadsReady(old(lists.place), prio, current, t, prio[t]);
      }
    }

    // ----------------------------------------------- suspension and deletion

    /** The task leaves every list, also those of events. */
    method Withdraw(t: Task)
      requires Core() && t in lists.place
      modifies this`lists, this`waiting, this`pending
      ensures Core() && lists.place == old(lists.place)[t := Nowhere]
      ensures waiting == old(waiting) - {t} && pending == LeftOut(old(pending), t) && t !in pending
    {
      PendsLess(lists.place, pending, waiting, t);
      PendsLess(lists.place, pending, waiting - {t}, t);
      PendsMove(lists.place, LeftOut(pending, t), waiting - {t}, t, Nowhere);
      Unlist(t, At(tick, next));
      waiting := waiting - {t};
      pending := LeftOut(pending, t);
    }

    /** vTaskSuspend. */
    method SuspendTask(t: Task)
      requires Valid() && t in lists.place
      modifies this`lists, this`waiting, this`pending
      ensures Valid() && lists.place == old(lists.place)[t := Suspended]
      ensures waiting == old(waiting) - {t} && pending == LeftOut(old(pending), t)
    {
      Withdraw(t);
      KeptSuspended(lists, n, t);
      RankAway(lists.place, prio, base, n, top, t, Suspended);
      PendsMove(lists.place, pending, waiting, t, Suspended);
      TimingPlace(lists, AddSuspended(lists, t), value, deadline, At(tick, next), t, Suspended);
      lists := AddSuspended(lists, t);
    }

    /** vTaskDelete. */
    method DeleteTask(t: Task)
      requires Valid() && t in lists.place
      modifies this`lists, this`waiting, this`pending
      ensures Valid() && lists.place == old(lists.place)[t := Dead]
      ensures waiting == old(waiting) - {t} && pending == LeftOut(old(pending), t)
    {
      Withdraw(t);
      KeptDead(lists, n, t);
      RankAway(lists.place, prio, base, n, top, t, Dead);
      PendsMove(lists.place, pending, waiting, t, Dead);
      TimingPlace(lists, AddDead(lists, t), value, deadline, At(tick, next), t, Dead);
      lists := AddDead(lists, t);
    }

    /** vTaskResume: only a task that is suspended, and not blocked for ever on an event, is resumed. */
    method ResumeTask(t: Task) returns (yieldRequired: bool)
      requires Valid() && t in lists.place
      modifies this`lists, this`top, this`waiting
      ensures Valid() && t in prio && waiting == old(waiting)
      ensures lists.place == if t != current && old(lists.place[t]) == Suspended && t !in pending && t !in waiting
                             then old(lists.place)[t := Ready(prio[t])] else old(lists.place)
      ensures current in prio && (yieldRequired <==> lists.place != old(lists.place) && prio[t] >= prio[current])
      ensures !yieldRequired && Leads(old(lists.place), prio, current) ==> Leads(lists.place, prio, current)
    {
      RankOf(lists.place, prio, base, n, top, t);
      RankOf(lists.place, prio, base, n, top, current);
      yieldRequired := false;
      if t != current && lists.place[t] == Suspended && t !in pending && t !in waiting {
        Unblock(t, At(tick, next));
        assert lists.place[t] != old(lists.place)[t];
        yieldRequired := prio[t] >= prio[current];
        if !yieldRequired && Leads(old(lists.place), prio, current) {
          LeadsReady(old(lists.place), prio, current, t, prio[t]);
        }
      }
    }

    /** xTaskCreate, with the scheduler running. */
    method CreateTask(t: Task, p: nat) returns (yieldRequired: bool)
      requires Valid() && t !in lists.place && p < n
      modifies this`lists, this`top, this`prio, this`base
      ensures Valid() && lists.place == old(lists.place)[t := Ready(p)]
      ensures prio == old(prio)[t := p] && base == old(base)[t := p]
      ensures current in prio && (yieldRequired <==> prio[current] < p)
      ensures !yieldRequired && Leads(old(lists.place), old(prio), current) ==> Leads(lists.place, prio, current)
    {
      PendingOf(lists.place, pending, waiting, t);
      PendsMove(lists.place, pending, waiting, t, Ready(p));
      RankChange(lists.place, prio, base, n, top, t, p, p);
      prio, base := prio[t := p], base[t := p];
      AddToReady(t, At(tick, next));
      RankOf(lists.place, prio, base, n, top, current);
      yieldRequired := prio[current] < p;
      if !yieldRequired && Leads(old(lists.place), old(prio), current) {
        LeadsNew(old(lists.place), old(prio), current, t, p);
      }
    }

    // --------------------------------------------------------------- priorities

    /** A ready task moves to the list of its new priority; any other only changes its number. */
    method ChangePriority(t: Task, p: nat, b: nat)
      requires Core() && t in lists.place && p < n && b < n
      modifies this`lists, this`top, this`prio, this`base
      ensures Core() && prio == old(prio)[t := p] && base == old(base)[t := b]
      ensures lists.place == if old(lists.place[t]).Ready? then old(lists.place)[t := Ready(p)] else old(lists.place)
    {
      if lists.place[t].Ready? {
        PendingOf(lists.place, pending, waiting, t);
        PendsMove(lists.place, pending, waiting, t, Ready(p));
        ghost var place' := lists.place[t := Ready(p)];
        Unlist(t, At(tick, next));
        RankChange(lists.place, prio, base, n, top, t, p, b);
        prio, base := prio[t := p], base[t := b];
        AddToReady(t, At(tick, next));
        assert lists.place == place';
      } else {
        RankChange(lists.place, prio, base, n, top, t, p, b);
        prio, base := prio[t := p], base[t := b];
      }
    }

    /** vTaskPrioritySet. An inherited priority is kept; the base changes in any case. */
    method PrioritySet(t: Task, newPriority: nat) returns (yieldRequired: bool)
      requires Valid() && t in lists.place && n >= 1
      modifies this`lists, this`top, this`prio, this`base
      ensures Valid()
      ensures var p := if newPriority >= n then n - 1 else newPriority;
              && t in old(prio) && t in old(base) && base == old(base)[t := p]
              && prio == old(prio)[t := if old(prio)[t] == old(base)[t] then p else old(prio)[t]]
      ensures lists.place == if old(lists.place[t]).Ready? then old(lists.place)[t := Ready(prio[t])]
                else old(lists.place)
      ensures current in old(prio)
      ensures var p := if newPriority >= n then n - 1 else newPriority;
              yieldRequired <==>
                if t == current then p < old(base)[t] else old(base)[t] < p && old(prio)[current] <= p
      ensures !yieldRequired && Leads(old(lists.place), old(prio), current) ==> Leads(lists.place, prio, current)
    {
      RankOf(lists.place, prio, base, n, top, t);
      RankOf(lists.place, prio, base, n, top, current);
      var p := if newPriority >= n then n - 1 else newPriority;
      yieldRequired := false;
      if base[t] != p {
        if p > base[t] {
          yieldRequired := t != current && p >= prio[current];
        } else {
          yieldRequired := t == current;
        }
        ChangePriority(t, if base[t] == prio[t] then p else prio[t], p);
      }
      assert old(lists.place[t]).Ready? ==> lists.place == old(lists.place)[t := Ready(prio[t])];
      if !yieldRequired && Leads(old(lists.place), old(prio), current) {
        LeadsChange(old(lists.place), lists.place, old(prio), current, t, prio[t]);
      }
    }

    /** vTaskPriorityInherit: a lower-priority mutex holder is raised to the current task's priority. */
    method PriorityInherit(holder: Task)
      requires Core() && holder in lists.place
      modifies this`lists, this`top, this`prio, this`base
      ensures Core() && base == old(base) && current in old(prio) && holder in old(prio)
      ensures var p := if old(prio)[holder] < old(prio)[current] then old(prio)[current] else old(prio)[holder];
              && prio == old(prio)[holder := p]
              && lists.place == if old(lists.place[holder]).Ready? then old(lists.place)[holder := Ready(p)]
                  else old(lists.place)
      ensures Leads(old(lists.place), old(prio), current) ==> Leads(lists.place, prio, current)
    {
      RankOf(lists.place, prio, base, n, top, holder);
      RankOf(lists.place, prio, base, n, top, current);
      if prio[holder] < prio[current] {
        ChangePriority(holder, prio[current], base[holder]);
      }
      assert old(lists.place[holder]).Ready? ==> lists.place == old(lists.place)[holder := Ready(prio[holder])];
      if Leads(old(lists.place), old(prio), current) {
        LeadsChange(old(lists.place), lists.place, old(prio), current, holder, prio[holder]);
      }
    }

    /** vTaskPriorityDisinherit, called by the holder, which is running. Nothing asks for a switch, so the
        current task goes on running although it may no longer have the highest ready priority. */
    method PriorityDisinherit(holder: Task)
      requires Core() && holder in lists.place && lists.place[holder].Ready?
      modifies this`lists, this`top, this`prio, this`base
      ensures Core() && base == old(base) && holder in base && prio == old(prio)[holder := base[holder]]
      ensures lists.place == old(lists.place)[holder := Ready(base[holder])]
      ensures Leads(old(lists.place), old(prio), current) ==>
                (Leads(lists.place, prio, current) <==>
                 KeepsLead(old(lists.place), old(prio), current, holder, base[holder]))
    {
      RankOf(lists.place, prio, base, n, top, holder);
      if prio[holder] != base[holder] {
        ChangePriority(holder, base[holder], base[holder]);
      }
      assert lists.place == old(lists.place)[holder := Ready(base[holder])];
      assert prio == old(prio)[holder := base[holder]];
      if Leads(old(lists.place), old(prio), current) {
        LeadsDisinherit(old(lists.place), old(prio), current, holder, base[holder]);
      }
    }

    /** xQueueGenericSend on a mutex: the holder gives it back, and the first task waiting for it, if any,
        is woken. Only that task's priority decides whether to yield. */
    method GiveMutex(holder: Task, waiters: seq<Task>) returns (yieldRequired: bool)
      requires Valid() && holder in lists.place && lists.place[holder].Ready?
      requires waiters != [] ==> waiters[0] in waiting
      modifies this`lists, this`top, this`prio, this`base, this`waiting, this`pending
      ensures Valid() && base == old(base) && holder in base && prio == old(prio)[holder := base[holder]]
      ensures yieldRequired <==> waiters != [] && PrioOf(prio, waiters[0]) >= PrioOf(prio, current)
      ensures waiting == if waiters == [] then old(waiting) else old(waiting) - {waiters[0]}
      ensures pending == if waiters == [] || depth == 0 then old(pending) else old(pending) + [waiters[0]]
      ensures var place' := old(lists.place)[holder := Ready(base[holder])];
              lists.place == if waiters == [] || depth > 0 then place'
                             else place'[waiters[0] := Ready(PrioOf(prio, waiters[0]))]
      ensures !yieldRequired && Leads(old(lists.place), old(prio), current) ==>
                (Leads(lists.place, prio, current) <==>
                 KeepsLead(old(lists.place), old(prio), current, holder, base[holder]))
    {
      ghost var leads := Leads(lists.place, prio, current);
      if leads {
        Leading(lists.place, prio, current);
      }
      PriorityDisinherit(holder);
      yieldRequired := false;
      if waiters != [] {
        PendingOf(lists.place, pending, waiting, waiters[0]);
        ghost var place1 := lists.place;
        yieldRequired := RemoveFromEventList(waiters[0]);
        if leads && !yieldRequired && depth == 0 && !Leads(place1, prio, current) {
          NotLeading(place1, prio, current, waiters[0], prio[waiters[0]]);
        }
      }
    }

    // --------------------------------------------------------- context switches

    /** vTaskSwitchContext. While some task is ready the search ends, and the task selected has the
        highest priority of all that are ready, and is the next of that priority in turn. */
    method SwitchContext(ghost r: Task)
      requires Valid() && r in lists.place && lists.place[r].Ready?
      modifies this`yieldPending, this`top, this`current, this`lists
      ensures Valid() && lists.place == old(lists.place) && top < n && |old(lists.ready)| == n
      ensures depth > 0 ==> yieldPending && current == old(current) && lists == old(lists)
      ensures depth == 0 ==> Leads(lists.place, prio, current)
      ensures depth == 0 ==>
                && current in prio && lists.place[current] == Ready(prio[current])
                && (forall t :: t in lists.place && lists.place[t].Ready? ==> t in prio && prio[t] <= prio[current])
                && old(lists.ready)[top].Valid() && old(lists.ready)[top].items != []
                && current == Visits(old(lists.ready)[top])[0]
    {
      RankOf(lists.place, prio, base, n, top, r);
      if depth > 0 {
        yieldPending := true;
        return;
      }
      FindTop(r);
      SelectNext();
      Leading(lists.place, prio, current);
    }

    /** The search of taskSELECT_HIGHEST_PRIORITY_TASK; its assertion holds while a task is ready. */
    method FindTop(ghost r: Task)
      requires Core() && r in lists.place && lists.place[r].Ready?
      modifies this`top
      ensures Core() && top < n && lists.ready[top].items != []
    {
      RankOf(lists.place, prio, base, n, top, r);
      while lists.ready[top].items == []
        invariant Core() && top < n && lists.place[r].p <= top
        decreases top
      {
        KeptList(lists, n, top, r);
        assert top > 0;
        RankLower(lists, prio, base, n, top);
        top := top - 1;
      }
    }

    /** The next task of the top priority in turn. */
    method SelectNext()
      requires Core() && top < n && lists.ready[top].items != []
      modifies this`current, this`lists
      ensures Core() && lists.place == old(lists.place)
      ensures old(lists.ready)[top].Valid() && current == Visits(old(lists.ready)[top])[0]
      ensures lists.ready == old(lists.ready)[top := Advance(old(lists.ready)[top])]
      ensures current in prio && lists.place[current] == Ready(prio[current])
      ensures forall t :: t in lists.place && lists.place[t].Ready? ==> t in prio && prio[t] <= prio[current]
    {
      KeptAdvance(lists, n, top);
      AdvanceVisits(lists.ready[top]);
      var ring := Advance(lists.ready[top]);
      current := ring.items[ring.cursor - 1];
      KeptList(lists, n, top, current);
      RankBound(lists.place, prio, base, n, top);
      TimingSame(lists, lists.(ready := lists.ready[top := ring]), value, deadline, At(tick, next));
      lists := lists.(ready := lists.ready[top := ring]);
    }

    /** Every deadline is still ahead: no task is ever late. */
    lemma {:induction false} NeverLate(t: Task)
      requires Valid() && t in lists.place && lists.place[t].Timed?
      ensures t in deadline && deadline[t] > Now()
    {
      KeptRange(lists, n, t);
      TimingMeans(lists, value, deadline, At(tick, next), t);
    }
  }

  // ------------------------------------------------- a task left behind by a mutex

  /** The three tasks of the example: idle, a holder of priority 1 and a task of priority 2 that is now
      running and about to wait for the mutex. */
  ghost predicate AboutToWait(k: Kernel)
    reads k
  {
    && k.Valid() && k.depth == 0 && k.n == 3 && k.max >= 1 && k.current == 2 && k.waiting == {}
    && k.prio == map[0 := 0, 1 := 1, 2 := 2] && k.base == k.prio
    && k.lists.place == map[0 := Ready(0), 1 := Ready(1), 2 := Ready(2)]
  }

  method HighStarts(max: nat) returns (k: Kernel)
    requires max >= 1
    ensures fresh(k) && AboutToWait(k)
  {
    k := new Kernel(3, max, 0);
    Preempt(k, 1, 1, 0);
    Preempt(k, 2, 2, 0);
  }

  /** A new task above all that are ready is switched to. */
  method Preempt(k: Kernel, t: Task, p: nat, idle: Task)
    requires k.Valid() && k.depth == 0 && t !in k.lists.place && p < k.n
    requires idle in k.lists.place && k.lists.place[idle].Ready?
    requires forall x :: x in k.lists.place && k.lists.place[x].Ready? ==> PrioOf(k.prio, x) < p
    modifies k`lists, k`top, k`prio, k`base, k`current, k`yieldPending
    ensures k.Valid() && k.current == t && k.lists.place == old(k.lists.place)[t := Ready(p)]
    ensures k.prio == old(k.prio)[t := p] && k.base == old(k.base)[t := p]
  {
    var asked := k.CreateTask(t, p);
    k.SwitchContext(idle);
    OnlyTop(k.lists.place, k.prio, k.current, t);
  }

  /** The one ready task of the highest priority leads. */
  lemma {:induction false} OnlyTop(place: map<Task, Place>, prio: Values, current: Task, t: Task)
    requires Leads(place, prio, current) && t in place && place[t].Ready?
    requires forall x :: x in place && place[x].Ready? && x != t ==> PrioOf(prio, x) < PrioOf(prio, t)
    ensures current == t
  {
    Leading(place, prio, current);
  }

  /** The running holder has inherited priority 2, and nobody waits for the mutex any more. */
  ghost predicate HoldsRaised(k: Kernel)
    reads k
  {
    && k.Valid() && k.depth == 0 && k.n == 3 && k.current == 1 && k.waiting == {}
    && k.prio == map[0 := 0, 1 := 2, 2 := 2] && k.base == map[0 := 0, 1 := 1, 2 := 2]
    && k.lists.place == map[0 := Ready(0), 1 := Ready(2), 2 := Suspended]
  }

  /** The task of priority 2 waits for the mutex and is then suspended by the holder. */
  method HighWaits(k: Kernel)
    requires AboutToWait(k)
    modifies k
    ensures HoldsRaised(k)
  {
    HighBlocks(k);
    k.SwitchContext(0);
    OnlyTop(k.lists.place, k.prio, k.current, 1);
    k.SuspendTask(2);
  }

  /** The holder inherits the priority of the task that now waits for the mutex. */
  method HighBlocks(k: Kernel)
    requires AboutToWait(k)
    modifies k`lists, k`top, k`prio, k`base, k`value, k`next, k`deadline, k`waiting
    ensures k.Valid() && k.waiting == {2} && k.base == old(k.base) && k.prio == map[0 := 0, 1 := 2, 2 := 2]
    ensures k.lists.place == map[0 := Ready(0), 1 := Ready(2), 2 := Suspended]
  {
    k.PriorityInherit(1);
    k.PlaceOnEventList(k.max);
  }

  /** A ready task of a higher priority is left waiting, with no switch asked for: the holder of a mutex,
      raised by a task that no longer waits for it, creates a task of that priority and gives the mutex
      back. Neither call asks for a switch. */
  method LeftBehind(max: nat) returns (k: Kernel, onCreate: bool, onGive: bool)
    requires max >= 1
    ensures k.Valid() && k.depth == 0 && !onCreate && !onGive && !Leads(k.lists.place, k.prio, k.current)
    ensures 3 in k.lists.place && k.lists.place[3] == Ready(2) && k.current in k.prio && k.prio[k.current] == 1
  {
    k := HighStarts(max);
    HighWaits(k);
    onCreate := k.CreateTask(3, 2);
    onGive := k.GiveMutex(1, []);
    Leading(k.lists.place, k.prio, k.current);
    assert PrioOf(k.prio, 3) == 2 && PrioOf(k.prio, 1) == 1;
  }

  lemma {:induction false} TimingSame(l: Lists, l': Lists, value: Values, deadline: Values, c: Clock)
    requires Timing(l, value, deadline, c) && l'.timed == l.timed && l'.place == l.place
    ensures Timing(l', value, deadline, c)
  {
    Unseal(l, value, deadline, c);
    Unseal(l', value, deadline, c);
  }

  lemma {:induction false} PendsMore(place: map<Task, Place>, pending: seq<Task>, waiting: set<Task>, t: Task)
    requires Pends(place, pending, waiting) && t in place && Blocked(place[t]) && t !in pending
    ensures Pends(place, pending, waiting + {t})
  {
    Pending(place, pending, waiting);
    Pending(place, pending, waiting + {t});
  }

  lemma {:induction false} PendsWake(place: map<Task, Place>, pending: seq<Task>, waiting: set<Task>, t: Task)
    requires Pends(place, pending, waiting) && t in waiting
    ensures Pends(place, pending + [t], waiting - {t})
  {
    Pending(place, pending, waiting);
    Pending(place, pending + [t], waiting - {t});
  }

  predicate Moved(place: map<Task, Place>, place': map<Task, Place>, t: Task) {
    t in place && t in place' && place'[t] != place[t]
  }

  /** Some task whose time is up has at least the priority of `current`. */
  ghost predicate Outranked(place: map<Task, Place>, deadline: Values, now: nat, prio: Values, current: Task) {
    exists t :: TimeUp(place, deadline, now, t) && PrioOf(prio, t) >= PrioOf(prio, current)
  }

  /** Some task that has moved has at least the priority of `current`. */
  ghost predicate Urgent(place: map<Task, Place>, place': map<Task, Place>, prio: Values, current: Task) {
    exists t :: Moved(place, place', t) && PrioOf(prio, t) >= PrioOf(prio, current)
  }

  lemma {:induction false} WakingStep(place0: map<Task, Place>, a: map<Task, Place>, b: map<Task, Place>,
                                      deadline: Values, now: nat, prio: Values, t: Task, current: Task)
    requires Waking(place0, a, deadline, now, prio) && TimeUp(a, deadline, now, t)
    requires b == a[t := Ready(PrioOf(prio, t))]
    ensures Waking(place0, b, deadline, now, prio)
    ensures Urgent(place0, b, prio, current) <==>
              Urgent(place0, a, prio, current) || PrioOf(prio, t) >= PrioOf(prio, current)
  {
    assert forall x :: Moved(place0, b, x) <==> x == t || Moved(place0, a, x);
  }

  /** Nobody whose time is up is left behind: what remains on the lists is due later. */
  lemma {:induction false} AllWoken(l: Lists, n: nat, value: Values, deadline: Values, c: Clock,
                                    place0: map<Task, Place>, prio: Values, now: nat, current: Task)
    requires Kept(l, n) && Timing(l, value, deadline, c) && Waking(place0, l.place, deadline, now, prio)
    requires 0 <= c.lo <= c.max && now == c.epoch + c.lo
    ensures Woke(place0, l.place, deadline, now, prio)
    ensures forall t :: TimeUp(place0, deadline, now, t) <==> Moved(place0, l.place, t)
    ensures Outranked(place0, deadline, now, prio, current) <==> Urgent(place0, l.place, prio, current)
  {
    forall t | t in place0 && l.place[t] == place0[t] ensures !TimeUp(place0, deadline, now, t) {
      KeptRange(l, n, t);
      if place0[t].Timed? {
        TimingMeans(l, value, deadline, c, t);
      }
    }
    Waked(place0, l.place, deadline, now, prio);
    assert forall t :: TimeUp(place0, deadline, now, t) <==> Moved(place0, l.place, t);
  }

  /** Ticks with the scheduler running, any number of them and across any wraps of the tick count: a
      task blocked with a time limit is made ready by the tick that is its deadline, and by no other. */
  method RunTicks(k: Kernel, count: nat)
    requires k.Valid() && k.depth == 0
    modifies k
    ensures k.Valid() && k.depth == 0 && k.Now() == old(k.Now()) + count
    ensures k.prio == old(k.prio) && k.deadline == old(k.deadline)
    ensures Resumed(old(k.lists.place), k.lists.place, k.deadline, old(k.Now()), k.Now(), k.prio, [])
  {
    var i := 0;
    ghost var place0, from := k.lists.place, k.Now();
    ResumedNone(place0, k.deadline, from, k.prio);
    while i < count
      invariant 0 <= i <= count && k.Valid() && k.depth == 0 && k.Now() == from + i
      invariant k.prio == old(k.prio) && k.deadline == old(k.deadline)
      invariant Resumed(place0, k.lists.place, k.deadline, from, k.Now(), k.prio, [])
    {
      ghost var before := k.lists.place;
      var switchRequired := k.Tick();
      ResumedTick(place0, before, k.lists.place, k.deadline, from, k.Now() - 1, k.prio, []);
      i := i + 1;
    }
  }
}
