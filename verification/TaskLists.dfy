/** FreeRTOS/Source/tasks.c: the lists a task can be on, and moving a task between them. */
module TaskLists {
  import opened Rings

  type Task = nat

  /** Which list the generic item of a task is on. `Timed(0)` and `Timed(1)` are the two delayed
      lists; which of them is current changes when the tick count wraps. */
  datatype Place = Nowhere | Ready(p: nat) | Timed(i: nat) | Suspended | Dead

  datatype Lists = Lists(ready: seq<Ring<Task>>, timed: seq<seq<Task>>, suspended: seq<Task>, dead: seq<Task>,
                         place: map<Task, Place>)

  /** The list holds exactly the tasks placed there, once each. */
  ghost predicate ListIs(items: seq<Task>, place: map<Task, Place>, w: Place) {
    Distinct(items) && forall t :: t in items <==> t in place && place[t] == w
  }

  ghost predicate ReadyIs(ready: seq<Ring<Task>>, place: map<Task, Place>, p: nat)
    requires p < |ready|
  {
    ready[p].Valid() && ListIs(ready[p].items, place, Ready(p))
  }

  ghost predicate Consistent(l: Lists, n: nat) {
    && |l.ready| == n && |l.timed| == 2
    && (forall p {:trigger ReadyIs(l.ready, l.place, p)} :: 0 <= p < n ==> ReadyIs(l.ready, l.place, p))
    && ListIs(l.timed[0], l.place, Timed(0)) && ListIs(l.timed[1], l.place, Timed(1))
    && ListIs(l.suspended, l.place, Suspended) && ListIs(l.dead, l.place, Dead)
    && (forall t :: t in l.place ==> match l.place[t] case Ready(p) => p < n case Timed(i) => i < 2 case _ => true)
  }

  function Without(q: seq<Task>, t: Task): seq<Task>
    requires t in q
  {
    RemoveAt(q, IndexOf(q, t))
  }

  /** uxListRemove on the generic item. */
  function Detach(l: Lists, t: Task): Lists
    requires Detachable(l, t)
  {
    var l' := match l.place[t]
              case Ready(p) => l.(ready := l.ready[p := Remove(l.ready[p], t)])
              case Timed(i) => l.(timed := l.timed[i := Without(l.timed[i], t)])
              case Suspended => l.(suspended := Without(l.suspended, t))
              case Dead => l.(dead := Without(l.dead, t))
              case Nowhere => l;
    l'.(place := l.place[t := Nowhere])
  }

  predicate Free(l: Lists, t: Task) { t in l.place ==> l.place[t] == Nowhere }

  function AddReady(l: Lists, t: Task, p: nat): Lists
    requires p < |l.ready| && l.ready[p].Valid()
  {
    l.(ready := l.ready[p := InsertEnd(l.ready[p], t)], place := l.place[t := Ready(p)])
  }

  function AddTimed(l: Lists, t: Task, i: nat, k: nat): Lists
    requires i < |l.timed| && k <= |l.timed[i]|
  {
    l.(timed := l.timed[i := InsertAt(l.timed[i], k, t)], place := l.place[t := Timed(i)])
  }

  function AddSuspended(l: Lists, t: Task): Lists {
    l.(suspended := l.suspended + [t], place := l.place[t := Suspended])
  }

  function AddDead(l: Lists, t: Task): Lists {
    l.(dead := l.dead + [t], place := l.place[t := Dead])
  }

  // ------------------------------------------------------------ consistency

  lemma {:induction false} ListElsewhere(items: seq<Task>, place: map<Task, Place>, w: Place, t: Task, w': Place)
    requires ListIs(items, place, w) && w' != w && (t in place ==> place[t] != w)
    ensures ListIs(items, place[t := w'], w)
  {
  }

  lemma {:induction false} ListGains(items: seq<Task>, place: map<Task, Place>, w: Place, t: Task, k: nat)
    requires ListIs(items, place, w) && (t in place ==> place[t] != w) && k <= |items|
    ensures ListIs(InsertAt(items, k, t), place[t := w], w)
  {
    InsertMembers(items, k, t);
  }

  lemma {:induction false} ListLoses(items: seq<Task>, place: map<Task, Place>, w: Place, t: Task)
    requires ListIs(items, place, w) && w != Nowhere && t in place && place[t] == w
    ensures t in items && ListIs(Without(items, t), place[t := Nowhere], w)
  {
    RemoveMembers(items, IndexOf(items, t));
  }

  lemma {:induction false} ReadyElsewhere(l: Lists, n: nat, t: Task, w': Place, p: nat)
    requires Consistent(l, n) && p < n && w' != Ready(p) && (t in l.place ==> l.place[t] != Ready(p))
    ensures ReadyIs(l.ready, l.place[t := w'], p)
  {
    assert ReadyIs(l.ready, l.place, p);
    ListElsewhere(l.ready[p].items, l.place, Ready(p), t, w');
  }

  lemma {:induction false} DetachOthers(l: Lists, n: nat, t: Task)
    requires Consistent(l, n) && t in l.place
    ensures forall p {:trigger ReadyIs(l.ready, l.place[t := Nowhere], p)} ::
              0 <= p < n && l.place[t] != Ready(p) ==> ReadyIs(l.ready, l.place[t := Nowhere], p)
    ensures forall i :: 0 <= i < 2 && l.place[t] != Timed(i) ==> ListIs(l.timed[i], l.place[t := Nowhere], Timed(i))
    ensures l.place[t] != Suspended ==> ListIs(l.suspended, l.place[t := Nowhere], Suspended)
    ensures l.place[t] != Dead ==> ListIs(l.dead, l.place[t := Nowhere], Dead)
  {
    forall p | 0 <= p < n && l.place[t] != Ready(p) ensures ReadyIs(l.ready, l.place[t := Nowhere], p) {
      ReadyElsewhere(l, n, t, Nowhere, p);
    }
    forall i | 0 <= i < 2 && l.place[t] != Timed(i) ensures ListIs(l.timed[i], l.place[t := Nowhere], Timed(i)) {
      ListElsewhere(l.timed[i], l.place, Timed(i), t, Nowhere);
    }
    if l.place[t] != Suspended {
      ListElsewhere(l.suspended, l.place, Suspended, t, Nowhere);
    }
    if l.place[t] != Dead {
      ListElsewhere(l.dead, l.place, Dead, t, Nowhere);
    }
  }

  /** What Detach asks of the list the task is on. */
  predicate Detachable(l: Lists, t: Task) {
    && t in l.place
    && match l.place[t]
       case Ready(p) => p < |l.ready| && l.ready[p].Valid() && t in l.ready[p].items
       case Timed(i) => i < |l.timed| && t in l.timed[i]
       case Suspended => t in l.suspended
       case Dead => t in l.dead
       case Nowhere => true
  }

  lemma {:induction false} CanDetach(l: Lists, n: nat, t: Task)
    requires Consistent(l, n) && t in l.place
    ensures Detachable(l, t)
  {
    match l.place[t]
    case Ready(p) => assert ReadyIs(l.ready, l.place, p);
    case _ =>
  }

  lemma {:induction false} DetachKeeps(l: Lists, n: nat, t: Task)
    requires Consistent(l, n) && t in l.place
    ensures Detachable(l, t) && Consistent(Detach(l, t), n)
  {
    CanDetach(l, n, t);
    DetachOthers(l, n, t);
    var l' := Detach(l, t);
    match l.place[t] {
      case Ready(p) =>
        assert ReadyIs(l.ready, l.place, p);
        ListLoses(l.ready[p].items, l.place, Ready(p), t);
        forall r | 0 <= r < n ensures ReadyIs(l'.ready, l'.place, r) {
          if r != p {
            assert ReadyIs(l.ready, l'.place, r);
          }
        }
      case Timed(i) =>
        ListLoses(l.timed[i], l.place, Timed(i), t);
        forall r | 0 <= r < n ensures ReadyIs(l'.ready, l'.place, r) {
          assert ReadyIs(l.ready, l'.place, r);
        }
      case Suspended =>
        ListLoses(l.suspended, l.place, Suspended, t);
        forall r | 0 <= r < n ensures ReadyIs(l'.ready, l'.place, r) {
          assert ReadyIs(l.ready, l'.place, r);
        }
      case Dead =>
        ListLoses(l.dead, l.place, Dead, t);
        forall r | 0 <= r < n ensures ReadyIs(l'.ready, l'.place, r) {
          assert ReadyIs(l.ready, l'.place, r);
        }
      case Nowhere =>
        forall r | 0 <= r < n ensures ReadyIs(l'.ready, l'.place, r) {
          assert ReadyIs(l.ready, l'.place, r);
        }
    }
  }

  /** A free task joins one list; the others do not notice. */
  lemma {:induction false} JoinOthers(l: Lists, n: nat, t: Task, w: Place)
    requires Consistent(l, n) && Free(l, t)
    ensures forall p {:trigger ReadyIs(l.ready, l.place[t := w], p)} ::
              0 <= p < n && w != Ready(p) ==> ReadyIs(l.ready, l.place[t := w], p)
    ensures forall i :: 0 <= i < 2 && w != Timed(i) ==> ListIs(l.timed[i], l.place[t := w], Timed(i))
    ensures w != Suspended ==> ListIs(l.suspended, l.place[t := w], Suspended)
    ensures w != Dead ==> ListIs(l.dead, l.place[t := w], Dead)
  {
    forall p | 0 <= p < n && w != Ready(p) ensures ReadyIs(l.ready, l.place[t := w], p) {
      ReadyElsewhere(l, n, t, w, p);
    }
    forall i | 0 <= i < 2 && w != Timed(i) ensures ListIs(l.timed[i], l.place[t := w], Timed(i)) {
      ListElsewhere(l.timed[i], l.place, Timed(i), t, w);
    }
    if w != Suspended {
      ListElsewhere(l.suspended, l.place, Suspended, t, w);
    }
    if w != Dead {
      ListElsewhere(l.dead, l.place, Dead, t, w);
    }
  }

  lemma {:induction false} AddReadyKeeps(l: Lists, n: nat, t: Task, p: nat)
    requires Consistent(l, n) && Free(l, t) && p < n
    ensures l.ready[p].Valid() && Consistent(AddReady(l, t, p), n)
    ensures t in AddReady(l, t, p).ready[p].items
  {
    JoinOthers(l, n, t, Ready(p));
    assert ReadyIs(l.ready, l.place, p);
    var r := l.ready[p];
    ListGains(r.items, l.place, Ready(p), t, if r.cursor == 0 then |r.items| else r.cursor - 1);
    InsertEndMembers(r, t);
    var l' := AddReady(l, t, p);
    forall q | 0 <= q < n ensures ReadyIs(l'.ready, l'.place, q) {
      if q != p {
        assert ReadyIs(l.ready, l'.place, q);
      }
    }
  }

  lemma {:induction false} AddTimedKeeps(l: Lists, n: nat, t: Task, i: nat, k: nat)
    requires Consistent(l, n) && Free(l, t) && i < 2 && k <= |l.timed[i]|
    ensures Consistent(AddTimed(l, t, i, k), n)
  {
    JoinOthers(l, n, t, Timed(i));
    ListGains(l.timed[i], l.place, Timed(i), t, k);
    var l' := AddTimed(l, t, i, k);
    forall q | 0 <= q < n ensures ReadyIs(l'.ready, l'.place, q) {
      assert ReadyIs(l.ready, l'.place, q);
    }
  }

  lemma {:induction false} AddSuspendedKeeps(l: Lists, n: nat, t: Task)
    requires Consistent(l, n) && Free(l, t)
    ensures Consistent(AddSuspended(l, t), n)
  {
    JoinOthers(l, n, t, Suspended);
    ListGains(l.suspended, l.place, Suspended, t, |l.suspended|);
    assert InsertAt(l.suspended, |l.suspended|, t) == l.suspended + [t];
    var l' := AddSuspended(l, t);
    forall q | 0 <= q < n ensures ReadyIs(l'.ready, l'.place, q) {
      assert ReadyIs(l.ready, l'.place, q);
    }
  }

  lemma {:induction false} AddDeadKeeps(l: Lists, n: nat, t: Task)
    requires Consistent(l, n) && Free(l, t)
    ensures Consistent(AddDead(l, t), n)
  {
    JoinOthers(l, n, t, Dead);
    ListGains(l.dead, l.place, Dead, t, |l.dead|);
    assert InsertAt(l.dead, |l.dead|, t) == l.dead + [t];
    var l' := AddDead(l, t);
    forall q | 0 <= q < n ensures ReadyIs(l'.ready, l'.place, q) {
      assert ReadyIs(l.ready, l'.place, q);
    }
  }

  // ------------------------------------------------- a folded view of Consistent

  ghost predicate Consistent0(level: nat, l: Lists, n: nat) {
    if level == 0 then Consistent(l, n) else Consistent0(level - 1, l, n)
  }

  /** Consistent by another name, kept folded in the proofs about the kernel. */
  ghost predicate Kept(l: Lists, n: nat) { Consistent0(2, l, n) && |l.ready| == n && |l.timed| == 2 }

  lemma {:induction false} Unfold(l: Lists, n: nat)
    ensures Kept(l, n) <==> Consistent(l, n)
  {
    assert Consistent0(1, l, n) == Consistent0(0, l, n);
  }

  /** prvInitialiseTaskLists. */
  function NoTasks(n: nat): Lists { Lists(seq(n, i => Ring([], 0)), [[], []], [], [], map[]) }

  lemma {:induction false} KeptNone(n: nat)
    ensures Kept(NoTasks(n), n)
  {
    var l := NoTasks(n);
    forall p | 0 <= p < n ensures ReadyIs(l.ready, l.place, p) {
    }
    Unfold(l, n);
  }

  /** One timed list loses an item or stays. */
  ghost predicate SameOrLess(a: seq<Task>, b: seq<Task>) {
    a == b || exists k {:trigger a[k]} :: 0 <= k < |a| && b == a[..k] + a[k + 1..]
  }

  lemma {:induction false} KeptDetach(l: Lists, n: nat, t: Task)
    requires Kept(l, n) && t in l.place
    ensures Detachable(l, t) && Kept(Detach(l, t), n)
    ensures forall i :: 0 <= i < 2 ==> SameOrLess(l.timed[i], Detach(l, t).timed[i])
  {
    Unfold(l, n);
    DetachKeeps(l, n, t);
    Unfold(Detach(l, t), n);
    if l.place[t].Timed? {
      var q := l.timed[l.place[t].i];
      assert q[IndexOf(q, t)] == t;
    }
  }

  lemma {:induction false} KeptReady(l: Lists, n: nat, t: Task, p: nat)
    requires Kept(l, n) && Free(l, t) && p < n
    ensures l.ready[p].Valid() && Kept(AddReady(l, t, p), n)
  {
    Unfold(l, n);
    AddReadyKeeps(l, n, t, p);
    Unfold(AddReady(l, t, p), n);
  }

  lemma {:induction false} KeptTimed(l: Lists, n: nat, t: Task, i: nat, k: nat)
    requires Kept(l, n) && Free(l, t) && i < 2 && k <= |l.timed[i]|
    ensures Kept(AddTimed(l, t, i, k), n) && t !in l.timed[i]
  {
    Unfold(l, n);
    AddTimedKeeps(l, n, t, i, k);
    Unfold(AddTimed(l, t, i, k), n);
  }

  lemma {:induction false} KeptSuspended(l: Lists, n: nat, t: Task)
    requires Kept(l, n) && Free(l, t)
    ensures Kept(AddSuspended(l, t), n)
  {
    Unfold(l, n);
    AddSuspendedKeeps(l, n, t);
    Unfold(AddSuspended(l, t), n);
  }

  lemma {:induction false} KeptDead(l: Lists, n: nat, t: Task)
    requires Kept(l, n) && Free(l, t)
    ensures Kept(AddDead(l, t), n)
  {
    Unfold(l, n);
    AddDeadKeeps(l, n, t);
    Unfold(AddDead(l, t), n);
  }

  /** A task on a delayed list is placed there, and the other way round. */
  lemma {:induction false} KeptAt(l: Lists, n: nat, i: nat, t: Task)
    requires Kept(l, n) && i < 2
    ensures t in l.timed[i] <==> t in l.place && l.place[t] == Timed(i)
  {
    Unfold(l, n);
  }

  lemma {:induction false} KeptRange(l: Lists, n: nat, t: Task)
    requires Kept(l, n) && t in l.place
    ensures match l.place[t] case Ready(p) => p < n case Timed(i) => i < 2 case _ => true
  {
    Unfold(l, n);
  }

  lemma {:induction false} KeptList(l: Lists, n: nat, p: nat, t: Task)
    requires Kept(l, n) && p < n
    ensures l.ready[p].Valid()
    ensures t in l.ready[p].items <==> t in l.place && l.place[t] == Ready(p)
  {
    Unfold(l, n);
    assert ReadyIs(l.ready, l.place, p);
  }

  /** The cursor of a ready list is no concern of the placement. */
  lemma {:induction false} KeptAdvance(l: Lists, n: nat, p: nat)
    requires Kept(l, n) && p < n && l.ready[p].items != []
    ensures l.ready[p].Valid() && Kept(l.(ready := l.ready[p := Advance(l.ready[p])]), n)
  {
    Unfold(l, n);
    assert ReadyIs(l.ready, l.place, p);
    var l' := l.(ready := l.ready[p := Advance(l.ready[p])]);
    forall q | 0 <= q < n ensures ReadyIs(l'.ready, l'.place, q) {
      assert ReadyIs(l.ready, l.place, q);
    }
    Unfold(l', n);
  }
}
