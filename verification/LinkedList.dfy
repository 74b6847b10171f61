/** FreeRTOS/Source/list.c: the circular doubly linked list with an end marker and a cursor, and
    the ring of items it stands for. */
module LinkedList {
  import opened Rings

  /** xListItem, and xListEnd which is one without an owner. */
  class Node {
    var value: nat
    var next: Node?
    var prev: Node?
    var container: List?

    constructor (v: nat)
      ensures value == v && next == null && prev == null && container == null
    {
      value, next, prev, container := v, null, null, null;
    }
  }

  // ------------------------------------------------------- links as two maps

  /** The node at position `i`, the end marker coming after the last item. */
  function At(items: seq<Node>, end: Node, i: nat): Node
    requires i <= |items|
  {
    if i < |items| then items[i] else end
  }

  function Before(items: seq<Node>, end: Node, i: nat): Node
    requires i <= |items|
  {
    if i == 0 then end else items[i - 1]
  }

  type Links = map<Node, Node>

  ghost predicate LinkAt(items: seq<Node>, end: Node, nx: Links, pv: Links, i: nat)
    requires i <= |items|
  {
    var a, b := At(items, end, i), Before(items, end, i);
    a in pv && pv[a] == b && b in nx && nx[b] == a
  }

  /** The links go round: each position points back to the one before and is pointed at by it. */
  ghost predicate Chain(items: seq<Node>, end: Node, nx: Links, pv: Links) {
    && Distinct(items) && end !in items
    && forall i {:trigger LinkAt(items, end, nx, pv, i)} :: 0 <= i <= |items| ==> LinkAt(items, end, nx, pv, i)
  }

  /** A chain through exactly these nodes. */
  ghost predicate Through(items: seq<Node>, end: Node, nx: Links, pv: Links, nodes: set<Node>) {
    Chain(items, end, nx, pv) && nodes == (set x | x in items) + {end}
  }

  /** Through by another name, kept folded in the proofs about the heap. */
  ghost predicate Through0(level: nat, items: seq<Node>, end: Node, nx: Links, pv: Links, nodes: set<Node>) {
    if level == 0 then Through(items, end, nx, pv, nodes) else Through0(level - 1, items, end, nx, pv, nodes)
  }

  ghost predicate Ringed(items: seq<Node>, end: Node, nx: Links, pv: Links, nodes: set<Node>) {
    Through0(2, items, end, nx, pv, nodes)
  }

  lemma {:induction false} Unfold(items: seq<Node>, end: Node, nx: Links, pv: Links, nodes: set<Node>)
    ensures Ringed(items, end, nx, pv, nodes) <==> Through(items, end, nx, pv, nodes)
  {
    assert Through0(1, items, end, nx, pv, nodes) == Through0(0, items, end, nx, pv, nodes);
  }

  /** The link between positions `i - 1` and `i`. */
  lemma {:induction false} Link(items: seq<Node>, end: Node, nx: Links, pv: Links, nodes: set<Node>, i: nat)
    requires Ringed(items, end, nx, pv, nodes) && i <= |items|
    ensures LinkAt(items, end, nx, pv, i)
    ensures At(items, end, i) in nodes && Before(items, end, i) in nodes
    ensures i < |items| ==> items[i] != end
  {
    Unfold(items, end, nx, pv, nodes);
    assert LinkAt(items, end, nx, pv, i);
  }

  /** Splicing `x` in before position `k`. The node before each position stays, counted anew. */
  lemma {:induction false} Splice(s: seq<Node>, end: Node, nx: Links, pv: Links, nodes: set<Node>, k: nat, x: Node,
                                  c: nat)
    requires Ringed(s, end, nx, pv, nodes) && k <= |s| && x !in nodes && c <= |s|
    ensures var a, b := At(s, end, k), Before(s, end, k);
            && Ringed(InsertAt(s, k, x), end, nx[x := a][b := x], pv[x := b][a := x], nodes + {x})
            && LinkAt(s, end, nx, pv, k) && a in nodes && b in nodes
    ensures Before(InsertAt(s, k, x), end, if c > k then c + 1 else c) == Before(s, end, c)
  {
    var a, b, q := At(s, end, k), Before(s, end, k), InsertAt(s, k, x);
    var nx', pv' := nx[x := a][b := x], pv[x := b][a := x];
    Unfold(s, end, nx, pv, nodes);
    Unfold(q, end, nx', pv', nodes + {x});
    InsertMembers(s, k, x);
    Link(s, end, nx, pv, nodes, k);
    forall i | 0 <= i <= |q| ensures LinkAt(q, end, nx', pv', i) {
      var j := if i <= k then i else i - 1;
      assert LinkAt(s, end, nx, pv, j);
      assert At(q, end, i) == if i < k then At(s, end, i) else if i == k then x else At(s, end, i - 1);
      assert Before(q, end, i) == if i <= k then Before(s, end, i) else if i == k + 1 then x else Before(s, end, i - 1);
    }
  }

  /** Taking position `k` out. */
  lemma {:induction false} Unsplice(s: seq<Node>, end: Node, nx: Links, pv: Links, nodes: set<Node>, k: nat, c: nat)
    requires Ringed(s, end, nx, pv, nodes) && k < |s| && c <= |s|
    ensures var a, b := At(s, end, k + 1), Before(s, end, k);
            && Ringed(RemoveAt(s, k), end, nx[b := a], pv[a := b], nodes - {s[k]})
            && LinkAt(s, end, nx, pv, k) && LinkAt(s, end, nx, pv, k + 1) && s[k] != end && s[k] in nodes
            && a in nodes && b in nodes && a != s[k] && b != s[k]
    ensures Before(s, end, c) == s[k] <==> c == k + 1
    ensures Before(RemoveAt(s, k), end, if c > k then c - 1 else c) == Before(s, end, if c == k + 1 then k else c)
  {
    var a, b, q := At(s, end, k + 1), Before(s, end, k), RemoveAt(s, k);
    var nx', pv' := nx[b := a], pv[a := b];
    Unfold(s, end, nx, pv, nodes);
    Unfold(q, end, nx', pv', nodes - {s[k]});
    RemoveMembers(s, k);
    assert LinkAt(s, end, nx, pv, k) && LinkAt(s, end, nx, pv, k + 1);
    forall i | 0 <= i <= |q| ensures LinkAt(q, end, nx', pv', i) {
      assert LinkAt(s, end, nx, pv, i) && LinkAt(s, end, nx, pv, i + 1);
      assert At(q, end, i) == if i < k then At(s, end, i) else At(s, end, i + 1);
      assert Before(q, end, i) == if i <= k then Before(s, end, i) else Before(s, end, i + 1);
    }
  }

  class List {
    const end: Node
    const maxDelay: nat
    var index: Node
    var count: nat
    ghost var items: seq<Node>
    ghost var cursor: nat
    ghost var nx: Links
    ghost var pv: Links
    ghost var nodes: set<Node>

    /** The pointers in memory are the links. */
    static ghost predicate Woven(nodes: set<Node>, nx: Links, pv: Links)
      reads nodes
    {
      forall x {:trigger x in nodes} :: x in nodes ==> x in nx && x in pv && x.next == nx[x] && x.prev == pv[x]
    }

    ghost predicate Owned(nodes: set<Node>)
      reads this, nodes
    {
      && end in nodes && end.value == maxDelay
      && (forall x {:trigger x in nodes} :: x in nodes && x != end ==> x.container == this && x.value <= maxDelay)
    }

    ghost predicate Valid()
      reads this, nodes
    {
      && Ringed(items, end, nx, pv, nodes)
      && Woven(nodes, nx, pv) && Owned(nodes)
      && count == |items| && cursor <= |items| && index == Before(items, end, cursor)
    }

    ghost function Abs(): Ring<Node>
      reads this
    {
      Ring(items, cursor)
    }

    /** The values of the items, in order. */
    ghost predicate HasValues(vs: seq<nat>)
      reads this, nodes
    {
      |vs| == |items| && forall i :: 0 <= i < |vs| ==> items[i] in nodes && items[i].value == vs[i]
    }

    /** vListInitialise. */
    constructor (max: nat)
      ensures Valid() && Abs() == Ring([], 0) && maxDelay == max && fresh(nodes)
    {
      var e := new Node(max);
      end, maxDelay, index, count := e, max, e, 0;
      items, cursor, nx, pv, nodes := [], 0, map[e := e], map[e := e], {e};
      new;
      end.next, end.prev := end, end;
      Unfold([], end, nx, pv, nodes);
    }

    /** The four pointer writes of vListInsertEnd, before the node `a` at position `k`. */
    method WeaveBefore(x: Node, a: Node, ghost k: nat) returns (ghost nx': Links, ghost pv': Links)
      requires Ringed(items, end, nx, pv, nodes) && Woven(nodes, nx, pv) && x !in nodes
      requires k <= |items| && a == At(items, end, k) && cursor <= |items|
      modifies nodes`next, nodes`prev, x`next, x`prev
      ensures Woven(nodes + {x}, nx', pv') && Ringed(InsertAt(items, k, x), end, nx', pv', nodes + {x})
      ensures Before(InsertAt(items, k, x), end, if cursor > k then cursor + 1 else cursor) ==
                Before(items, end, cursor)
    {
      Splice(items, end, nx, pv, nodes, k, x, cursor);
      ghost var b := Before(items, end, k);
      nx', pv' := nx[x := a][b := x], pv[x := b][a := x];
      x.next := a;
      x.prev := a.prev;
      a.prev.next := x;
      a.prev := x;
    }

    /** The four pointer writes of vListInsert, after the node `b` before position `k`. */
    method WeaveAfter(x: Node, b: Node, ghost k: nat) returns (ghost nx': Links, ghost pv': Links)
      requires Ringed(items, end, nx, pv, nodes) && Woven(nodes, nx, pv) && x !in nodes
      requires k <= |items| && b == Before(items, end, k) && cursor <= |items|
      modifies nodes`next, nodes`prev, x`next, x`prev
      ensures Woven(nodes + {x}, nx', pv') && Ringed(InsertAt(items, k, x), end, nx', pv', nodes + {x})
      ensures Before(InsertAt(items, k, x), end, if cursor > k then cursor + 1 else cursor) ==
                Before(items, end, cursor)
    {
      Splice(items, end, nx, pv, nodes, k, x, cursor);
      ghost var a := At(items, end, k);
      nx', pv' := nx[x := a][b := x], pv[x := b][a := x];
      x.next := b.next;
      x.next.prev := x;
      x.prev := b;
      b.next := x;
    }

    /** The two pointer writes of uxListRemove. */
    method Unweave(x: Node)
      requires Woven(nodes, nx, pv) && x in nodes && nx[x] in nodes && pv[x] in nodes && nx[x] != x && pv[x] != x
      modifies nodes`next, nodes`prev
      ensures Woven(nodes, nx[pv[x] := nx[x]], pv[nx[x] := pv[x]])
    {
      x.next.prev := x.prev;
      x.prev.next := x.next;
    }

    /** vListInsertEnd: the item becomes the last one the cursor will visit, but for the item
        the cursor is on. */
    method InsertEnd(x: Node)
      requires Valid() && x !in nodes && x.value <= maxDelay
      modifies this`count, this`items, this`cursor, this`nx, this`pv, this`nodes
      modifies nodes`next, nodes`prev, x`next, x`prev, x`container
      ensures Valid() && Abs() == Rings.InsertEnd(old(Abs()), x) && nodes == old(nodes) + {x}
    {
      ghost var r := Rings.InsertEnd(Abs(), x);
      ghost var k := if cursor == 0 then |items| else cursor - 1;
      ghost var nx', pv';
      nx', pv' := WeaveBefore(x, index, k);
      Enlist(x, r.items, nx', pv', r.cursor);
    }

    /** The container is recorded and the item counted. */
    method Enlist(x: Node, ghost q: seq<Node>, ghost nx': Links, ghost pv': Links, ghost c: nat)
      requires Owned(nodes) && x !in nodes && x.value <= maxDelay && count == |items|
      requires Ringed(q, end, nx', pv', nodes + {x}) && Woven(nodes + {x}, nx', pv')
      requires |q| == |items| + 1 && c <= |q| && index == Before(q, end, c)
      modifies this`count, this`items, this`cursor, this`nx, this`pv, this`nodes, x`container
      ensures Valid() && items == q && cursor == c && nodes == old(nodes) + {x}
    {
      x.container := this;
      count := count + 1;
      nx, pv, nodes, items, cursor := nx', pv', nodes + {x}, q, c;
    }

    /** Where the search of vListInsert stops: before the first greater value. */
    method FindPlace(v: nat, ghost vs: seq<nat>) returns (it: Node, ghost k: nat)
      requires Valid() && v <= maxDelay && HasValues(vs)
      ensures k == FirstGreater(vs, v) && k <= |items| && it == Before(items, end, k)
    {
      if v == maxDelay {
        Link(items, end, nx, pv, nodes, |items|);
        k := |items|;
        it := end.prev;
        if FirstGreater(vs, v) < |vs| {
          Link(items, end, nx, pv, nodes, FirstGreater(vs, v));
        }
      } else {
        it, k := end, 0;
        Link(items, end, nx, pv, nodes, 0);
        while it.next.value <= v
          invariant 0 <= k <= |items| && it == Before(items, end, k) && it.next == At(items, end, k)
          invariant k <= FirstGreater(vs, v)
          decreases |items| - k
        {
          Link(items, end, nx, pv, nodes, k + 1);
          assert vs[k] == At(items, end, k).value;
          it := it.next;
          k := k + 1;
        }
        assert k < |items| ==> vs[k] > v;
      }
    }

    /** vListInsert: before the first greater value, also when the value is the largest of all,
        that of the end marker. */
    method Insert(x: Node, ghost vs: seq<nat>)
      requires Valid() && x !in nodes && x.value <= maxDelay && HasValues(vs)
      modifies this`count, this`items, this`cursor, this`nx, this`pv, this`nodes
      modifies nodes`next, nodes`prev, x`next, x`prev, x`container
      ensures Valid() && index == old(index) && nodes == old(nodes) + {x}
      ensures items == InsertAt(old(items), FirstGreater(vs, x.value), x)
      ensures HasValues(InsertAt(vs, FirstGreater(vs, x.value), x.value))
    {
      InsertNode(x, vs);
      ValuesInserted(this, old(items), vs, FirstGreater(vs, x.value), x);
    }

    method InsertNode(x: Node, ghost vs: seq<nat>)
      requires Valid() && x !in nodes && x.value <= maxDelay && HasValues(vs)
      modifies this`count, this`items, this`cursor, this`nx, this`pv, this`nodes
      modifies nodes`next, nodes`prev, x`next, x`prev, x`container
      ensures Valid() && index == old(index) && nodes == old(nodes) + {x}
      ensures items == InsertAt(old(items), FirstGreater(vs, x.value), x)
    {
      var it;
      ghost var k;
      it, k := FindPlace(x.value, vs);
      ghost var q := InsertAt(items, k, x);
      ghost var nx', pv';
      nx', pv' := WeaveAfter(x, it, k);
      Enlist(x, q, nx', pv', if cursor > k then cursor + 1 else cursor);
    }

    /** uxListRemove. */
    method Remove(x: Node) returns (left: nat)
      requires Valid() && x in items
      modifies this`count, this`items, this`cursor, this`nx, this`pv, this`index, this`nodes
      modifies nodes`next, nodes`prev, x`container
      ensures Valid() && Abs() == Rings.Remove(old(Abs()), x) && nodes == old(nodes) - {x}
      ensures left == |items| && x.container == null
      ensures var r := old(Abs()); Visits(Abs()) == RemoveAt(Visits(r), Turn(r, IndexOf(r.items, x)))
    {
      ghost var r, k := Abs(), IndexOf(items, x);
      RemoveVisits(r, k);
      RemovePosition(x, k);
      assert Abs() == RemoveIndex(r, k);
      left := count;
    }

    method RemovePosition(x: Node, ghost k: nat)
      requires Valid() && k < |items| && items[k] == x
      modifies this`count, this`items, this`cursor, this`nx, this`pv, this`index, this`nodes
      modifies nodes`next, nodes`prev, x`container
      ensures Valid() && items == RemoveAt(old(items), k) && nodes == old(nodes) - {x} && x.container == null
      ensures cursor == if old(cursor) > k then old(cursor) - 1 else old(cursor)
    {
      Unsplice(items, end, nx, pv, nodes, k, cursor);
      ghost var a, b := At(items, end, k + 1), Before(items, end, k);
      Unweave(x);
      Delist(x, k, nx[b := a], pv[a := b]);
    }

    /** The cursor steps off the item, and the item is no longer counted. */
    method Delist(x: Node, ghost k: nat, ghost nx': Links, ghost pv': Links)
      requires Owned(nodes) && x in nodes && k < |items| && x == items[k] && x != end && count == |items|
      requires cursor <= |items|
      requires Ringed(RemoveAt(items, k), end, nx', pv', nodes - {x})
      requires Woven(nodes, nx', pv') && x.prev == Before(items, end, k)
      requires index == Before(items, end, cursor) && (index == x <==> cursor == k + 1)
      requires Before(RemoveAt(items, k), end, if cursor > k then cursor - 1 else cursor) ==
               Before(items, end, if cursor == k + 1 then k else cursor)
      modifies this`count, this`items, this`cursor, this`nx, this`pv, this`index, this`nodes, x`container
      ensures Valid() && items == RemoveAt(old(items), k) && nodes == old(nodes) - {x} && x.container == null
      ensures cursor == if old(cursor) > k then old(cursor) - 1 else old(cursor)
    {
      if index == x {
        index := x.prev;
      }
      x.container := null;
      count := count - 1;
      cursor := if cursor > k then cursor - 1 else cursor;
      nx, pv, nodes, items := nx', pv', nodes - {x}, RemoveAt(items, k);
    }

    /** listGET_OWNER_OF_NEXT_ENTRY. */
    method Next() returns (x: Node)
      requires Valid() && items != []
      modifies this`index, this`cursor
      ensures Valid() && Abs() == Advance(old(Abs())) && x == items[cursor - 1]
    {
      Link(items, end, nx, pv, nodes, cursor);
      Link(items, end, nx, pv, nodes, 0);
      Unfold(items, end, nx, pv, nodes);
      index := index.next;
      cursor := if cursor == |items| then 0 else cursor + 1;
      if index == end {
        index := index.next;
        cursor := 1;
      }
      x := index;
    }
  }

  /** Inserting by value keeps a sorted list sorted and goes behind equal values. */
  method InsertSorted(l: List, x: Node, ghost vs: seq<nat>) returns (ghost vs': seq<nat>, ghost k: nat)
    requires l.Valid() && x !in l.nodes && x.value <= l.maxDelay && l.HasValues(vs) && Sorted(vs)
    modifies l`count, l`items, l`cursor, l`nx, l`pv, l`nodes
    modifies l.nodes`next, l.nodes`prev, x`next, x`prev, x`container
    ensures l.Valid() && l.HasValues(vs') && Sorted(vs')
    ensures k <= |vs| && l.items == InsertAt(old(l.items), k, x) && vs' == InsertAt(vs, k, x.value)
    ensures (forall i :: 0 <= i < k ==> vs[i] <= x.value) && (forall i :: k <= i < |vs| ==> vs[i] > x.value)
  {
    k := FirstGreater(vs, x.value);
    vs' := InsertAt(vs, k, x.value);
    PlaceSorted(vs, x.value);
    l.Insert(x, vs);
  }

  lemma {:induction false} ValuesInserted(l: List, s: seq<Node>, vs: seq<nat>, k: nat, x: Node)
    requires |vs| == |s| && k <= |s| && l.items == InsertAt(s, k, x) && x in l.nodes
    requires forall i :: 0 <= i < |s| ==> s[i] in l.nodes && s[i].value == vs[i]
    ensures l.HasValues(InsertAt(vs, k, x.value))
  {
    var q, vs' := l.items, InsertAt(vs, k, x.value);
    forall i | 0 <= i < |q| ensures q[i] in l.nodes && q[i].value == vs'[i] {
      assert q[i] == if i < k then s[i] else if i == k then x else s[i - 1];
      assert vs'[i] == if i < k then vs[i] else if i == k then x.value else vs[i - 1];
    }
  }
}
