/** What a kernel list stands for: a sequence of items and a cursor. Shared by the pointer
    structure of list.c and by the scheduler that uses it. */
module Rings {

  /** `cursor` is 0 at the end marker, or one more than the index of the item last returned. */
  datatype Ring<T(==)> = Ring(items: seq<T>, cursor: nat)
  {
    predicate Valid() { cursor <= |items| }
  }

  predicate Distinct<T(==)>(s: seq<T>) { forall i, j :: 0 <= i < j < |s| ==> s[i] != s[j] }

  function InsertAt<T>(s: seq<T>, k: nat, x: T): seq<T>
    requires k <= |s|
  {
    s[..k] + [x] + s[k..]
  }

  function RemoveAt<T>(s: seq<T>, k: nat): seq<T>
    requires k < |s|
  {
    s[..k] + s[k + 1..]
  }

  function IndexOf<T(==)>(s: seq<T>, x: T): (k: nat)
    requires x in s
    ensures k < |s| && s[k] == x
  {
    if s[0] == x then 0 else 1 + IndexOf(s[1..], x)
  }

  /** vListInsertEnd: just before the cursor. */
  function InsertEnd<T(==)>(r: Ring<T>, x: T): (r': Ring<T>)
    requires r.Valid()
    ensures r'.Valid()
  {
    var k := if r.cursor == 0 then |r.items| else r.cursor - 1;
    Ring(InsertAt(r.items, k, x), if r.cursor == 0 then 0 else r.cursor + 1)
  }

  /** uxListRemove: a cursor on the item steps back. */
  function RemoveIndex<T(==)>(r: Ring<T>, k: nat): (r': Ring<T>)
    requires r.Valid() && k < |r.items|
    ensures r'.Valid()
  {
    Ring(RemoveAt(r.items, k), if r.cursor > k then r.cursor - 1 else r.cursor)
  }

  function Remove<T(==)>(r: Ring<T>, x: T): (r': Ring<T>)
    requires r.Valid() && x in r.items
    ensures r'.Valid()
  {
    RemoveIndex(r, IndexOf(r.items, x))
  }

  /** listGET_OWNER_OF_NEXT_ENTRY: one step on, over the end marker. */
  function Advance<T(==)>(r: Ring<T>): (r': Ring<T>)
    requires r.Valid() && r.items != []
    ensures r'.Valid() && r'.cursor > 0
  {
    r.(cursor := if r.cursor == |r.items| then 1 else r.cursor + 1)
  }

  /** The items in the order the cursor will visit them. */
  function Visits<T(==)>(r: Ring<T>): seq<T>
    requires r.Valid()
  {
    r.items[r.cursor..] + r.items[..r.cursor]
  }

  // ------------------------------------------------------------- membership

  lemma {:induction false} InsertMembers<T>(s: seq<T>, k: nat, x: T)
    requires k <= |s|
    ensures forall y :: y in InsertAt(s, k, x) <==> y == x || y in s
    ensures Distinct(s) && x !in s ==> Distinct(InsertAt(s, k, x))
  {
    var q := InsertAt(s, k, x);
    assert forall i :: 0 <= i < |q| ==> q[i] == if i < k then s[i] else if i == k then x else s[i - 1];
    forall y | y in s ensures y in q {
      var i :| 0 <= i < |s| && s[i] == y;
      assert q[if i < k then i else i + 1] == y;
    }
    assert q[k] == x;
  }

  lemma {:induction false} RemoveMembers<T>(s: seq<T>, k: nat)
    requires k < |s| && Distinct(s)
    ensures Distinct(RemoveAt(s, k))
    ensures forall y :: y in RemoveAt(s, k) <==> y in s && y != s[k]
  {
    var q := RemoveAt(s, k);
    assert forall i :: 0 <= i < |q| ==> q[i] == s[if i < k then i else i + 1];
    forall y | y in s && y != s[k] ensures y in q {
      var i :| 0 <= i < |s| && s[i] == y;
      assert q[if i < k then i else i - 1] == y;
    }
  }

  lemma {:induction false} InsertEndMembers<T>(r: Ring<T>, x: T)
    requires r.Valid()
    ensures forall y :: y in InsertEnd(r, x).items <==> y == x || y in r.items
    ensures Distinct(r.items) && x !in r.items ==> Distinct(InsertEnd(r, x).items)
  {
    InsertMembers(r.items, if r.cursor == 0 then |r.items| else r.cursor - 1, x);
  }

  // ------------------------------------------------------------- round robin

  /** The item returned is the next one due, and goes to the back of the order. */
  lemma {:induction false} AdvanceVisits<T>(r: Ring<T>)
    requires r.Valid() && r.items != []
    ensures Advance(r).items[Advance(r).cursor - 1] == Visits(r)[0]
    ensures Visits(Advance(r)) == Visits(r)[1..] + [Visits(r)[0]]
  {
  }

  /** A new item waits for every other one except, at most, the one returned last. */
  lemma {:induction false} InsertEndVisits<T>(r: Ring<T>, x: T)
    requires r.Valid()
    ensures var v := Visits(r);
            Visits(InsertEnd(r, x)) == if r.cursor == 0 then v + [x] else v[..|v| - 1] + [x, v[|v| - 1]]
  {
    if r.cursor == 0 {
      assert Visits(InsertEnd(r, x)) == r.items + [x];
    } else {
      var c, q := r.cursor, InsertAt(r.items, r.cursor - 1, x);
      assert q[c + 1..] == r.items[c..];
      assert q[..c + 1] == r.items[..c - 1] + [x, r.items[c - 1]];
    }
  }

  /** How many others are visited before item `k`. */
  function Turn<T(==)>(r: Ring<T>, k: nat): (n: nat)
    requires r.Valid() && k < |r.items|
    ensures n < |r.items| && Visits(r)[n] == r.items[k]
  {
    if k >= r.cursor then k - r.cursor else |r.items| - r.cursor + k
  }

  /** Removing an item leaves the order of the others alone. */
  lemma {:induction false} RemoveVisits<T>(r: Ring<T>, k: nat)
    requires r.Valid() && k < |r.items|
    ensures Visits(RemoveIndex(r, k)) == RemoveAt(Visits(r), Turn(r, k))
  {
  }

  /** Every item is returned once before any is returned twice. */
  lemma {:induction false} EqualShare<T>(r: Ring<T>, k: nat)
    requires r.Valid() && k < |r.items|
    ensures var s := Steps(r, k); Advance(s).items[Advance(s).cursor - 1] == Visits(r)[k]
  {
    var s := Steps(r, k);
    StepsVisit(r, k);
    AdvanceVisits(s);
  }

  function Steps<T(==)>(r: Ring<T>, k: nat): (r': Ring<T>)
    requires r.Valid() && r.items != []
    ensures r'.Valid() && r'.items == r.items
  {
    if k == 0 then r else Advance(Steps(r, k - 1))
  }

  lemma {:induction false} StepsVisit<T>(r: Ring<T>, k: nat)
    requires r.Valid() && k < |r.items|
    ensures Visits(Steps(r, k)) == Visits(r)[k..] + Visits(r)[..k]
  {
    if k > 0 {
      StepsVisit(r, k - 1);
      AdvanceVisits(Steps(r, k - 1));
      Rotated(Visits(r), k);
    }
  }

  lemma {:induction false} Rotated<T>(v: seq<T>, k: nat)
    requires 0 < k <= |v|
    ensures var w := v[k - 1..] + v[..k - 1]; w[1..] + [w[0]] == v[k..] + v[..k]
  {
    assert v[..k] == v[..k - 1] + [v[k - 1]];
  }

  // --------------------------------------------------------- insertion by value

  /** Where vListInsert puts a value: before the first greater one. */
  function FirstGreater(vs: seq<nat>, v: nat): (k: nat)
    ensures k <= |vs|
    ensures forall i :: 0 <= i < k ==> vs[i] <= v
    ensures k < |vs| ==> vs[k] > v
  {
    if vs == [] || vs[0] > v then 0 else 1 + FirstGreater(vs[1..], v)
  }

  predicate Sorted(vs: seq<nat>) { forall i, j :: 0 <= i < j < |vs| ==> vs[i] <= vs[j] }

  /** Insertion keeps the order, and goes behind every equal value: it is stable. */
  lemma {:induction false} PlaceSorted(vs: seq<nat>, v: nat)
    requires Sorted(vs)
    ensures Sorted(InsertAt(vs, FirstGreater(vs, v), v))
    ensures forall i :: 0 <= i < |vs| && vs[i] == v ==> i < FirstGreater(vs, v)
  {
    var k := FirstGreater(vs, v);
    assert forall i :: k <= i < |vs| ==> vs[k] <= vs[i];
    SortedAt(vs, v, k);
  }

  lemma {:induction false} SortedAt(vs: seq<nat>, v: nat, k: nat)
    requires Sorted(vs) && k <= |vs| && (forall i :: 0 <= i < k ==> vs[i] <= v) && (k < |vs| ==> v <= vs[k])
    ensures Sorted(InsertAt(vs, k, v))
  {
    var q := InsertAt(vs, k, v);
    forall i, j | 0 <= i < j < |q| ensures q[i] <= q[j] {
      var x, y := if i < k then i else i - 1, if j < k then j else j - 1;
      assert i != k ==> q[i] == vs[x];
      assert j != k ==> q[j] == vs[y];
    }
  }
}
