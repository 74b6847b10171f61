/** FreeRTOS/Source/queue.c: the storage area of a queue, a ring of fixed-size items in one
    byte buffer, and the bounded sequence of items it stands for. */
module QueueStorage {

  type Item = seq<bv8>

  datatype Position = Back | Front | Overwrite

  /** The slot `i` places after `r + 1`, going round. */
  function Slot(r: nat, i: nat, length: nat): (s: nat)
    requires r < length && i <= length
    ensures s < length
  {
    var x := r + 1 + i;
    if x < length then x else if x < 2 * length then x - length else x - 2 * length
  }

  /** The slots after and before one slot. */
  function Succ(s: nat, length: nat): nat { if s + 1 < length then s + 1 else 0 }
  function Pred(s: nat, length: nat): nat
    requires length >= 1
  {
    if s == 0 then length - 1 else s - 1
  }

  /** Where slot `s` begins: `s` items of `size` bytes in. */
  function Offset(s: nat, size: nat): nat {
    if s == 0 then 0 else Offset(s - 1, size) + size
  }

  lemma {:induction false} OffsetIs(s: nat, size: nat)
    ensures Offset(s, size) == s * size
  {
    if s > 0 {
      OffsetIs(s - 1, size);
    }
  }

  lemma {:induction false} SlotsApart(a: nat, b: nat, size: nat)
    requires a < b
    ensures Offset(a, size) + size <= Offset(b, size)
  {
    if a < b - 1 {
      SlotsApart(a, b - 1, size);
    }
  }

  lemma {:induction false} AllFit(length: nat, size: nat)
    ensures forall s :: 0 <= s < length ==> Offset(s, size) + size <= Offset(length, size)
  {
    forall s | 0 <= s < length ensures Offset(s, size) + size <= Offset(length, size) {
      SlotsApart(s, length, size);
    }
  }

  /** Stepping an offset by one item and wrapping at the end lands on the next slot. */
  lemma {:induction false} StepUp(s: nat, length: nat, size: nat)
    requires s < length
    ensures Offset(s, size) + size <= Offset(length, size)
    ensures Offset(Succ(s, length), size) == if Offset(s, size) + size >= Offset(length, size) then 0
              else Offset(s, size) + size
  {
    SlotsApart(s, length, size);
    if s + 1 < length {
      SlotsApart(s + 1, length, size);
    }
    if size == 0 {
      OffsetIs(s, 0);
      OffsetIs(s + 1, 0);
    }
  }

  lemma {:induction false} StepDown(s: nat, length: nat, size: nat)
    requires s < length
    ensures Offset(Pred(s, length), size) == if Offset(s, size) - size < 0 then Offset(length, size) - size
              else Offset(s, size) - size
  {
    if s == 0 && size == 0 {
      OffsetIs(length, 0);
      OffsetIs(length - 1, 0);
    }
  }

  // -------------------------------------------------------- the buffer as items

  /** The bytes in slot `s`. */
  function Read(bytes: seq<bv8>, s: nat, size: nat): Item
    requires Offset(s, size) + size <= |bytes|
  {
    bytes[Offset(s, size)..Offset(s, size) + size]
  }

  predicate Holds(bytes: seq<bv8>, length: nat, size: nat) {
    |bytes| == Offset(length, size) + 1
  }

  /** The `m` items from the slot after `r` on. */
  function Items(bytes: seq<bv8>, r: nat, m: nat, length: nat, size: nat): (c: seq<Item>)
    requires r < length && m <= length && Holds(bytes, length, size)
    ensures |c| == m
    ensures forall i :: 0 <= i < m ==>
              Offset(Slot(r, i, length), size) + size <= |bytes| && c[i] == Read(bytes, Slot(r, i, length), size)
  {
    AllFit(length, size);
    seq(m, i requires 0 <= i < m => Read(bytes, Slot(r, i, length), size))
  }

  /** memcpy of one item into slot `s`. */
  function Splice(bytes: seq<bv8>, at: nat, item: Item): (b: seq<bv8>)
    requires at + |item| <= |bytes|
    ensures |b| == |bytes|
    ensures forall k :: 0 <= k < |b| ==> b[k] == if at <= k < at + |item| then item[k - at] else bytes[k]
  {
    bytes[..at] + item + bytes[at + |item|..]
  }

  lemma {:induction false} ReadSplice(bytes: seq<bv8>, s: nat, item: Item, t: nat, length: nat)
    requires s < length && t < length && Holds(bytes, length, |item|)
    ensures Offset(s, |item|) + |item| <= |bytes| && Offset(t, |item|) + |item| <= |bytes|
    ensures Read(Splice(bytes, Offset(s, |item|), item), t, |item|) == if s == t then item else Read(bytes, t, |item|)
  {
    SlotsApart(s, length, |item|);
    SlotsApart(t, length, |item|);
    if t < s {
      SlotsApart(t, s, |item|);
    } else if s < t {
      SlotsApart(s, t, |item|);
    }
  }

  lemma {:induction false} SpliceFits(bytes: seq<bv8>, s: nat, item: Item, length: nat)
    requires s < length && Holds(bytes, length, |item|)
    ensures Offset(s, |item|) + |item| <= |bytes|
  {
    SlotsApart(s, length, |item|);
  }

  /** Writing the free slot behind the items appends; no live item is touched. */
  lemma {:induction false} WriteBehind(bytes: seq<bv8>, r: nat, m: nat, length: nat, item: Item)
    requires r < length && m < length && Holds(bytes, length, |item|)
    ensures var w := Slot(r, m, length);
            && Offset(w, |item|) + |item| <= |bytes|
            && Items(Splice(bytes, Offset(w, |item|), item), r, m + 1, length, |item|) ==
                Items(bytes, r, m, length, |item|) + [item]
  {
    var w := Slot(r, m, length);
    SpliceFits(bytes, w, item, length);
    forall i | 0 <= i <= m ensures Items(Splice(bytes, Offset(w, |item|), item), r, m + 1, length, |item|)[i] ==
                                   (Items(bytes, r, m, length, |item|) + [item])[i]
    {
      ReadSplice(bytes, w, item, Slot(r, i, length), length);
    }
  }

  /** Writing the slot before the items prepends. */
  lemma {:induction false} WriteBefore(bytes: seq<bv8>, r: nat, m: nat, length: nat, item: Item)
    requires r < length && m < length && Holds(bytes, length, |item|)
    ensures Offset(r, |item|) + |item| <= |bytes|
    ensures Items(Splice(bytes, Offset(r, |item|), item), Pred(r, length), m + 1, length, |item|) ==
            [item] + Items(bytes, r, m, length, |item|)
    ensures Slot(Pred(r, length), m + 1, length) == Slot(r, m, length)
  {
    SpliceFits(bytes, r, item, length);
    var after, items := Splice(bytes, Offset(r, |item|), item), Items(bytes, r, m, length, |item|);
    forall i | 0 <= i <= m ensures Items(after, Pred(r, length), m + 1, length, |item|)[i] == ([item] + items)[i]
    {
      SlotBack(r, i, length);
      ReadSplice(bytes, r, item, Slot(Pred(r, length), i, length), length);
    }
    SlotBack(r, m + 1, length);
  }

  lemma {:induction false} SlotBack(r: nat, i: nat, length: nat)
    requires r < length && i <= length
    ensures Slot(Pred(r, length), i, length) == if i == 0 then r else Slot(r, i - 1, length)
  {
  }

  /** Moving the read position on drops the first item. */
  lemma {:induction false} ReadOn(bytes: seq<bv8>, r: nat, m: nat, length: nat, size: nat)
    requires r < length && 0 < m <= length && Holds(bytes, length, size)
    ensures Items(bytes, Succ(r, length), m - 1, length, size) == Items(bytes, r, m, length, size)[1..]
    ensures Slot(r, 0, length) == Succ(r, length) && Slot(Succ(r, length), m - 1, length) == Slot(r, m, length)
  {
    assert forall i :: 0 <= i < m - 1 ==> Slot(Succ(r, length), i, length) == Slot(r, i + 1, length);
  }

  /** What a send does to the items: an item of no size is not replaced by another, but counted too. */
  function Put(c: seq<Item>, item: Item, position: Position): seq<Item> {
    match position
    case Back => c + [item]
    case Front => [item] + c
    case Overwrite => if item == [] then [item] + c else [item]
  }

  class Ring {
    const length: nat
    const itemSize: nat
    const tail: nat
    const buf: array<bv8>
    var writeTo: int
    var readFrom: int
    var messages: nat

    ghost var w: nat
    ghost var r: nat

    /** The offsets are slots of the buffer, and the slot behind the last item is the one that
        will be written next. Items of no size (semaphores) are only counted. */
    ghost predicate Valid()
      reads this
    {
      && length >= 1 && tail == Offset(length, itemSize) && buf.Length == tail + 1
      && w < length && r < length && writeTo == Offset(w, itemSize) && readFrom == Offset(r, itemSize)
      && (itemSize > 0 ==> messages <= length && w == Slot(r, messages, length))
    }

    ghost function Contents(): (c: seq<Item>)
      requires Valid()
      reads this, buf
      ensures |c| == messages
    {
      if itemSize == 0 then seq(messages, i => []) else Items(buf[..], r, messages, length, itemSize)
    }

    /** xQueueGenericCreate and xQueueGenericReset of a new queue. */
    constructor (n: nat, size: nat)
      requires n >= 1
      ensures Valid() && length == n && itemSize == size && Contents() == [] && fresh(buf)
    {
      length, itemSize, tail := n, size, n * size;
      OffsetIs(n, size);
      OffsetIs(n - 1, size);
      buf := new bv8[n * size + 1];
      writeTo, readFrom, messages := 0, (n - 1) * size, 0;
      w, r := 0, n - 1;
    }

    method Copy(at: nat, item: Item)
      requires at + |item| <= buf.Length
      modifies buf
      ensures buf[..] == Splice(old(buf[..]), at, item)
    {
      forall k | 0 <= k < |item| {
        buf[at + k] := item[k];
      }
    }

    /** prvCopyDataToQueue. Sending to the back appends, to the front prepends, and overwriting
        replaces the one item of a queue of length 1. The exception are items of no size: overwriting
        one in a full queue counts one more, and the count then exceeds the length. */
    method CopyTo(item: Item, position: Position)
      requires Valid() && |item| == itemSize
      requires position == Overwrite ==> length == 1
      requires position != Overwrite ==> messages < length
      modifies this, buf
      ensures Valid() && Contents() == Put(old(Contents()), item, position)
      ensures messages > length <==> position == Overwrite && itemSize == 0 && old(messages) >= 1
    {
      if itemSize == 0 {
        ghost var c := Contents();
        messages := messages + 1;
        AllEmpty(Contents(), Put(c, item, position));
      } else if position == Back {
        CopyBack(item);
      } else {
        CopyFront(item, position == Overwrite);
      }
    }

    method CopyBack(item: Item)
      requires Valid() && |item| == itemSize > 0 && messages < length
      modifies this`writeTo, this`messages, this`w, buf
      ensures Valid() && Contents() == old(Contents()) + [item]
    {
      WriteBehind(buf[..], r, messages, length, item);
      StepUp(w, length, itemSize);
      Copy(writeTo, item);
      writeTo := writeTo + itemSize;
      if writeTo >= tail {
        writeTo := 0;
      }
      w := Succ(w, length);
      messages := messages + 1;
    }

    method CopyFront(item: Item, overwrite: bool)
      requires Valid() && |item| == itemSize > 0 && (if overwrite then length == 1 else messages < length)
      modifies this`readFrom, this`messages, this`r, buf
      ensures Valid() && Contents() == [item] + if overwrite then [] else old(Contents())
    {
      WriteBefore(buf[..], r, if overwrite then 0 else messages, length, item);
      StepDown(r, length, itemSize);
      Copy(readFrom, item);
      readFrom := readFrom - itemSize;
      if readFrom < 0 {
        readFrom := tail - itemSize;
      }
      r := Pred(r, length);
      if overwrite {
        if messages > 0 {
          messages := messages - 1;
        }
      }
      messages := messages + 1;
    }

    static lemma {:induction false} AllEmpty(a: seq<Item>, b: seq<Item>)
      requires |a| == |b| && (forall i :: 0 <= i < |a| ==> a[i] == []) && (forall i :: 0 <= i < |b| ==> b[i] == [])
      ensures a == b
    {
    }

    /** prvCopyDataFromQueue: advances the read position and copies the item found there. */
    method CopyFrom() returns (item: Item)
      requires Valid() && messages > 0
      modifies this`readFrom, this`r
      ensures r == Succ(old(r), length) && readFrom == Offset(r, itemSize)
      ensures itemSize > 0 ==>
                && Slot(r, messages - 1, length) == w
                && Items(buf[..], r, messages - 1, length, itemSize) == old(Contents()[1..])
      ensures item == old(Contents()[0])
    {
      if itemSize > 0 {
        ReadOn(buf[..], r, messages, length, itemSize);
      }
      StepUp(r, length, itemSize);
      readFrom := readFrom + itemSize;
      if readFrom >= tail {
        readFrom := 0;
      }
      r := Succ(r, length);
      StepUp(r, length, itemSize);
      item := buf[readFrom..readFrom + itemSize];
    }

    /** xQueueGenericSend without blocking. */
    method Send(item: Item, position: Position) returns (ok: bool)
      requires Valid() && |item| == itemSize && (position == Overwrite ==> length == 1)
      modifies this, buf
      ensures Valid() && ok == (old(messages) < length || position == Overwrite)
      ensures Contents() == if ok then Put(old(Contents()), item, position) else old(Contents())
    {
      ok := messages < length || position == Overwrite;
      if ok {
        CopyTo(item, position);
      }
    }

    /** xQueueGenericReceive without blocking. */
    method Receive(peek: bool) returns (ok: bool, item: Item)
      requires Valid()
      modifies this
      ensures Valid() && ok == (old(messages) > 0)
      ensures ok ==> item == old(Contents())[0]
      ensures Contents() == if ok && !peek then old(Contents())[1..] else old(Contents())
    {
      ok, item := messages > 0, [];
      if ok {
        var original := readFrom;
        ghost var r0, c := r, Contents();
        item := CopyFrom();
        if !peek {
          messages := messages - 1;
          if itemSize == 0 {
            AllEmpty(Contents(), c[1..]);
          }
        } else {
          readFrom := original;
          r := r0;
        }
      }
    }
  }

  // --------------------------------------------------------------- whole runs

  datatype Op = Give(item: Item, position: Position) | Take(peek: bool)
  datatype Answer = Answer(ok: bool, item: Item)

  /** What one call does to a bounded sequence. */
  predicate Does(c: seq<Item>, bound: nat, op: Op, a: Answer, c': seq<Item>) {
    match op
    case Give(item, position) =>
      && a.ok == (|c| < bound || position == Overwrite)
      && c' == (if a.ok then Put(c, item, position) else c)
    case Take(peek) =>
      && a.ok == (|c| > 0)
      && (a.ok ==> a.item == c[0])
      && c' == (if a.ok && !peek then c[1..] else c)
  }

  /** A run of calls and answers that a bounded sequence explains. */
  ghost predicate Refines(c: seq<Item>, bound: nat, ops: seq<Op>, answers: seq<Answer>, c': seq<Item>)
    requires |answers| <= |ops|
    decreases |answers|
  {
    if answers == [] then c == c'
    else
      var n := |answers| - 1;
      exists mid :: Refines(c, bound, ops, answers[..n], mid) && Does(mid, bound, ops[n], answers[n], c')
  }

  lemma {:induction false} RefinesOneMore(c: seq<Item>, bound: nat, ops: seq<Op>, answers: seq<Answer>, mid: seq<Item>,
                                          a: Answer, c': seq<Item>)
    requires |answers| < |ops| && Refines(c, bound, ops, answers, mid) && Does(mid, bound, ops[|answers|], a, c')
    ensures Refines(c, bound, ops, answers + [a], c')
  {
    assert (answers + [a])[..|answers|] == answers;
  }

  predicate Sendable(op: Op, length: nat, itemSize: nat) {
    op.Give? ==> |op.item| == itemSize && (op.position == Overwrite ==> length == 1)
  }

  /** In every run the ring behaves as a bounded sequence of items. */
  method Run(q: Ring, ops: seq<Op>) returns (answers: seq<Answer>)
    requires q.Valid() && forall i :: 0 <= i < |ops| ==> Sendable(ops[i], q.length, q.itemSize)
    modifies q, q.buf
    ensures q.Valid() && |answers| == |ops|
    ensures Refines(old(q.Contents()), q.length, ops, answers, q.Contents())
  {
    answers := [];
    while |answers| < |ops|
      invariant q.Valid() && |answers| <= |ops|
      invariant Refines(old(q.Contents()), q.length, ops, answers, q.Contents())
      decreases |ops| - |answers|
    {
      var op := ops[|answers|];
      var a;
      ghost var mid := q.Contents();
      match op {
        case Give(item, position) =>
          var ok := q.Send(item, position);
          a := Answer(ok, []);
        case Take(peek) =>
          var ok, item := q.Receive(peek);
          a := Answer(ok, item);
      }
      RefinesOneMore(old(q.Contents()), q.length, ops, answers, mid, a, q.Contents());
      answers := answers + [a];
    }
  }
}
