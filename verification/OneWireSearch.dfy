/** extras/onewire/onewire.c: the 1-Wire search, a tree walk over the ids on the bus whose only
    memory between calls is one ROM and one bit position. The bus is a finite set of ids that
    answer with wired-AND bits. */
module OneWireSearch {

  // ------------------------------------------------------------ ROM registers

  /** A 64-bit id, bit 0 (the first on the wire) first. */
  type Id = b: seq<bool> | |b| == 64 witness seq(64, i => false)

  function Mask(k: nat): bv8
    requires k < 8
  {
    if k == 0 then 1 else if k == 1 then 2 else if k == 2 then 4 else if k == 3 then 8
    else if k == 4 then 16 else if k == 5 then 32 else if k == 6 then 64 else 128
  }

  /** Bit `i` of eight ROM bytes is bit `i % 8` of byte `i / 8`. */
  predicate Bit(r: seq<bv8>, i: nat)
    requires |r| == 8 && i < 64
  {
    r[i / 8] & Mask(i % 8) != 0
  }

  predicate Encodes(r: seq<bv8>, id: Id) {
    |r| == 8 && forall i {:trigger Bit(r, i)} :: 0 <= i < 64 ==> Bit(r, i) == id[i]
  }

  /** `|= mask` or `&= ~mask`. */
  function PutMask(b: bv8, m: bv8, v: bool): bv8 { if v then b | m else b & !m }

  lemma {:induction false} MaskBits(b: bv8, j: nat, k: nat, v: bool)
    requires j < 8 && k < 8
    ensures (PutMask(b, Mask(k), v) & Mask(j) != 0) == (if j == k then v else b & Mask(j) != 0)
  {
  }

  lemma {:induction false} MaskShift(k: nat)
    requires k < 8
    ensures Mask(k) << 1 == if k < 7 then Mask(k + 1) else 0
  {
  }

  /** Setting or clearing one bit of the register. */
  method PutBit(r: seq<bv8>, byteNo: nat, mask: bv8, v: bool, ghost n: nat, ghost id: Id) returns (r': seq<bv8>)
    requires Encodes(r, id) && n < 64 && byteNo == n / 8 && mask == Mask(n % 8)
    ensures Encodes(r', id[n := v])
  {
    r' := r[byteNo := PutMask(r[byteNo], mask, v)];
    forall i | 0 <= i < 64 ensures Bit(r', i) == id[n := v][i] {
      BitAfter(r, n, v, i);
      assert Bit(r, i) == id[i];
    }
  }

  lemma {:induction false} BitAfter(r: seq<bv8>, n: nat, v: bool, i: nat)
    requires |r| == 8 && n < 64 && i < 64
    ensures Bit(r[n / 8 := PutMask(r[n / 8], Mask(n % 8), v)], i) == if i == n then v else Bit(r, i)
  {
    if i / 8 == n / 8 {
      MaskBits(r[n / 8], i % 8, n % 8, v);
      assert i == n <==> i % 8 == n % 8;
    }
  }

  method GetBit(r: seq<bv8>, byteNo: nat, mask: bv8, ghost n: nat, ghost id: Id) returns (v: bool)
    requires Encodes(r, id) && n < 64 && byteNo == n / 8 && mask == Mask(n % 8)
    ensures v == id[n]
  {
    v := r[byteNo] & mask > 0;
    assert Bit(r, n) == id[n];
  }

  /** Moving the mask on, and to the next byte when it runs out. */
  method Advance(byteNo: nat, mask: bv8, ghost n: nat) returns (byteNo': nat, mask': bv8)
    requires n < 64 && byteNo == n / 8 && mask == Mask(n % 8)
    ensures byteNo' == (n + 1) / 8 && mask' == Mask((n + 1) % 8)
  {
    MaskShift(n % 8);
    byteNo', mask' := byteNo, mask << 1;
    if mask' == 0 {
      byteNo', mask' := byteNo + 1, 1;
    }
  }

  lemma {:induction false} ZeroByte(b: bv8)
    ensures b == 0 <==> forall k :: 0 <= k < 8 ==> b & Mask(k) == 0
  {
    if forall k :: 0 <= k < 8 ==> b & Mask(k) == 0 {
      assert b & Mask(0) == 0 && b & Mask(1) == 0 && b & Mask(2) == 0 && b & Mask(3) == 0;
      assert b & Mask(4) == 0 && b & Mask(5) == 0 && b & Mask(6) == 0 && b & Mask(7) == 0;
    }
  }

  /** A non-zero family code. */
  predicate Family(id: Id) { exists k :: 0 <= k < 8 && id[k] }

  lemma {:induction false} FamilyByte(r: seq<bv8>, id: Id)
    requires Encodes(r, id)
    ensures r[0] != 0 <==> Family(id)
  {
    ZeroByte(r[0]);
    forall k | 0 <= k < 8 ensures (r[0] & Mask(k) != 0) == id[k] {
      assert Bit(r, k) == id[k];
    }
  }

  lemma {:induction false} SameByte(x: bv8, y: bv8)
    requires forall k :: 0 <= k < 8 ==> (x & Mask(k) != 0) == (y & Mask(k) != 0)
    ensures x == y
  {
    assert (x & Mask(0) != 0) == (y & Mask(0) != 0) && (x & Mask(1) != 0) == (y & Mask(1) != 0);
    assert (x & Mask(2) != 0) == (y & Mask(2) != 0) && (x & Mask(3) != 0) == (y & Mask(3) != 0);
    assert (x & Mask(4) != 0) == (y & Mask(4) != 0) && (x & Mask(5) != 0) == (y & Mask(5) != 0);
    assert (x & Mask(6) != 0) == (y & Mask(6) != 0) && (x & Mask(7) != 0) == (y & Mask(7) != 0);
  }

  /** Eight bytes hold exactly one id. */
  lemma {:induction false} OneRom(a: seq<bv8>, b: seq<bv8>, id: Id)
    requires Encodes(a, id) && Encodes(b, id)
    ensures a == b
  {
    forall i | 0 <= i < 8 ensures a[i] == b[i] {
      forall k | 0 <= k < 8 ensures (a[i] & Mask(k) != 0) == (b[i] & Mask(k) != 0) {
        var n := 8 * i + k;
        assert n / 8 == i && n % 8 == k;
        assert Bit(a, n) == id[n] && Bit(b, n) == id[n];
      }
      SameByte(a[i], b[i]);
    }
  }

  // -------------------------------------------------------- order and branching

  /** The same first `n` bits. */
  predicate Agree(a: Id, b: Id, n: nat) { forall i :: 0 <= i < n && i < 64 ==> a[i] == b[i] }

  /** Bit-0-first lexicographic order: they part at bit `k`. */
  predicate Parts(a: Id, b: Id, k: int) { 0 <= k < 64 && Agree(a, b, k) && !a[k] && b[k] }

  ghost predicate Less(a: Id, b: Id) { exists k :: Parts(a, b, k) }

  lemma {:induction false} LessTrans(a: Id, b: Id, c: Id)
    requires Less(a, b) && Less(b, c)
    ensures Less(a, c)
  {
    var j :| Parts(a, b, j);
    var k :| Parts(b, c, k);
    assert Parts(a, c, if j < k then j else k);
  }

  lemma {:induction false} LessIrreflexive(a: Id, b: Id)
    requires Less(a, b)
    ensures a != b && !Less(b, a)
  {
    var j :| Parts(a, b, j);
    forall k ensures !Parts(b, a, k) {
    }
  }

  type Bus = set<Id>

  /** Some id on the bus agrees with `a` up to bit `k` and has a one there. */
  predicate Forks(bus: Bus, a: Id, k: nat) {
    exists y :: y in bus && Agree(y, a, k) && k < 64 && y[k]
  }

  /** The last position, counted from 1, among the first `n` where `a` goes left at a fork. */
  function LastZero(bus: Bus, a: Id, n: nat): (d: nat)
    requires n <= 64
    ensures d <= n
  {
    if n == 0 then 0
    else if !a[n - 1] && Forks(bus, a, n - 1) then n
    else LastZero(bus, a, n - 1)
  }

  lemma {:induction false} LastZeroIs(bus: Bus, a: Id, n: nat)
    requires n <= 64
    ensures var d := LastZero(bus, a, n);
            && (d > 0 ==> !a[d - 1] && Forks(bus, a, d - 1))
            && forall k :: d <= k < n && !a[k] ==> !Forks(bus, a, k)
  {
    if n > 0 {
      LastZeroIs(bus, a, n - 1);
    }
  }

  lemma {:induction false} LastZeroSame(bus: Bus, a: Id, b: Id, n: nat)
    requires n <= 64 && Agree(a, b, n)
    ensures LastZero(bus, a, n) == LastZero(bus, b, n)
  {
    if n > 0 {
      LastZeroSame(bus, a, b, n - 1);
      assert Forks(bus, a, n - 1) <==> Forks(bus, b, n - 1) by {
        forall y | y in bus ensures Agree(y, a, n - 1) == Agree(y, b, n - 1) {
        }
      }
    }
  }

  /** No fork left of `a` means nothing on the bus is greater. */
  lemma {:induction false} GreaterForks(bus: Bus, a: Id, y: Id)
    requires y in bus && Less(a, y)
    ensures exists k :: Parts(a, y, k) && k + 1 <= LastZero(bus, a, 64)
  {
    var k :| Parts(a, y, k);
    LastZeroIs(bus, a, 64);
    assert Agree(y, a, k);
    assert Forks(bus, a, k);
  }

  // ------------------------------------------------------------------ the walk

  /** What a call looks for: anything (d == 0), or the ids that leave the previous one to the
      right at its last left turn. */
  predicate Wanted(bus: Bus, p: Id, d: nat, x: Id) {
    x in bus && (d == 0 || (d <= 64 && Agree(x, p, d - 1) && x[d - 1]))
  }

  /** A discrepancy position left by the previous call. */
  predicate Resumes(bus: Bus, p: Id, d: nat) {
    d == 0 || (p in bus && d == LastZero(bus, p, 64))
  }

  /** The ids still answering are those that agree with the bits written. */
  ghost predicate Filtered(bus: Bus, q: Id, n: nat, active: Bus) {
    forall x :: x in active <==> x in bus && Agree(x, q, n)
  }

  /** No id wanted is behind: each agrees with the bits chosen or is greater. */
  ghost predicate Ahead(bus: Bus, p: Id, d: nat, q: Id, n: nat) {
    forall x :: Wanted(bus, p, d, x) ==> Agree(x, q, n) || Less(q, x)
  }

  /** The walk after `n` bits: `q` holds the bits chosen, `active` the ids still answering. */
  ghost predicate Walking(bus: Bus, p: Id, d: nat, q: Id, n: nat, active: Bus, lastZero: nat) {
    && n <= 64 && active != {}
    && (forall i :: n <= i < 64 ==> q[i] == p[i])
    && Filtered(bus, q, n, active)
    && (n < d ==> Agree(q, p, n))
    && (0 < d <= n ==> Agree(q, p, d - 1) && q[d - 1])
    && (d <= n ==> Ahead(bus, p, d, q, n))
    && lastZero == LastZero(bus, q, n)
  }

  predicate AllOnes(active: Bus, n: nat)
    requires n < 64
  {
    forall x :: x in active ==> x[n]
  }

  predicate AllZeros(active: Bus, n: nat)
    requires n < 64
  {
    forall x :: x in active ==> !x[n]
  }

  /** The direction the search takes at bit `n`. */
  function Direction(active: Bus, n: nat, d: nat, old': bool): bool
    requires n < 64
  {
    if AllOnes(active, n) != AllZeros(active, n) then AllOnes(active, n)
    else if n + 1 < d then old' else n + 1 == d
  }

  function Answering(active: Bus, n: nat, dir: bool): Bus
    requires n < 64
  {
    set x | x in active && x[n] == dir
  }

  lemma {:induction false} AgreeOn(x: Id, q: Id, n: nat, dir: bool)
    requires n < 64
    ensures Agree(x, q[n := dir], n + 1) <==> Agree(x, q, n) && x[n] == dir
  {
    if Agree(x, q[n := dir], n + 1) {
      forall i | 0 <= i < n ensures x[i] == q[i] {
        assert x[i] == q[n := dir][i];
      }
      assert x[n] == q[n := dir][n];
    }
  }

  /** Someone still answers after the direction is written. */
  lemma {:induction false} StillAnswered(bus: Bus, p: Id, d: nat, q: Id, n: nat, active: Bus, lastZero: nat)
    requires Walking(bus, p, d, q, n, active, lastZero) && n < 64 && Resumes(bus, p, d)
    ensures !(AllOnes(active, n) && AllZeros(active, n))
    ensures Answering(active, n, Direction(active, n, d, q[n])) != {}
    ensures n + 1 < d ==> Direction(active, n, d, q[n]) == p[n]
    ensures n + 1 == d ==> Direction(active, n, d, q[n])
  {
    var dir := Direction(active, n, d, q[n]);
    var x :| x in active;
    LastZeroIs(bus, p, 64);
    if n < d {
      assert Agree(p, q, n);
      assert p in active;
      if n + 1 == d {
        var y :| y in bus && Agree(y, p, n) && y[n];
        assert Agree(y, q, n);
        assert y in active;
        assert y in Answering(active, n, true);
      } else {
        assert p in Answering(active, n, p[n]);
      }
    } else {
      assert x in Answering(active, n, x[n]);
      if !AllOnes(active, n) {
        var z :| z in active && !z[n];
        assert z in Answering(active, n, false);
      }
    }
  }

  lemma {:induction false} LeftTurn(bus: Bus, q: Id, n: nat, active: Bus, dir: bool)
    requires n < 64 && Filtered(bus, q, n, active)
    requires Answering(active, n, dir) != {}
    ensures LastZero(bus, q[n := dir], n + 1) ==
            if !dir && !AllZeros(active, n) then n + 1 else LastZero(bus, q, n)
  {
    var q' := q[n := dir];
    LastZeroSame(bus, q, q', n);
    assert Forks(bus, q', n) <==> exists y :: y in active && y[n] by {
      forall y | y in bus ensures Agree(y, q', n) == Agree(y, q, n) {
      }
    }
  }

  /** The ids the walk wants stay in front of it: going left leaves only greater ids behind. */
  lemma {:induction false} NothingMissed(bus: Bus, p: Id, d: nat, q: Id, n: nat, active: Bus, lastZero: nat, x: Id)
    requires Walking(bus, p, d, q, n, active, lastZero) && n < 64 && Resumes(bus, p, d)
    requires n + 1 >= d && Wanted(bus, p, d, x)
    ensures var q' := q[n := Direction(active, n, d, q[n])]; Agree(x, q', n + 1) || Less(q', x)
  {
    var dir := Direction(active, n, d, q[n]);
    var q' := q[n := dir];
    StillAnswered(bus, p, d, q, n, active, lastZero);
    AgreeOn(x, q, n, dir);
    if n + 1 == d {
      assert Agree(x, q, n);
    } else if Agree(x, q, n) {
      assert x in active;
      if x[n] != dir {
        assert Agree(q', x, n);
        assert Parts(q', x, n);
      }
    } else {
      var k :| Parts(q, x, k);
      assert k < n by {
        if k >= n {
          assert Agree(x, q, n);
        }
      }
      assert Agree(q', x, k);
      assert Parts(q', x, k);
    }
  }

  /** The chosen bits follow the previous id up to its last left turn, and then turn right. */
  lemma {:induction false} FollowsPrevious(p: Id, d: nat, q: Id, n: nat, dir: bool)
    requires n < 64 && (n < d ==> Agree(q, p, n)) && (0 < d <= n ==> Agree(q, p, d - 1) && q[d - 1])
    requires (n + 1 < d ==> dir == p[n]) && (n + 1 == d ==> dir)
    ensures var q' := q[n := dir];
            (n + 1 < d ==> Agree(q', p, n + 1)) && (0 < d <= n + 1 ==> Agree(q', p, d - 1) && q'[d - 1])
  {
  }

  lemma {:induction false} WalkStep(bus: Bus, p: Id, d: nat, q: Id, n: nat, active: Bus, lastZero: nat)
    requires Walking(bus, p, d, q, n, active, lastZero) && n < 64 && Resumes(bus, p, d)
    ensures var dir := Direction(active, n, d, q[n]);
            Walking(bus, p, d, q[n := dir], n + 1, Answering(active, n, dir),
                    if !dir && !AllZeros(active, n) then n + 1 else lastZero)
  {
    var dir := Direction(active, n, d, q[n]);
    var q', active' := q[n := dir], Answering(active, n, dir);
    StillAnswered(bus, p, d, q, n, active, lastZero);
    LeftTurn(bus, q, n, active, dir);
    FollowsPrevious(p, d, q, n, dir);
    FilteredStep(bus, q, n, active, dir);
    if d <= n + 1 {
      AheadStep(bus, p, d, q, n, active, lastZero);
    }
  }

  lemma {:induction false} FilteredStep(bus: Bus, q: Id, n: nat, active: Bus, dir: bool)
    requires n < 64 && Filtered(bus, q, n, active)
    ensures Filtered(bus, q[n := dir], n + 1, Answering(active, n, dir))
  {
    forall x ensures x in Answering(active, n, dir) <==> x in bus && Agree(x, q[n := dir], n + 1) {
      AgreeOn(x, q, n, dir);
    }
  }

  lemma {:induction false} AheadStep(bus: Bus, p: Id, d: nat, q: Id, n: nat, active: Bus, lastZero: nat)
    requires Walking(bus, p, d, q, n, active, lastZero) && d <= n + 1 && n < 64 && Resumes(bus, p, d)
    ensures Ahead(bus, p, d, q[n := Direction(active, n, d, q[n])], n + 1)
  {
    forall x | Wanted(bus, p, d, x)
      ensures var q' := q[n := Direction(active, n, d, q[n])]; Agree(x, q', n + 1) || Less(q', x)
    {
      NothingMissed(bus, p, d, q, n, active, lastZero, x);
    }
  }

  /** The search loop of onewire_search_next, on a bus with at least one device: it ends on the
      least of the ids wanted, and knows the last left turn on the way there. */
  method Walk(bus: Bus, r0: seq<bv8>, d: nat, ghost p: Id) returns (r: seq<bv8>, lastZero: nat, count: nat, ghost q: Id)
    requires bus != {} && Encodes(r0, p) && Resumes(bus, p, d)
    ensures count == 65 && Encodes(r, q) && lastZero == LastZero(bus, q, 64)
    ensures Wanted(bus, p, d, q)
    ensures forall x :: Wanted(bus, p, d, x) ==> x == q || Less(q, x)
  {
    var active, byteNo, mask, idBitNumber := bus, 0, 1 as bv8, 1;
    r, lastZero, q := r0, 0, p;
    ghost var n: nat := 0;
    while byteNo < 8
      invariant n <= 64 && idBitNumber == n + 1 && byteNo == n / 8 && mask == Mask(n % 8)
      invariant Encodes(r, q) && Walking(bus, p, d, q, n, active, lastZero)
      decreases 64 - n
    {
      var some;
      some, r, lastZero, active, q := WalkBit(r, byteNo, mask, idBitNumber, d, active, lastZero, bus, p, q, n);
      if !some {
        break;
      }
      idBitNumber := idBitNumber + 1;
      byteNo, mask := Advance(byteNo, mask, n);
      n := n + 1;
    }
    count := idBitNumber;
    WalkEnds(bus, p, d, q, active, lastZero);
  }

  /** One bit of the search: read it and its complement, pick a direction, record and write it. */
  method WalkBit(r: seq<bv8>, byteNo: nat, mask: bv8, idBitNumber: nat, d: nat, active: Bus, lastZero: nat,
                 ghost bus: Bus, ghost p: Id, ghost q: Id, ghost n: nat)
    returns (some: bool, r': seq<bv8>, lastZero': nat, active': Bus, ghost q': Id)
    requires n < 64 && idBitNumber == n + 1 && byteNo == n / 8 && mask == Mask(n % 8)
    requires Encodes(r, q) && Walking(bus, p, d, q, n, active, lastZero) && Resumes(bus, p, d)
    ensures some && Encodes(r', q') && Walking(bus, p, d, q', n + 1, active', lastZero')
  {
    StillAnswered(bus, p, d, q, n, active, lastZero);
    WalkStep(bus, p, d, q, n, active, lastZero);
    r', lastZero', active', q', some := r, lastZero, active, q, true;
    var idBit, cmpIdBit := AllOnes(active, idBitNumber - 1), AllZeros(active, idBitNumber - 1);
    if idBit && cmpIdBit {
      return false, r', lastZero', active', q';
    }
    var direction;
    if idBit != cmpIdBit {
      direction := idBit;
    } else {
      if idBitNumber < d {
        direction := GetBit(r, byteNo, mask, n, q);
      } else {
        direction := idBitNumber == d;
      }
      if !direction {
        lastZero' := idBitNumber;
      }
    }
    r' := PutBit(r, byteNo, mask, direction, n, q);
    q' := q[n := direction];
    active' := Answering(active, idBitNumber - 1, direction);
  }

  lemma {:induction false} WalkEnds(bus: Bus, p: Id, d: nat, q: Id, active: Bus, lastZero: nat)
    requires Walking(bus, p, d, q, 64, active, lastZero) && Resumes(bus, p, d)
    ensures Wanted(bus, p, d, q)
    ensures forall x :: Wanted(bus, p, d, x) ==> x == q || Less(q, x)
  {
    var x :| x in active;
    assert x == q;
  }

  // ------------------------------------------------------------ the search object

  datatype Previous = First | After(id: Id)

  /** `x` comes after the previous result. */
  ghost predicate Later(prev: Previous, x: Id) { prev.First? || Less(prev.id, x) }

  /** `q` is the next id on the bus in bit order. */
  ghost predicate NextOnBus(bus: Bus, prev: Previous, q: Id) {
    && q in bus && Later(prev, q)
    && forall x :: x in bus && Later(prev, x) ==> x == q || Less(q, x)
  }

  /** The least id wanted is the successor of the previous one. */
  lemma {:induction false} LeastIsNext(bus: Bus, p: Id, d: nat, q: Id)
    requires p in bus && d == LastZero(bus, p, 64) && d > 0 && Wanted(bus, p, d, q)
    requires forall x :: Wanted(bus, p, d, x) ==> x == q || Less(q, x)
    ensures NextOnBus(bus, After(p), q)
  {
    LastZeroIs(bus, p, 64);
    assert Parts(p, q, d - 1);
    forall x | x in bus && Less(p, x) ensures x == q || Less(q, x) {
      GreaterForks(bus, p, x);
      var k :| Parts(p, x, k) && k + 1 <= d;
      if k + 1 < d {
        assert Parts(q, x, k);
      } else {
        assert Wanted(bus, p, d, x);
      }
    }
  }

  lemma {:induction false} NoneLater(bus: Bus, p: Id)
    requires LastZero(bus, p, 64) == 0
    ensures forall x :: x in bus ==> !Less(p, x)
  {
    forall x | x in bus ensures !Less(p, x) {
      if Less(p, x) {
        GreaterForks(bus, p, x);
      }
    }
  }

  const NONE: seq<bv8> := [0xff, 0xff, 0xff, 0xff, 0xff, 0xff, 0xff, 0xff]

  lemma {:induction false} AllMasks(k: nat)
    requires k < 8
    ensures 0xff & Mask(k) != 0 && (0 as bv8) & Mask(k) == 0
  {
  }

  lemma {:induction false} NoneIsAllOnes(id: Id)
    requires Encodes(NONE, id)
    ensures forall i :: 0 <= i < 64 ==> id[i]
  {
    forall i | 0 <= i < 64 ensures id[i] {
      assert Bit(NONE, i) == id[i];
      AllMasks(i % 8);
    }
  }

  lemma {:induction false} Zeroed()
    ensures Encodes([0, 0, 0, 0, 0, 0, 0, 0], seq(64, i => false))
  {
    forall i | 0 <= i < 64 ensures !Bit([0, 0, 0, 0, 0, 0, 0, 0], i) {
      AllMasks(i % 8);
    }
  }

  class Search {
    var rom: seq<bv8>
    var lastDiscrepancy: nat
    var lastDeviceFound: bool
    ghost var id: Id

    /** onewire_search_start. */
    constructor ()
      ensures Encodes(rom, id) && At(First, {})
    {
      rom, lastDiscrepancy, lastDeviceFound := [0, 0, 0, 0, 0, 0, 0, 0], 0, false;
      id := seq(64, i => false);
      Zeroed();
    }

    /** The search state says: start over, or go on from the id last returned. */
    ghost predicate At(prev: Previous, bus: Bus)
      reads this
    {
      && Encodes(rom, id)
      && match prev
         case First => lastDiscrepancy == 0 && !lastDeviceFound
         case After(p) =>
           && id == p && p in bus && lastDiscrepancy == LastZero(bus, p, 64)
           && lastDeviceFound == (lastDiscrepancy == 0)
    }

    /** onewire_search_next: the next id on the bus in bit order, or ONEWIRE_NONE and a search
        that will start over. An id with family code zero also ends the search. */
    method Next(bus: Bus, ghost prev: Previous) returns (addr: seq<bv8>, ghost found: bool)
      requires At(prev, bus)
      modifies this
      ensures found ==> NextOnBus(bus, prev, id) && Family(id) && Encodes(addr, id) && At(After(id), bus)
      ensures !found ==> addr == NONE && At(First, bus)
      ensures !found ==> forall x :: x in bus && Later(prev, x) ==> exists q :: NextOnBus(bus, prev, q) && !Family(q)
    {
      found := false;
      var result := false;
      if !lastDeviceFound {
        if bus == {} {
          lastDiscrepancy, lastDeviceFound := 0, false;
          return NONE, false;
        }
        var count, lastZero;
        ghost var d := lastDiscrepancy;
        rom, lastZero, count, id := Walk(bus, rom, lastDiscrepancy, id);
        if d > 0 {
          LeastIsNext(bus, prev.id, d, id);
        }
        if !(count < 65) {
          lastDiscrepancy := lastZero;
          if lastDiscrepancy == 0 {
            lastDeviceFound := true;
          }
          result := true;
        }
        FamilyByte(rom, id);
      } else {
        NoneLater(bus, prev.id);
      }
      if !result || rom[0] == 0 {
        lastDiscrepancy, lastDeviceFound := 0, false;
        addr := NONE;
      } else {
        addr, found := rom, true;
      }
    }
  }

  // -------------------------------------------------------------- enumeration

  ghost predicate Ordered(ids: seq<Id>) { forall i, j :: 0 <= i < j < |ids| ==> Less(ids[i], ids[j]) }

  /** `ids` are exactly the ids up to the previous result, in order. */
  ghost predicate Listed(bus: Bus, ids: seq<Id>, addrs: seq<seq<bv8>>) {
    && Ordered(ids) && |addrs| == |ids|
    && (forall i :: 0 <= i < |ids| ==> ids[i] in bus && Encodes(addrs[i], ids[i]))
    && (ids != [] ==> forall x :: x in bus && !Less(ids[|ids| - 1], x) ==> x in ids)
  }

  ghost function Left(bus: Bus, prev: Previous): Bus { set x | x in bus && Later(prev, x) }

  lemma {:induction false} ListedStep(bus: Bus, ids: seq<Id>, addrs: seq<seq<bv8>>, q: Id, a: seq<bv8>)
    requires Listed(bus, ids, addrs) && Encodes(a, q)
    requires NextOnBus(bus, if ids == [] then First else After(ids[|ids| - 1]), q)
    ensures Listed(bus, ids + [q], addrs + [a])
    ensures Left(bus, After(q)) < Left(bus, if ids == [] then First else After(ids[|ids| - 1]))
  {
    var prev := if ids == [] then First else After(ids[|ids| - 1]);
    var ids', addrs' := ids + [q], addrs + [a];
    forall i, j | 0 <= i < j < |ids'| ensures Less(ids'[i], ids'[j]) {
      if j == |ids| && i < |ids| - 1 {
        LessTrans(ids[i], ids[|ids| - 1], q);
      }
    }
    forall x | x in bus && !Less(q, x) ensures x in ids' {
      if Later(prev, x) {
        assert x == q;
        assert ids'[|ids|] == x;
      } else {
        assert x in ids;
      }
    }
    forall x | x in bus && Less(q, x) ensures Later(prev, x) {
      if prev.After? {
        LessTrans(prev.id, q, x);
      }
    }
    if Less(q, q) {
      LessIrreflexive(q, q);
    }
    assert q in Left(bus, prev) && q !in Left(bus, After(q));
  }

  /** Completeness: on an error-free bus whose ids have a family code and are not all ones, the calls
      after onewire_search_start return every id exactly once in bit order, and then ONEWIRE_NONE
      with the search back at its start. */
  method SearchAll(bus: Bus) returns (addrs: seq<seq<bv8>>, ghost ids: seq<Id>, s: Search)
    requires forall x :: x in bus ==> Family(x) && exists i :: 0 <= i < 64 && !x[i]
    ensures Ordered(ids) && |addrs| == |ids|
    ensures forall x :: x in bus <==> x in ids
    ensures forall i :: 0 <= i < |ids| ==> Encodes(addrs[i], ids[i])
    ensures fresh(s) && s.At(First, bus)
  {
    s := new Search();
    addrs, ids := [], [];
    var done := false;
    ghost var prev := First;
    while !done
      invariant fresh(s) && Listed(bus, ids, addrs)
      invariant prev == if ids == [] then First else After(ids[|ids| - 1])
      invariant s.At(if done then First else prev, bus)
      invariant done ==> forall x :: x in bus ==> !Later(prev, x)
      decreases !done, Left(bus, prev)
    {
      ghost var found;
      var addr;
      addr, found := s.Next(bus, prev);
      if found && addr == NONE {
        NoneIsAllOnes(s.id);
      }
      if addr == NONE {
        done := true;
      } else {
        ListedStep(bus, ids, addrs, s.id, addr);
        addrs, ids := addrs + [addr], ids + [s.id];
        prev := After(s.id);
      }
    }
    AllListed(bus, ids, addrs);
  }

  lemma {:induction false} AllListed(bus: Bus, ids: seq<Id>, addrs: seq<seq<bv8>>)
    requires Listed(bus, ids, addrs)
    requires forall x :: x in bus ==> !Later(if ids == [] then First else After(ids[|ids| - 1]), x)
    ensures forall x :: x in bus <==> x in ids
  {
  }

  /** The last of an ordered list, and what comes before it. */
  lemma {:induction false} OrderedFront(ids: seq<Id>)
    requires Ordered(ids) && ids != []
    ensures var n := |ids| - 1;
            Ordered(ids[..n]) && forall x :: x in ids[..n] <==> x in ids && x != ids[n]
  {
    var n := |ids| - 1;
    forall i | 0 <= i < n ensures ids[i] != ids[n] {
      LessIrreflexive(ids[i], ids[n]);
    }
    forall x | x in ids && x != ids[n] ensures x in ids[..n] {
      var i :| 0 <= i < |ids| && ids[i] == x;
      assert ids[..n][i] == x;
    }
  }

  lemma {:induction false} HasOne(ids: seq<Id>)
    ensures ids != [] ==> exists x :: x in ids
  {
    if ids != [] {
      assert ids[0] in ids;
    }
  }

  /** The last of an ordered list is the greatest. */
  lemma {:induction false} LastGreatest(ids: seq<Id>, x: Id)
    requires Ordered(ids) && x in ids
    ensures x == ids[|ids| - 1] || Less(x, ids[|ids| - 1])
  {
    var i :| 0 <= i < |ids| && ids[i] == x;
  }

  lemma {:induction false} SameLast(ids: seq<Id>, ids': seq<Id>)
    requires Ordered(ids) && Ordered(ids') && ids != [] && ids' != [] && forall x :: x in ids <==> x in ids'
    ensures ids[|ids| - 1] == ids'[|ids'| - 1]
  {
    var a, b := ids[|ids| - 1], ids'[|ids'| - 1];
    assert a in ids && b in ids';
    LastGreatest(ids, b);
    LastGreatest(ids', a);
    if Less(a, b) {
      LessIrreflexive(a, b);
    }
  }

  lemma {:induction false} OneOrder(ids: seq<Id>, ids': seq<Id>)
    requires Ordered(ids) && Ordered(ids') && forall x :: x in ids <==> x in ids'
    ensures ids == ids'
  {
    HasOne(ids);
    HasOne(ids');
    if ids != [] {
      var m, n := |ids| - 1, |ids'| - 1;
      SameLast(ids, ids');
      OrderedFront(ids);
      OrderedFront(ids');
      OneOrder(ids[..m], ids'[..n]);
      assert ids == ids[..m] + [ids[m]] && ids' == ids'[..n] + [ids'[n]];
    }
  }

  /** The bus alone determines what a complete search returns, down to the address bytes. */
  lemma {:induction false} SearchDetermined(bus: Bus, ids: seq<Id>, addrs: seq<seq<bv8>>, ids': seq<Id>,
                                            addrs': seq<seq<bv8>>)
    requires Ordered(ids) && |addrs| == |ids| && (forall x :: x in bus <==> x in ids)
    requires Ordered(ids') && |addrs'| == |ids'| && (forall x :: x in bus <==> x in ids')
    requires forall i :: 0 <= i < |ids| ==> Encodes(addrs[i], ids[i])
    requires forall i :: 0 <= i < |ids'| ==> Encodes(addrs'[i], ids'[i])
    ensures ids == ids' && addrs == addrs'
  {
    OneOrder(ids, ids');
    forall i | 0 <= i < |ids| ensures addrs[i] == addrs'[i] {
      OneRom(addrs[i], addrs'[i], ids[i]);
    }
  }
}
