/** extras/onewire/onewire.c: the two forms of the Dallas 8-bit CRC and the parity-table form of
    its 16-bit CRC, each against the bit-serial shift register it stands for. */
module OneWireCrc {

  // ------------------------------------------------------------------- CRC-8

  /** One shift of the register with feedback polynomial x^8 + x^5 + x^4 + 1, reflected. */
  function Shift(x: bv8): bv8 { if x & 1 == 1 then (x >> 1) ^ 0x8c else x >> 1 }

  /** `k` shifts. */
  function Shifts(x: bv8, k: nat): bv8 { if k == 0 then x else Shift(Shifts(x, k - 1)) }

  /** Eight shifts: a whole byte. */
  function Byte(x: bv8): bv8 { Shifts(x, 8) }

  function Unrolled(x: bv8): bv8 { Shift(Shift(Shift(Shift(Shift(Shift(Shift(Shift(x)))))))) }

  lemma {:induction false} ByteIs(x: bv8)
    ensures Byte(x) == Unrolled(x)
  {
    var x1 := Shift(x);
    assert Shifts(x, 0) == x;
    assert Shifts(x, 1) == x1;
    var x2 := Shift(x1);
    assert Shifts(x, 2) == x2;
    var x3 := Shift(x2);
    assert Shifts(x, 3) == x3;
    var x4 := Shift(x3);
    assert Shifts(x, 4) == x4;
    var x5 := Shift(x4);
    assert Shifts(x, 5) == x5;
    var x6 := Shift(x5);
    assert Shifts(x, 6) == x6;
    var x7 := Shift(x6);
    assert Shifts(x, 7) == x7;
  }

  /** One byte of input. The levels keep the bits out of the proofs about whole strings. */
  function Feed0(level: nat, crc: bv8, b: bv8): bv8 {
    if level == 0 then Byte(crc ^ b) else Feed0(level - 1, crc, b)
  }

  function Feed(crc: bv8, b: bv8): bv8 { Feed0(2, crc, b) }

  lemma {:induction false} FeedIs(crc: bv8, b: bv8)
    ensures Feed(crc, b) == Byte(crc ^ b)
  {
    assert Feed0(1, crc, b) == Feed0(0, crc, b);
  }

  /** The CRC of a byte string, from a starting value. */
  function Crc(crc: bv8, data: seq<bv8>): bv8
    decreases |data|
  {
    if data == [] then crc else Feed(Crc(crc, data[..|data| - 1]), data[|data| - 1])
  }

  /** onewire_crc8, compact form. */
  method BitwiseCrc8(data: seq<bv8>) returns (crc: bv8)
    ensures crc == Crc(0, data)
  {
    crc := 0;
    var n := 0;
    while n < |data|
      invariant 0 <= n <= |data| && crc == Crc(0, data[..n])
    {
      FeedIs(crc, data[n]);
      crc := MixByte(crc, data[n]);
      assert data[..n + 1][..n] == data[..n];
      n := n + 1;
    }
    assert data[..n] == data;
  }

  /** The bit loop of the compact form: the data bit is mixed in as it is shifted out. */
  method MixByte(crc: bv8, data: bv8) returns (r: bv8)
    ensures r == Byte(crc ^ data)
  {
    var inbyte, i := data, 8;
    r := crc;
    ghost var x := crc ^ data;
    while i > 0
      invariant 0 <= i <= 8 && r ^ inbyte == Shifts(x, 8 - i) && inbyte == Shr(data, 8 - i)
    {
      r, inbyte := MixBit(r, inbyte);
      i := i - 1;
    }
    ShiftedOut(data);
    XorZero(r);
  }

  method MixBit(crc: bv8, data: bv8) returns (r: bv8, inbyte: bv8)
    ensures r ^ inbyte == Shift(crc ^ data) && inbyte == data >> 1
  {
    var mix := (crc ^ data) & 1;
    r := crc >> 1;
    if mix != 0 {
      r := r ^ 0x8c;
    }
    inbyte := data >> 1;
  }

  lemma {:induction false} XorZero(x: bv8)
    ensures x ^ 0 == x
  {
  }

  function Shr(x: bv8, k: nat): bv8 { if k == 0 then x else Shr(x, k - 1) >> 1 }

  lemma {:induction false} ShiftedOut(x: bv8)
    ensures Shr(x, 8) == 0
  {
    ShrIs(x, 1);
    ShrIs(x, 2);
    ShrIs(x, 3);
    ShrIs(x, 4);
    ShrIs(x, 5);
    ShrIs(x, 6);
    ShrIs(x, 7);
    ShrIs(x, 8);
  }

  /** Each shift halves the range. */
  lemma {:induction false} ShrIs(x: bv8, k: nat)
    requires 1 <= k <= 8
    ensures Shr(x, k) == Shr(x, k - 1) >> 1
  {
  }

  // The lookup table, sixteen entries a row.

  function Pick(x: bv8, v0: bv8, v1: bv8, v2: bv8, v3: bv8, v4: bv8, v5: bv8, v6: bv8, v7: bv8,
                v8: bv8, v9: bv8, v10: bv8, v11: bv8, v12: bv8, v13: bv8, v14: bv8, v15: bv8): bv8
  {
    var i := x & 0x0f;
    if i < 8 then
      if i < 4 then
        if i < 2 then if i == 0 then v0 else v1 else if i == 2 then v2 else v3
      else
        if i < 6 then if i == 4 then v4 else v5 else if i == 6 then v6 else v7
    else
      if i < 12 then
        if i < 10 then if i == 8 then v8 else v9 else if i == 10 then v10 else v11
      else
        if i < 14 then if i == 12 then v12 else v13 else if i == 14 then v14 else v15
  }

  function Row0(x: bv8): bv8 { Pick(x, 0, 94, 188, 226, 97, 63, 221, 131, 194, 156, 126, 32, 163, 253, 31, 65) }
  function Row1(x: bv8): bv8 { Pick(x, 157, 195, 33, 127, 252, 162, 64, 30, 95, 1, 227, 189, 62, 96, 130, 220) }
  function Row2(x: bv8): bv8 { Pick(x, 35, 125, 159, 193, 66, 28, 254, 160, 225, 191, 93, 3, 128, 222, 60, 98) }
  function Row3(x: bv8): bv8 { Pick(x, 190, 224, 2, 92, 223, 129, 99, 61, 124, 34, 192, 158, 29, 67, 161, 255) }
  function Row4(x: bv8): bv8 { Pick(x, 70, 24, 250, 164, 39, 121, 155, 197, 132, 218, 56, 102, 229, 187, 89, 7) }
  function Row5(x: bv8): bv8 { Pick(x, 219, 133, 103, 57, 186, 228, 6, 88, 25, 71, 165, 251, 120, 38, 196, 154) }
  function Row6(x: bv8): bv8 { Pick(x, 101, 59, 217, 135, 4, 90, 184, 230, 167, 249, 27, 69, 198, 152, 122, 36) }
  function Row7(x: bv8): bv8 { Pick(x, 248, 166, 68, 26, 153, 199, 37, 123, 58, 100, 134, 216, 91, 5, 231, 185) }
  function Row8(x: bv8): bv8 { Pick(x, 140, 210, 48, 110, 237, 179, 81, 15, 78, 16, 242, 172, 47, 113, 147, 205) }
  function Row9(x: bv8): bv8 { Pick(x, 17, 79, 173, 243, 112, 46, 204, 146, 211, 141, 111, 49, 178, 236, 14, 80) }
  function Row10(x: bv8): bv8 { Pick(x, 175, 241, 19, 77, 206, 144, 114, 44, 109, 51, 209, 143, 12, 82, 176, 238) }
  function Row11(x: bv8): bv8 { Pick(x, 50, 108, 142, 208, 83, 13, 239, 177, 240, 174, 76, 18, 145, 207, 45, 115) }
  function Row12(x: bv8): bv8 { Pick(x, 202, 148, 118, 40, 171, 245, 23, 73, 8, 86, 180, 234, 105, 55, 213, 139) }
  function Row13(x: bv8): bv8 { Pick(x, 87, 9, 235, 181, 54, 104, 138, 212, 149, 203, 41, 119, 244, 170, 72, 22) }
  function Row14(x: bv8): bv8 { Pick(x, 233, 183, 85, 11, 136, 214, 52, 106, 43, 117, 151, 201, 74, 20, 246, 168) }
  function Row15(x: bv8): bv8 { Pick(x, 116, 42, 200, 150, 21, 75, 169, 247, 182, 232, 10, 84, 215, 137, 107, 53) }

  function Table(x: bv8): bv8 {
    if x < 16 then Row0(x) else if x < 32 then Row1(x) else if x < 48 then Row2(x) else if x < 64 then Row3(x)
    else if x < 80 then Row4(x) else if x < 96 then Row5(x) else if x < 112 then Row6(x) else if x < 128 then Row7(x)
    else if x < 144 then Row8(x) else if x < 160 then Row9(x) else if x < 176 then Row10(x)
        else if x < 192 then Row11(x)
    else if x < 208 then Row12(x) else if x < 224 then Row13(x) else if x < 240 then Row14(x) else Row15(x)
  }

  lemma {:induction false} RowIs0(x: bv8)
    requires x <= 15
    ensures Row0(x) == Unrolled(x)
  {
  }

  lemma {:induction false} RowIs1(x: bv8)
    requires 16 <= x <= 31
    ensures Row1(x) == Unrolled(x)
  {
  }

  lemma {:induction false} RowIs2(x: bv8)
    requires 32 <= x <= 47
    ensures Row2(x) == Unrolled(x)
  {
  }

  lemma {:induction false} RowIs3(x: bv8)
    requires 48 <= x <= 63
    ensures Row3(x) == Unrolled(x)
  {
  }

  lemma {:induction false} RowIs4(x: bv8)
    requires 64 <= x <= 79
    ensures Row4(x) == Unrolled(x)
  {
  }

  lemma {:induction false} RowIs5(x: bv8)
    requires 80 <= x <= 95
    ensures Row5(x) == Unrolled(x)
  {
  }

  lemma {:induction false} RowIs6(x: bv8)
    requires 96 <= x <= 111
    ensures Row6(x) == Unrolled(x)
  {
  }

  lemma {:induction false} RowIs7(x: bv8)
    requires 112 <= x <= 127
    ensures Row7(x) == Unrolled(x)
  {
  }

  lemma {:induction false} RowIs8(x: bv8)
    requires 128 <= x <= 143
    ensures Row8(x) == Unrolled(x)
  {
  }

  lemma {:induction false} RowIs9(x: bv8)
    requires 144 <= x <= 159
    ensures Row9(x) == Unrolled(x)
  {
  }

  lemma {:induction false} RowIs10(x: bv8)
    requires 160 <= x <= 175
    ensures Row10(x) == Unrolled(x)
  {
  }

  lemma {:induction false} RowIs11(x: bv8)
    requires 176 <= x <= 191
    ensures Row11(x) == Unrolled(x)
  {
  }

  lemma {:induction false} RowIs12(x: bv8)
    requires 192 <= x <= 207
    ensures Row12(x) == Unrolled(x)
  {
  }

  lemma {:induction false} RowIs13(x: bv8)
    requires 208 <= x <= 223
    ensures Row13(x) == Unrolled(x)
  {
  }

  lemma {:induction false} RowIs14(x: bv8)
    requires 224 <= x <= 239
    ensures Row14(x) == Unrolled(x)
  {
  }

  lemma {:induction false} RowIs15(x: bv8)
    requires 240 <= x
    ensures Row15(x) == Unrolled(x)
  {
  }

  /** Every table entry is eight shifts of its index. */
  lemma {:induction false} TableIs(x: bv8)
    ensures Table(x) == Byte(x)
  {
    ByteIs(x);
    if x < 16 {
      RowIs0(x);
    } else if x < 32 {
      RowIs1(x);
    } else if x < 48 {
      RowIs2(x);
    } else if x < 64 {
      RowIs3(x);
    } else if x < 80 {
      RowIs4(x);
    } else if x < 96 {
      RowIs5(x);
    } else if x < 112 {
      RowIs6(x);
    } else if x < 128 {
      RowIs7(x);
    } else if x < 144 {
      RowIs8(x);
    } else if x < 160 {
      RowIs9(x);
    } else if x < 176 {
      RowIs10(x);
    } else if x < 192 {
      RowIs11(x);
    } else if x < 208 {
      RowIs12(x);
    } else if x < 224 {
      RowIs13(x);
    } else if x < 240 {
      RowIs14(x);
    } else {
      RowIs15(x);
    }
  }

  /** onewire_crc8, table form: the same CRC. */
  method TableCrc8(data: seq<bv8>) returns (crc: bv8)
    ensures crc == Crc(0, data)
  {
    crc := 0;
    var n := 0;
    while n < |data|
      invariant 0 <= n <= |data| && crc == Crc(0, data[..n])
    {
      crc := TableStep(crc, data[n]);
      assert data[..n + 1][..n] == data[..n];
      n := n + 1;
    }
    assert data[..n] == data;
  }

  method TableStep(crc: bv8, b: bv8) returns (r: bv8)
    ensures r == Feed(crc, b)
  {
    FeedIs(crc, b);
    TableIs(crc ^ b);
    r := Table(crc ^ b);
  }

  // ------------------------------------------------ what the CRC is worth

  lemma {:induction false} CrcAppend(crc: bv8, a: seq<bv8>, b: seq<bv8>)
    ensures Crc(crc, a + b) == Crc(Crc(crc, a), b)
    decreases |b|
  {
    if b == [] {
      assert a + b == a;
    } else {
      var front := b[..|b| - 1];
      CrcAppend(crc, a, front);
      assert (a + b)[..|a + b| - 1] == a + front;
    }
  }

  lemma {:induction false} FeedSelf(x: bv8)
    ensures Feed(x, x) == 0
  {
    FeedIs(x, x);
    ByteIs(x ^ x);
  }

  /** A string followed by its own CRC leaves the register at zero. */
  lemma {:induction false} ResidueZero(data: seq<bv8>)
    ensures Crc(0, data + [Crc(0, data)]) == 0
  {
    var c := Crc(0, data);
    assert (data + [c])[..|data|] == data;
    FeedSelf(c);
  }

  lemma {:induction false} ShiftInjective(x: bv8, y: bv8)
    requires Shift(x) == Shift(y)
    ensures x == y
  {
  }

  lemma {:induction false} ShiftsInjective(x: bv8, y: bv8, k: nat)
    requires Shifts(x, k) == Shifts(y, k)
    ensures x == y
  {
    if k > 0 {
      ShiftInjective(Shifts(x, k - 1), Shifts(y, k - 1));
      ShiftsInjective(x, y, k - 1);
    }
  }

  lemma {:induction false} XorCancels(u: bv8, v: bv8, x: bv8)
    requires u ^ x == v ^ x
    ensures u == v
  {
  }

  lemma {:induction false} XorCommutes(u: bv8, x: bv8)
    ensures u ^ x == x ^ u
  {
  }

  /** Neither a different register nor a different byte can give the same register. */
  lemma {:induction false} FeedDiffers(c: bv8, d: bv8, x: bv8)
    requires c != d
    ensures Feed(c, x) != Feed(d, x) && Feed(x, c) != Feed(x, d)
  {
    FeedIs(c, x);
    FeedIs(d, x);
    FeedIs(x, c);
    FeedIs(x, d);
    if Byte(c ^ x) == Byte(d ^ x) || Byte(x ^ c) == Byte(x ^ d) {
      XorCommutes(c, x);
      XorCommutes(d, x);
      ShiftsInjective(c ^ x, d ^ x, 8);
      XorCancels(c, d, x);
    }
  }

  /** The register never forgets a difference: equal tails keep unequal registers unequal. */
  lemma {:induction false} TailKeepsDifference(c: bv8, d: bv8, tail: seq<bv8>)
    requires c != d
    ensures Crc(c, tail) != Crc(d, tail)
    decreases |tail|
  {
    if tail != [] {
      var front := tail[..|tail| - 1];
      TailKeepsDifference(c, d, front);
      FeedDiffers(Crc(c, front), Crc(d, front), tail[|tail| - 1]);
    }
  }

  /** Any change within one byte changes the CRC. */
  lemma {:induction false} OneByteDetected(head: seq<bv8>, x: bv8, y: bv8, tail: seq<bv8>)
    requires x != y
    ensures Crc(0, head + [x] + tail) != Crc(0, head + [y] + tail)
  {
    var c := Crc(0, head);
    assert (head + [x])[..|head|] == head && (head + [y])[..|head|] == head;
    FeedDiffers(x, y, c);
    CrcAppend(0, head + [x], tail);
    CrcAppend(0, head + [y], tail);
    TailKeepsDifference(Feed(c, x), Feed(c, y), tail);
  }

  // ------------------------------------------------------- bursts across bytes

  /** A burst of at most eight bits that begins `k` bits into one byte and ends in the next. */
  predicate Burst(e: bv8, f: bv8, k: bv8) {
    1 <= k <= 7 && (e | f) != 0 && e & ((1 << k) - 1) == 0 && f >> k == 0
  }

  lemma {:induction false} ShiftLinear(x: bv8, y: bv8)
    ensures Shift(x ^ y) == Shift(x) ^ Shift(y)
  {
  }

  lemma {:induction false} ShiftsLinear(x: bv8, y: bv8, k: nat)
    ensures Shifts(x ^ y, k) == Shifts(x, k) ^ Shifts(y, k)
  {
    if k > 0 {
      ShiftsLinear(x, y, k - 1);
      ShiftLinear(Shifts(x, k - 1), Shifts(y, k - 1));
    }
  }

  lemma {:induction false} BurstUnrolled(e: bv8, f: bv8, k: bv8)
    requires Burst(e, f, k)
    ensures Unrolled(e) != f
  {
  }

  lemma {:induction false} BurstNonZero(e: bv8, f: bv8, k: bv8)
    requires Burst(e, f, k)
    ensures Byte(e) != f
  {
    ByteIs(e);
    BurstUnrolled(e, f, k);
  }

  lemma {:induction false} XorSwap(c: bv8, x: bv8, e: bv8)
    ensures c ^ (x ^ e) == (c ^ x) ^ e
  {
  }

  lemma {:induction false} ByteError(u: bv8, e: bv8, w: bv8)
    requires w == u ^ e
    ensures Byte(w) == Byte(u) ^ Byte(e)
  {
    ShiftsLinear(u, e, 8);
  }

  lemma {:induction false} FeedValues(c: bv8, x: bv8, u: bv8)
    requires u == c ^ x
    ensures Feed(c, x) == Byte(u)
  {
    FeedIs(c, x);
  }

  lemma {:induction false} Mixed(c: bv8, x: bv8, e: bv8, x': bv8) returns (u: bv8, w: bv8)
    requires x' == x ^ e
    ensures u == c ^ x && w == c ^ x' && w == u ^ e
  {
    u, w := c ^ x, c ^ x';
    XorSwap(c, x, e);
  }

  /** An error in a byte adds its own eight shifts to the register. */
  lemma {:induction false} FeedError(c: bv8, x: bv8, e: bv8, x': bv8)
    requires x' == x ^ e
    ensures Feed(c, x') == Feed(c, x) ^ Byte(e)
  {
    var u, w := Mixed(c, x, e, x');
    FeedValues(c, x, u);
    FeedValues(c, x', w);
    ByteError(u, e, w);
  }

  lemma {:induction false} Cancel(u: bv8, y: bv8, g: bv8, f: bv8)
    requires g != f
    ensures u ^ y != (u ^ g) ^ (y ^ f)
  {
  }

  lemma {:induction false} FeedApart(u: bv8, y: bv8, g: bv8, f: bv8)
    requires g != f
    ensures Feed(u, y) != Feed(u ^ g, y ^ f)
  {
    FeedIs(u, y);
    FeedIs(u ^ g, y ^ f);
    Cancel(u, y, g, f);
    if Byte(u ^ y) == Byte((u ^ g) ^ (y ^ f)) {
      ShiftsInjective(u ^ y, (u ^ g) ^ (y ^ f), 8);
    }
  }

  lemma {:induction false} BurstShows(c: bv8, x: bv8, y: bv8, x': bv8, y': bv8, e: bv8, f: bv8, k: bv8)
    requires Burst(e, f, k) && x' == x ^ e && y' == y ^ f
    ensures Feed(Feed(c, x), y) != Feed(Feed(c, x'), y')
  {
    FeedError(c, x, e, x');
    BurstNonZero(e, f, k);
    FeedApart(Feed(c, x), y, Byte(e), f);
  }

  lemma {:induction false} TwoBytes(c: bv8, x: bv8, y: bv8)
    ensures Crc(c, [x, y]) == Feed(Feed(c, x), y)
  {
    assert [x, y][..1] == [x];
    assert Crc(c, [x]) == Feed(Crc(c, []), x);
  }

  /** Every error burst of at most eight bits across two neighbouring bytes changes the CRC. */
  lemma {:induction false} BurstDetected(head: seq<bv8>, x: bv8, y: bv8, x': bv8, y': bv8, tail: seq<bv8>, e: bv8,
                                         f: bv8, k: bv8)
    requires Burst(e, f, k) && x' == x ^ e && y' == y ^ f
    ensures Crc(0, head + [x, y] + tail) != Crc(0, head + [x', y'] + tail)
  {
    BurstShows(Crc(0, head), x, y, x', y', e, f, k);
    DifferOn(head, [x, y], [x', y'], tail, x, y, x', y');
  }

  lemma {:induction false} DifferOn(head: seq<bv8>, a: seq<bv8>, b: seq<bv8>, tail: seq<bv8>, x: bv8, y: bv8, x': bv8,
                                    y': bv8)
    requires a == [x, y] && b == [x', y']
    requires var c := Crc(0, head); Feed(Feed(c, x), y) != Feed(Feed(c, x'), y')
    ensures Crc(0, head + a + tail) != Crc(0, head + b + tail)
  {
    var c := Crc(0, head);
    CrcAppend(0, head, a);
    CrcAppend(0, head, b);
    CrcAppend(0, head + a, tail);
    CrcAppend(0, head + b, tail);
    TwoBytes(c, x, y);
    TwoBytes(c, x', y');
    TailKeepsDifference(Crc(c, a), Crc(c, b), tail);
  }

  // ------------------------------------------------------------------ CRC-16

  /** Exclusive or, kept folded so that the algebra below does not go down to single bits. */
  function Xor0(level: nat, x: bv16, y: bv16): bv16 { if level == 0 then x ^ y else Xor0(level - 1, x, y) }

  function Xor(x: bv16, y: bv16): bv16 { Xor0(2, x, y) }

  lemma {:induction false} XorIs(x: bv16, y: bv16)
    ensures Xor(x, y) == x ^ y
  {
    assert Xor0(1, x, y) == Xor0(0, x, y);
  }

  /** One shift of the 16-bit register with polynomial 0xA001. */
  function Shift16(x: bv16): bv16 { if x & 1 == 1 then Xor(x >> 1, 0xa001) else x >> 1 }

  function Shifts16(x: bv16, k: nat): bv16 { if k == 0 then x else Shift16(Shifts16(x, k - 1)) }

  function Byte16(x: bv16): bv16 { Shifts16(x, 8) }

  lemma {:induction false} HalfXor(x: bv16, y: bv16)
    ensures Xor(x, y) >> 1 == Xor(x >> 1, y >> 1)
  {
    XorIs(x, y);
    XorIs(x >> 1, y >> 1);
  }

  lemma {:induction false} LowXor(x: bv16, y: bv16)
    ensures Xor(x, y) & 1 == 1 <==> (x & 1 == 1) != (y & 1 == 1)
  {
    XorIs(x, y);
  }

  lemma {:induction false} XorBoth(a: bv16, b: bv16, k: bv16)
    ensures Xor(Xor(a, k), Xor(b, k)) == Xor(a, b)
  {
    XorOne(a, Xor(b, k), k);
    XorCommutes16(a, Xor(b, k));
    XorOne(b, a, k);
    XorCommutes16(a, b);
    XorTwice(Xor(a, b), k);
  }

  lemma {:induction false} XorTwice(a: bv16, k: bv16)
    ensures Xor(Xor(a, k), k) == a
  {
    XorIs(a, k);
    XorIs(Xor(a, k), k);
  }

  lemma {:induction false} XorOne(a: bv16, b: bv16, k: bv16)
    ensures Xor(Xor(a, k), b) == Xor(Xor(a, b), k)
  {
    XorIs(a, k);
    XorIs(Xor(a, k), b);
    XorIs(a, b);
    XorIs(Xor(a, b), k);
  }

  lemma {:induction false} XorCommutes16(a: bv16, b: bv16)
    ensures Xor(a, b) == Xor(b, a)
  {
    XorIs(a, b);
    XorIs(b, a);
  }

  lemma {:induction false} ShiftLinear16(x: bv16, y: bv16)
    ensures Shift16(Xor(x, y)) == Xor(Shift16(x), Shift16(y))
  {
    HalfXor(x, y);
    LowXor(x, y);
    XorBoth(x >> 1, y >> 1, 0xa001);
    XorOne(x >> 1, y >> 1, 0xa001);
    XorOne(y >> 1, x >> 1, 0xa001);
    XorCommutes16(x >> 1, y >> 1);
    XorCommutes16(x >> 1, Xor(y >> 1, 0xa001));
  }

  lemma {:induction false} ShiftsLinear16(x: bv16, y: bv16, k: nat)
    ensures Shifts16(Xor(x, y), k) == Xor(Shifts16(x, k), Shifts16(y, k))
  {
    if k > 0 {
      ShiftsLinear16(x, y, k - 1);
      ShiftLinear16(Shifts16(x, k - 1), Shifts16(y, k - 1));
    }
  }

  function Raw16(x: bv16): bv16 { if x & 1 == 1 then (x >> 1) ^ 0xa001 else x >> 1 }

  function Unrolled16(x: bv16): bv16 { Raw16(Raw16(Raw16(Raw16(Raw16(Raw16(Raw16(Raw16(x)))))))) }

  lemma {:induction false} ByteIs16(x: bv16)
    ensures Byte16(x) == Unrolled16(x)
  {
    var x1 := Next16(x, x, 0);
    var x2 := Next16(x, x1, 1);
    var x3 := Next16(x, x2, 2);
    var x4 := Next16(x, x3, 3);
    var x5 := Next16(x, x4, 4);
    var x6 := Next16(x, x5, 5);
    var x7 := Next16(x, x6, 6);
    var x8 := Next16(x, x7, 7);
  }

  lemma {:induction false} Next16(x: bv16, y: bv16, k: nat) returns (z: bv16)
    requires y == Shifts16(x, k)
    ensures z == Raw16(y) == Shifts16(x, k + 1)
  {
    ShiftRaw(y);
    assert Shifts16(x, k + 1) == Shift16(y);
    z := Raw16(y);
  }

  lemma {:induction false} ShiftRaw(y: bv16)
    ensures Shift16(y) == Raw16(y)
  {
    XorIs(y >> 1, 0xa001);
  }

  /** One byte of input, again kept folded for the proofs about strings. */
  function WideFeed0(level: nat, crc: bv16, b: bv8): bv16 {
    if level == 0 then Byte16(Xor(crc, b as bv16)) else WideFeed0(level - 1, crc, b)
  }

  function Feed16(crc: bv16, b: bv8): bv16 { WideFeed0(2, crc, b) }

  lemma {:induction false} FeedIs16(crc: bv16, b: bv8)
    ensures Feed16(crc, b) == Byte16(Xor(crc, b as bv16))
  {
    assert WideFeed0(1, crc, b) == WideFeed0(0, crc, b);
  }

  function Crc16(crc: bv16, data: seq<bv8>): bv16
    decreases |data|
  {
    if data == [] then crc else Feed16(Crc16(crc, data[..|data| - 1]), data[|data| - 1])
  }

  /** oddparity[]: the parity of a nibble. */
  function OddParity(n: bv16): bv16 {
    if n == 1 || n == 2 || n == 4 || n == 7 || n == 8 || n == 11 || n == 13 || n == 14 then 1 else 0
  }

  predicate Odd0(level: nat, cdata: bv16) {
    if level > 0 then Odd0(level - 1, cdata) else OddParity(cdata & 0x0f) ^ OddParity(cdata >> 4) != 0
  }

  predicate Odd(cdata: bv16) { Odd0(2, cdata) }

  lemma {:induction false} OddIs(cdata: bv16)
    ensures Odd(cdata) <==> OddParity(cdata & 0x0f) ^ OddParity(cdata >> 4) != 0
  {
    assert Odd0(1, cdata) == Odd0(0, cdata);
  }

  /** The upper half of the register, with the parity and two shifted copies of the byte mixed in. */
  function Mixed16(high: bv16, cdata: bv16): bv16 {
    Xor(Xor(if Odd(cdata) then Xor(high, 0xc001) else high, cdata << 6), cdata << 6 << 1)
  }

  /** One round of onewire_crc16. */
  function Round16(crc: bv16, input: bv16): bv16 { Mixed16(crc >> 8, Xor(input, crc) & 0xff) }

  function LowTerm(x: bv16): bv16 { Xor(Xor(if Odd(x) then 0xc001 else 0, x << 6), x << 6 << 1) }

  function RawLow(x: bv16): bv16 {
    (if OddParity(x & 0x0f) ^ OddParity(x >> 4) != 0 then 0xc001 else 0) ^ (x << 6) ^ (x << 6 << 1)
  }

  lemma {:induction false} LowIs(x: bv16)
    ensures LowTerm(x) == RawLow(x)
  {
    OddIs(x);
    XorIs(if Odd(x) then 0xc001 else 0, x << 6);
    XorIs(Xor(if Odd(x) then 0xc001 else 0, x << 6), x << 6 << 1);
  }

  lemma {:induction false} LowByteUnrolled(x: bv16)
    requires x <= 0xff
    ensures RawLow(x) == Unrolled16(x)
  {
  }

  /** The parity trick on one byte is eight shifts at once. */
  lemma {:induction false} LowByte(x: bv16)
    requires x <= 0xff
    ensures LowTerm(x) == Byte16(x)
  {
    LowIs(x);
    LowByteUnrolled(x);
    ByteIs16(x);
  }

  lemma {:induction false} HighByteUnrolled(x: bv16)
    requires x & 0xff == 0
    ensures Unrolled16(x) == x >> 8
  {
  }

  /** Eight shifts of a register whose low byte is clear only move it down. */
  lemma {:induction false} HighByte(x: bv16)
    requires x & 0xff == 0
    ensures Byte16(x) == x >> 8
  {
    HighByteUnrolled(x);
    ByteIs16(x);
  }

  lemma {:induction false} Halve(x: bv16)
    ensures x == Xor(x & 0xff, x & 0xff00)
  {
    XorIs(x & 0xff, x & 0xff00);
  }

  lemma {:induction false} LowHalf(x: bv16)
    ensures x & 0xff <= 0xff
  {
  }

  lemma {:induction false} HighHalf(x: bv16)
    ensures (x & 0xff00) & 0xff == 0
  {
  }

  /** A byte mixed in leaves the upper half of the register alone. */
  lemma {:induction false} UpperHalf(crc: bv16, input: bv16)
    requires input <= 0xff
    ensures (Xor(crc, input) & 0xff00) >> 8 == crc >> 8
  {
    XorIs(crc, input);
  }

  lemma {:induction false} XorNothing(a: bv16)
    ensures Xor(0, a) == a
  {
    XorIs(0, a);
  }

  lemma {:induction false} MixedParts(high: bv16, cdata: bv16)
    ensures Mixed16(high, cdata) == Xor(LowTerm(cdata), high)
  {
    var s, t, k: bv16 := cdata << 6, cdata << 6 << 1, 0xc001;
    if Odd(cdata) {
      XorCommutes16(high, k);
      XorOne(k, s, high);
      XorOne(Xor(k, s), t, high);
    } else {
      XorNothing(s);
      XorCommutes16(high, s);
      XorOne(s, t, high);
    }
  }

  lemma {:induction false} SplitShifts(z: bv16, lo: bv16, hi: bv16, p: bv16, q: bv16)
    requires z == Xor(lo, hi) && Byte16(lo) == p && Byte16(hi) == q
    ensures Byte16(z) == Xor(p, q)
  {
    ShiftsLinear16(lo, hi, 8);
  }

  lemma {:induction false} RoundForm(crc: bv16, input: bv16)
    requires input <= 0xff
    ensures var z := Xor(crc, input); Round16(crc, input) == Xor(LowTerm(z & 0xff), (z & 0xff00) >> 8)
  {
    XorCommutes16(crc, input);
    UpperHalf(crc, input);
    MixedParts(crc >> 8, Xor(crc, input) & 0xff);
  }

  lemma {:induction false} Combine(z: bv16, lo: bv16, hi: bv16)
    requires lo <= 0xff && hi & 0xff == 0 && z == Xor(lo, hi)
    ensures Byte16(z) == Xor(LowTerm(lo), hi >> 8)
  {
    LowByte(lo);
    HighByte(hi);
    SplitShifts(z, lo, hi, LowTerm(lo), hi >> 8);
  }

  /** One round is eight shifts of the register with the byte mixed in. */
  lemma {:induction false} RoundIs(crc: bv16, input: bv16)
    requires input <= 0xff
    ensures Round16(crc, input) == Byte16(Xor(crc, input))
  {
    var z := Xor(crc, input);
    LowHalf(z);
    HighHalf(z);
    Halve(z);
    RoundForm(crc, input);
    Combine(z, z & 0xff, z & 0xff00);
  }

  /** onewire_crc16. The loop counter has 16 bits, so longer strings never end. */
  method ParityCrc16(input: seq<bv8>, iv: bv16) returns (crc: bv16)
    requires |input| <= 0xffff
    ensures crc == Crc16(iv, input)
  {
    crc := iv;
    var i := 0;
    while i < |input|
      invariant 0 <= i <= |input| && crc == Crc16(iv, input[..i])
    {
      crc := MixByte16(crc, input[i]);
      assert input[..i + 1][..i] == input[..i];
      i := i + 1;
    }
    assert input[..i] == input;
  }

  method MixByte16(crc: bv16, input: bv8) returns (r: bv16)
    ensures r == Feed16(crc, input)
  {
    Widened(input);
    FeedIs16(crc, input);
    RoundIs(crc, input as bv16);
    r := RoundCode(crc, input as bv16);
  }

  /** The body of the loop. */
  method RoundCode(crc: bv16, input: bv16) returns (r: bv16)
    ensures r == Round16(crc, input)
  {
    r := MixIn(crc >> 8, Xor(input, crc) & 0xff);
  }

  /** Its second half: the parity, and two shifted copies of the byte. */
  method MixIn(crc: bv16, byte: bv16) returns (r: bv16)
    ensures r == Mixed16(crc, byte)
  {
    r := if Odd(byte) then Xor(crc, 0xc001) else crc;
    var cdata := byte << 6;
    r := Xor(r, cdata);
    cdata := cdata << 1;
    r := Xor(r, cdata);
  }

  lemma {:induction false} Widened(b: bv8)
    ensures b as bv16 <= 0xff
  {
  }

  function Joined0(level: nat, lo: bv16, hi: bv16): bv16 {
    if level > 0 then Joined0(level - 1, lo, hi) else lo | (hi << 8)
  }

  function Joined(lo: bv16, hi: bv16): bv16 { Joined0(2, lo, hi) }

  /** Two received bytes, low byte first. */
  function Word(lo: bv8, hi: bv8): bv16 { Joined(lo as bv16, hi as bv16) }

  lemma {:induction false} JoinedIs(lo: bv16, hi: bv16)
    ensures Joined(lo, hi) == lo | (hi << 8)
  {
    assert Joined0(1, lo, hi) == Joined0(0, lo, hi);
  }

  lemma {:induction false} JoinedLow(lo: bv16, hi: bv16)
    requires lo <= 0xff
    ensures Joined(lo, hi) & 0xff == lo
  {
    JoinedIs(lo, hi);
  }

  lemma {:induction false} JoinedHigh(lo: bv16, hi: bv16)
    requires lo <= 0xff && hi <= 0xff
    ensures Joined(lo, hi) >> 8 == hi
  {
    JoinedIs(lo, hi);
  }

  lemma {:induction false} JoinedWhole(c: bv16)
    ensures Joined(c & 0xff, c >> 8) == c
  {
    JoinedIs(c & 0xff, c >> 8);
  }

  lemma {:induction false} PartsJoined(c: bv16, lo: bv16, hi: bv16)
    requires lo <= 0xff && hi <= 0xff
    ensures c & 0xff == lo && c >> 8 == hi <==> Joined(lo, hi) == c
  {
    JoinedLow(lo, hi);
    JoinedHigh(lo, hi);
    JoinedWhole(c);
  }

  method SameWord(crc: bv16, lo: bv8, hi: bv8) returns (ok: bool)
    ensures ok <==> Word(lo, hi) == crc
  {
    var l, h := lo as bv16, hi as bv16;
    Widened(lo);
    Widened(hi);
    PartsJoined(crc, l, h);
    ok := crc & 0xff == l && crc >> 8 == h;
  }

  /** onewire_check_crc16: accepts exactly the inverted CRC, low byte first. */
  method CheckCrc16(input: seq<bv8>, inverted: seq<bv8>, iv: bv16) returns (ok: bool)
    requires |input| <= 0xffff && |inverted| == 2
    ensures ok <==> Word(inverted[0], inverted[1]) == !Crc16(iv, input)
  {
    var crc := ParityCrc16(input, iv);
    ok := SameWord(!crc, inverted[0], inverted[1]);
  }
}
