/** ROM images in flash: the check made after an update, the check made at boot, and the loader. */
module RomImage {
  import opened Flash

  const WORD32: nat := 0x1_0000_0000
  const MAX_IMAGE: nat := 0x100000
  const MAGIC: bv8 := 0xe9
  const MAGIC_NEW: bv8 := 0xea
  const MAGIC_NEW2: bv8 := 4
  const CHKSUM_INIT: bv8 := 0xef
  const BLOCK: nat := 256

  function Byte0(level: nat, b: bv8): (r: nat)
    ensures r < 256
  {
    if level > 0 then Byte0(level - 1, b) else b as nat
  }

  function Byte(b: bv8): nat {
    Byte0(2, b)
  }

  function Word0(level: nat, f: Image, a: nat): (r: nat)
    requires a + 4 <= |f|
    ensures r < WORD32
  {
    if level > 0 then Word0(level - 1, f, a)
    else Byte(f[a]) + 0x100 * Byte(f[a + 1]) + 0x1_0000 * Byte(f[a + 2]) + 0x100_0000 * Byte(f[a + 3])
  }

  /** A little-endian word. */
  function Word(f: Image, a: nat): nat
    requires a + 4 <= |f|
  {
    Word0(2, f, a)
  }

  function RoundUp0(level: nat, e: nat): (r: nat)
    ensures e <= r < e + 16
  {
    if level > 0 then RoundUp0(level - 1, e) else (e + 15) / 16 * 16
  }

  /** The end of the 16-byte line. */
  function RoundUp16(e: nat): nat {
    RoundUp0(2, e)
  }

  /** The last byte of the 16-byte line that `e` is in. */
  function LineEnd(e: nat): nat {
    RoundUp16(e + 1) - 1
  }

  lemma {:induction false} RoundsUp(e: nat)
    ensures RoundUp16(e) % 16 == 0 && RoundUp16(e) % 4 == 0 && (e % 16 == 0 ==> RoundUp16(e) == e)
  {
    assert RoundUp0(1, e) == RoundUp0(0, e);
  }

  function RoundWord0(level: nat, e: nat): (r: nat)
    ensures e <= r < e + 4
  {
    if level > 0 then RoundWord0(level - 1, e) else (e + 3) / 4 * 4
  }

  /** The end of the word. */
  function RoundUp4(e: nat): nat {
    RoundWord0(2, e)
  }

  lemma {:induction false} RoundsUp4(e: nat)
    ensures RoundUp4(e) % 4 == 0 && (e % 4 == 0 ==> RoundUp4(e) == e)
  {
    assert RoundWord0(1, e) == RoundWord0(0, e);
  }

  function Wrap0(level: nat, x: nat): (r: nat)
    ensures r < WORD32
  {
    if level > 0 then Wrap0(level - 1, x) else x % WORD32
  }

  /** 32-bit arithmetic. */
  function Wrap(x: nat): nat {
    Wrap0(2, x)
  }

  lemma {:induction false} WrapIs(x: nat)
    ensures x < WORD32 ==> Wrap(x) == x
    ensures x % 4 == 0 ==> Wrap(x) % 4 == 0
  {
    assert Wrap0(1, x) == Wrap0(0, x);
  }

  function Mix0(level: nat, sum: bv8, b: bv8): bv8 {
    if level > 0 then Mix0(level - 1, sum, b) else sum ^ b
  }

  /** One step of the checksum: exclusive or. */
  function Mix(sum: bv8, b: bv8): bv8 {
    Mix0(2, sum, b)
  }

  /** Exclusive or of a running checksum with every byte. */
  function Xor(sum: bv8, s: Image): bv8 {
    if s == [] then sum else Mix(Xor(sum, s[..|s| - 1]), s[|s| - 1])
  }

  lemma {:induction false} XorCat(sum: bv8, a: Image, b: Image)
    ensures Xor(sum, a + b) == Xor(Xor(sum, a), b)
  {
    if b == [] {
      assert a + b == a;
    } else {
      assert (a + b)[..|a + b| - 1] == a + b[..|b| - 1];
      XorCat(sum, a, b[..|b| - 1]);
    }
  }

  /** A section: where it goes, where its bytes are in flash, and how many. */
  datatype Section = Section(address: nat, start: nat, len: nat)

  /** `Unchecked`: the answer depends on bytes outside the flash. */
  datatype Walk = Rejected | Unchecked | Parsed(sections: seq<Section>, end: nat)

  predicate Inside(f: Image, ss: seq<Section>) {
    forall k :: 0 <= k < |ss| ==> ss[k].start + ss[k].len <= |f|
  }

  function Bytes(f: Image, s: Section): Image
    requires s.start + s.len <= |f|
  {
    f[s.start..s.start + s.len]
  }

  /** The bytes of all sections, in order. */
  function Payload(f: Image, ss: seq<Section>): Image
    requires Inside(f, ss)
  {
    if ss == [] then [] else Payload(f, ss[..|ss| - 1]) + Bytes(f, ss[|ss| - 1])
  }

  function Prepend(s: Section, w: Walk): Walk {
    if w.Parsed? then Parsed([s] + w.sections, w.end) else w
  }

  /** The `count` sections from `pos` on, all inside the flash. */
  function Sections(f: Image, pos: nat, count: nat): (w: Walk)
    ensures !w.Unchecked? && (w.Parsed? ==> Inside(f, w.sections) && |w.sections| == count)
    decreases count
  {
    if count == 0 then Parsed([], pos)
    else if pos + 8 > |f| || pos + 8 + Word(f, pos + 4) > |f| then Rejected
    else
      var len := Word(f, pos + 4);
      Prepend(Section(Word(f, pos), pos + 8, len), Sections(f, pos + 8 + len, count - 1))
  }

  /** Whether a walk ended well and the byte at the end of its last line is the checksum. */
  predicate Sound(f: Image, w: Walk)
    requires w.Parsed? ==> Inside(f, w.sections)
  {
    w.Parsed? && LineEnd(w.end) < |f| && f[LineEnd(w.end)] == Xor(CHKSUM_INIT, Payload(f, w.sections))
  }

  /** Where the header that is followed by the checksummed sections is. */
  function Start(f: Image, p: nat): nat
    requires p + 16 <= |f|
  {
    if f[p] == MAGIC then p else Wrap(p + Word(f, p + 12) + 16)
  }

  /** The sections that are loaded. */
  function BootSections(f: Image, s: nat): (w: Walk)
    ensures !w.Unchecked? && (w.Parsed? ==> Inside(f, w.sections))
  {
    if s + 8 <= |f| then Sections(f, s + 8, Byte(f[s + 1])) else Rejected
  }

  /** What the boot loader asks of a slot. */
  predicate Bootable(f: Image, p: nat) {
    && p != 0 && p != 0xffff_ffff && p + 16 <= |f|
    && (f[p] == MAGIC || (f[p] == MAGIC_NEW && f[p + 1] == MAGIC_NEW2))
    && Start(f, p) != 0 && Sound(f, BootSections(f, Start(f, p)))
  }

  /** The innermost loop of check_image. */
  method SumBlock(sum: bv8, buffer: Image) returns (r: bv8)
    ensures r == Xor(sum, buffer)
  {
    r := sum;
    var i := 0;
    while i < |buffer|
      invariant i <= |buffer| && r == Xor(sum, buffer[..i])
    {
      assert buffer[..i + 1][..i] == buffer[..i];
      r := Mix(r, buffer[i]);
      i := i + 1;
    }
    assert buffer[..i] == buffer;
  }

  /** The block loop of check_image. */
  method SumSection(f: Image, start: nat, len: nat, sum: bv8) returns (ok: bool, pos: nat, r: bv8)
    requires start <= |f|
    ensures ok == (start + len <= |f|)
    ensures ok ==> pos == start + len && r == Xor(sum, f[start..start + len])
  {
    pos, r, ok := start, sum, true;
    var remaining: nat := len;
    while remaining > 0
      invariant pos + remaining == start + len && start <= pos <= |f|
      invariant r == Xor(sum, f[start..pos])
    {
      var readlen := if remaining < BLOCK then remaining else BLOCK;
      if pos + readlen > |f| {
        ok := false;
        return;
      }
      XorCat(sum, f[start..pos], f[pos..pos + readlen]);
      assert f[start..pos] + f[pos..pos + readlen] == f[start..pos + readlen];
      r := SumBlock(r, f[pos..pos + readlen]);
      pos := pos + readlen;
      remaining := remaining - readlen;
    }
  }

  function Append(done: seq<Section>, w: Walk): Walk {
    if w.Parsed? then Parsed(done + w.sections, w.end) else w
  }

  function HeaderAt(f: Image, pos: nat): Section
    requires pos + 8 <= |f|
  {
    Section(Word(f, pos), pos + 8, Word(f, pos + 4))
  }

  lemma {:induction false} AppendNone(done: seq<Section>, w: Walk, e: nat)
    ensures Append([], w) == w && Append(done, Parsed([], e)) == Parsed(done, e)
  {
    if w.Parsed? {
      assert [] + w.sections == w.sections;
    }
    assert done + [] == done;
  }

  lemma {:induction false} PayloadNext(f: Image, done: seq<Section>, s: Section, sum: bv8)
    requires Inside(f, done) && s.start + s.len <= |f|
    ensures Inside(f, done + [s]) && Payload(f, done + [s]) == Payload(f, done) + Bytes(f, s)
    ensures Xor(sum, Payload(f, done + [s])) == Xor(Xor(sum, Payload(f, done)), Bytes(f, s))
  {
    assert (done + [s])[..|done|] == done;
    XorCat(sum, Payload(f, done), Bytes(f, s));
  }

  ghost predicate Reached0(level: nat, f: Image, w: Walk, rest: Walk, sum: bv8) {
    if level > 0 then Reached0(level - 1, f, w, rest, sum)
    else w.Unchecked? || exists done {:trigger Append(done, rest)} ::
           Inside(f, done) && w == Append(done, rest) && sum == Xor(CHKSUM_INIT, Payload(f, done))
  }

  /** How far a walk has come: `rest` of it is ahead, and `sum` is the checksum so far. */
  ghost predicate Reached(f: Image, w: Walk, rest: Walk, sum: bv8) { Reached0(2, f, w, rest, sum) }

  lemma {:induction false} ReachedFirst(f: Image, w: Walk)
    ensures Reached(f, w, w, CHKSUM_INIT)
  {
    AppendNone([], w, 0);
    assert Payload(f, []) == [];
    ReachedBy(f, w, w, [], CHKSUM_INIT);
  }

  lemma {:induction false} ReachedLast(f: Image, w: Walk, rest: Walk, sum: bv8)
    requires Reached(f, w, rest, sum) && (w.Parsed? ==> Inside(f, w.sections))
    ensures !rest.Parsed? ==> w.Unchecked? || w == rest
    ensures rest.Parsed? && rest.sections == [] ==>
              w.Unchecked? || (w.Parsed? && w.end == rest.end && sum == Xor(CHKSUM_INIT, Payload(f, w.sections)))
  {
    if !w.Unchecked? {
      var done := ReachedHow(f, w, rest, sum);
      if rest.Parsed? {
        AppendNone(done, w, rest.end);
      }
    }
  }

  lemma {:induction false} AppendPrepend(done: seq<Section>, s: Section, rest: Walk)
    ensures Append(done, Prepend(s, rest)) == Append(done + [s], rest)
  {
    if rest.Parsed? {
      assert done + ([s] + rest.sections) == done + [s] + rest.sections;
    }
  }

  lemma {:induction false} ReachedBy(f: Image, w: Walk, rest: Walk, done: seq<Section>, sum: bv8)
    requires Inside(f, done) && w == Append(done, rest) && sum == Xor(CHKSUM_INIT, Payload(f, done))
    ensures Reached(f, w, rest, sum)
  {
    assert Reached0(1, f, w, rest, sum) == Reached0(0, f, w, rest, sum);
  }

  lemma {:induction false} ReachedAny(f: Image, w: Walk, rest: Walk, sum: bv8)
    requires w.Unchecked?
    ensures Reached(f, w, rest, sum)
  {
    assert Reached0(1, f, w, rest, sum) == Reached0(0, f, w, rest, sum);
  }

  lemma {:induction false} ReachedHow(f: Image, w: Walk, rest: Walk, sum: bv8) returns (done: seq<Section>)
    requires Reached(f, w, rest, sum) && !w.Unchecked?
    ensures Inside(f, done) && w == Append(done, rest) && sum == Xor(CHKSUM_INIT, Payload(f, done))
  {
    assert Reached0(1, f, w, rest, sum) == Reached0(0, f, w, rest, sum);
    done :| Inside(f, done) && w == Append(done, rest) && sum == Xor(CHKSUM_INIT, Payload(f, done));
  }

  lemma {:induction false} ReachedNext(f: Image, w: Walk, s: Section, rest: Walk, sum: bv8)
    requires Reached(f, w, Prepend(s, rest), sum) && s.start + s.len <= |f|
    ensures Reached(f, w, rest, Xor(sum, Bytes(f, s)))
  {
    if w.Unchecked? {
      ReachedAny(f, w, rest, Xor(sum, Bytes(f, s)));
    } else {
      var done := ReachedHow(f, w, Prepend(s, rest), sum);
      PayloadNext(f, done, s, CHKSUM_INIT);
      AppendPrepend(done, s, rest);
      ReachedBy(f, w, rest, done + [s], Xor(sum, Bytes(f, s)));
    }
  }

  /** The section loop of check_image. */
  method CheckSections(f: Image, start: nat, count: nat) returns (ok: bool, pos: nat, sum: bv8)
    ensures ok == Sections(f, start, count).Parsed?
    ensures ok ==> var w := Sections(f, start, count); pos == w.end && sum == Xor(CHKSUM_INIT, Payload(f, w.sections))
  {
    ok, pos, sum := true, start, CHKSUM_INIT;
    ghost var w := Sections(f, start, count);
    ReachedFirst(f, w);
    var current := 0;
    while current < count
      invariant current <= count && ok && Reached(f, w, Sections(f, pos, count - current), sum)
    {
      SectionsNext(f, pos, count - current);
      ReachedLast(f, w, Sections(f, pos, count - current), sum);
      if pos + 8 > |f| {
        return false, pos, sum;
      }
      ghost var s, before := HeaderAt(f, pos), sum;
      ok, pos, sum := SumSection(f, pos + 8, Word(f, pos + 4), sum);
      if !ok {
        return;
      }
      ReachedNext(f, w, s, Sections(f, pos, count - current - 1), before);
      current := current + 1;
    }
    ReachedLast(f, w, Sections(f, pos, 0), sum);
  }

  lemma {:induction false} SectionsNext(f: Image, pos: nat, count: nat)
    requires 0 < count
    ensures var w := Sections(f, pos, count);
            if pos + 8 > |f| || pos + 8 + Word(f, pos + 4) > |f| then w == Rejected
            else w == Prepend(HeaderAt(f, pos), Sections(f, pos + 8 + Word(f, pos + 4), count - 1))
  {
  }

  /** check_image from the header of the checksummed sections on. */
  method CheckFrom(f: Image, address: nat) returns (ok: bool)
    ensures ok == Sound(f, BootSections(f, address))
  {
    if address + 8 > |f| {
      return false;
    }
    var pos, sum;
    ok, pos, sum := CheckSections(f, address + 8, Byte(f[address + 1]));
    if ok {
      ok := LineEnd(pos) < |f| && f[LineEnd(pos)] == sum;
    }
  }

  /** check_image. */
  method CheckImage(f: Image, p: nat) returns (address: nat)
    requires p < WORD32
    ensures address == if Bootable(f, p) then Start(f, p) else 0
  {
    if p == 0 || p == 0xffff_ffff || p + 16 > |f| {
      return 0;
    }
    if f[p] != MAGIC && !(f[p] == MAGIC_NEW && f[p + 1] == MAGIC_NEW2) {
      return 0;
    }
    address := if f[p] == MAGIC then p else Wrap(p + Word(f, p + 12) + 16);
    var ok := CheckFrom(f, address);
    if !ok {
      return 0;
    }
  }
}
