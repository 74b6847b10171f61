/** rboot_verify_image, the check an update makes of the image it has just stored. It takes several
    flash reads on trust; the walk says `Unchecked` where such a read falls outside the flash. */
module RomVerify {
  import opened Flash
  import opened RomImage

  /** The `count` sections from `pos` on, ending by `limit`. Section bytes are read sixteen at a time. */
  function VerifyWalk(f: Image, pos: nat, count: nat, limit: nat): (w: Walk)
    ensures w.Parsed? ==> Inside(f, w.sections) && |w.sections| == count
    decreases count
  {
    if count == 0 then Parsed([], pos)
    else if pos >= limit || pos + 8 > |f| then Rejected
    else
      var len := Word(f, pos + 4);
      if pos + 8 + len >= WORD32 then Unchecked
      else if pos + 8 + len > limit || len % 4 != 0 then Rejected
      else if pos + 8 + RoundUp16(len) > |f| then Unchecked
      else Prepend(HeaderAt(f, pos), VerifyWalk(f, pos + 8 + len, count - 1, limit))
  }

  function Summed(f: Image, w: Walk): (r: Walk)
    requires w.Parsed? ==> Inside(f, w.sections)
    ensures r.Parsed? ==> w.Parsed? && r == w
  {
    if w.Parsed? && LineEnd(w.end) >= |f| then Unchecked
    else if Sound(f, w) then w
    else if w.Unchecked? then Unchecked else Rejected
  }

  /** The header of the checksummed sections of an image that begins with an irom section. */
  function AfterIrom(p: nat, len: nat): nat {
    RoundUp16(p + 16 + len)
  }

  /** Where the irom section of an image at `p` leads: to a header, to a refusal, or outside the flash. */
  datatype Skip = Refused | Outside | To(header: nat)

  function IromSkip(f: Image, p: nat): (r: Skip)
    ensures r.To? ==> r.header + 8 <= |f|
  {
    if p + 16 > |f| then Refused
    else
      var len := Word(f, p + 12);
      if p + 16 + len >= WORD32 then Outside
      else if p + 16 + len > p + MAX_IMAGE || len % 4 != 0 then Refused
      else if AfterIrom(p, len) + 8 > |f| then Outside
      else if f[AfterIrom(p, len)] != MAGIC then Refused
      else To(AfterIrom(p, len))
  }

  /** What the check makes of the image at `p`. */
  function Verdict(f: Image, p: nat): (r: Walk)
    ensures r.Parsed? ==> Inside(f, r.sections)
  {
    if p % 4 != 0 || p + 8 > |f| then Rejected
    else if f[p] == MAGIC then Summed(f, VerifyWalk(f, p + 8, Byte(f[p + 1]), p + MAX_IMAGE))
    else if f[p] != MAGIC_NEW then Rejected
    else if Byte(f[p + 1]) == 0 then Summed(f, Parsed([], p + 8))
    else
      match IromSkip(f, p)
      case Refused => Rejected
      case Outside => Unchecked
      case To(s) => Summed(f, VerifyWalk(f, s + 8, Byte(f[s + 1]), p + MAX_IMAGE))
  }

  /** A read of sixteen bytes; one that fails leaves the chunk as it was. */
  function Fetch(f: Image, a: nat, chunk: Image): (r: Image)
    requires |chunk| == 16
    ensures |r| == 16 && (a + 16 <= |f| ==> forall k :: 0 <= k < 16 ==> r[k] == f[a + k])
  {
    if a + 16 <= |f| then f[a..a + 16] else chunk
  }

  lemma {:induction false} XorNext(f: Image, sum: bv8, lo: nat, hi: nat)
    requires lo <= hi < |f|
    ensures Xor(sum, f[lo..hi + 1]) == Mix(Xor(sum, f[lo..hi]), f[hi])
  {
    assert f[lo..hi + 1][..hi - lo] == f[lo..hi];
  }

  /** The checksum loop, which fetches a fresh chunk every sixteen bytes. */
  method SumChunks(f: Image, offset: nat, len: nat, sum: bv8, stale: Image) returns (r: bv8)
    requires |stale| == 16 && |f| < WORD32
    ensures offset + RoundUp16(len) <= |f| ==> r == Xor(sum, f[offset..offset + len])
  {
    r := sum;
    var chunk := stale;
    var i := 0;
    ghost var c := 0;
    while i < len
      invariant i <= len && |chunk| == 16
      invariant i % 16 != 0 ==> i == c + i % 16
      invariant i % 16 != 0 && offset + c + 16 <= |f| ==> forall k :: 0 <= k < 16 ==> chunk[k] == f[offset + c + k]
      invariant offset + RoundUp16(len) <= |f| ==> r == Xor(sum, f[offset..offset + i])
    {
      if i % 16 == 0 {
        WrapIs(offset + i);
        chunk := Fetch(f, Wrap(offset + i), chunk);
        c := i;
      }
      if offset + RoundUp16(len) <= |f| {
        InChunk(c, i, len);
        assert chunk[i % 16] == f[offset + c + i % 16];
        XorNext(f, sum, offset, offset + i);
      }
      r := Mix(r, chunk[i % 16]);
      i := i + 1;
    }
  }

  lemma {:induction false} InChunk(c: nat, i: nat, len: nat)
    requires i == c + i % 16 && i < len
    ensures c + 16 <= RoundUp16(len)
  {
    RoundsUp(len);
  }

  /** What the next section header decides. */
  lemma {:induction false} WalkNext(f: Image, pos: nat, count: nat, limit: nat)
    requires 0 < count
    ensures var w := VerifyWalk(f, pos, count, limit);
            if pos >= limit || pos + 8 > |f| then w == Rejected
            else
              var len := Word(f, pos + 4);
              if pos + 8 + len >= WORD32 then w == Unchecked
              else if pos + 8 + len > limit || len % 4 != 0 then w == Rejected
              else if pos + 8 + RoundUp16(len) > |f| then w == Unchecked
              else w == Prepend(HeaderAt(f, pos), VerifyWalk(f, pos + 8 + len, count - 1, limit))
  {
  }

  lemma {:induction false} Aligned(a: nat, b: nat)
    requires a % 4 == 0 && b % 4 == 0
    ensures (a + b) % 4 == 0
  {
  }

  lemma {:induction false} SectionEnd(x: nat)
    ensures var next := Wrap(RoundUp4(Wrap(x)));
            next % 4 == 0 && (x % 4 == 0 && x < WORD32 ==> next == x)
  {
    var y := Wrap(x);
    var z := RoundUp4(y);
    WrapIs(x);
    RoundsUp4(y);
    WrapIs(z);
  }

  /** One section: the sum over its bytes and the offset after it, rounded up to a word. */
  method VerifySection(f: Image, offset: nat, len: nat, sum: bv8, stale: Image) returns (next: nat, r: bv8)
    requires |stale| == 16 && |f| < WORD32
    ensures next < WORD32 && next % 4 == 0
    ensures offset % 4 == 0 && len % 4 == 0 && offset + RoundUp16(len) <= |f| ==>
              next == offset + len && r == Xor(sum, f[offset..offset + len])
  {
    r := SumChunks(f, offset, len, sum, stale);
    SectionEnd(offset + len);
    if offset % 4 == 0 && len % 4 == 0 {
      Aligned(offset, len);
    }
    next := Wrap(RoundUp4(Wrap(offset + len)));
  }

  /** What one pass of the section loop may conclude. */
  lemma {:induction false} PassMeans(f: Image, w: Walk, pos: nat, count: nat, limit: nat, sum: bv8)
    requires 0 < count && pos < limit && Reached(f, w, VerifyWalk(f, pos, count, limit), sum)
    requires (w.Parsed? ==> Inside(f, w.sections))
    ensures pos + 8 > |f| ==> !w.Parsed?
    ensures pos + 8 <= |f| ==>
              var len := Word(f, pos + 4);
              if Wrap(pos + 8 + len) > limit || len % 4 != 0 then !w.Parsed?
              else w.Unchecked? || (pos + 8 + RoundUp16(len) <= |f|
                                    && Reached(f, w, VerifyWalk(f, pos + 8 + len, count - 1, limit),
                                        Xor(sum, f[pos + 8..pos + 8 + len])))
  {
    WalkNext(f, pos, count, limit);
    ReachedLast(f, w, VerifyWalk(f, pos, count, limit), sum);
    if pos + 8 <= |f| {
      var len := Word(f, pos + 4);
      WrapIs(pos + 8 + len);
      if pos + 8 + len < WORD32 && pos + 8 + len <= limit && len % 4 == 0 && pos + 8 + RoundUp16(len) <= |f| {
        ReachedNext(f, w, HeaderAt(f, pos), VerifyWalk(f, pos + 8 + len, count - 1, limit), sum);
      }
    }
  }

  /** One pass of the section loop; a pass that ends the loop early leaves sections over, and the image is truncated. */
  method NextSection(f: Image, pos: nat, count: nat, limit: nat, sum: bv8, stale: Image, ghost w: Walk)
    returns (ok: bool, offset: nat, r: bv8)
    requires |stale| == 16 && |f| < WORD32 && pos % 4 == 0 && 0 < count && pos < limit
    requires Reached(f, w, VerifyWalk(f, pos, count, limit), sum) && (w.Parsed? ==> Inside(f, w.sections))
    ensures offset % 4 == 0
    ensures if ok then Reached(f, w, VerifyWalk(f, offset, count - 1, limit), r) else !w.Parsed?
  {
    PassMeans(f, w, pos, count, limit, sum);
    ok, offset, r := false, 0, sum;
    if pos + 8 <= |f| {
      var len := Word(f, pos + 4);
      if Wrap(pos + 8 + len) <= limit && len % 4 == 0 {
        ok := true;
        offset, r := VerifySection(f, pos + 8, len, sum, stale);
        if w.Unchecked? {
          ReachedAny(f, w, VerifyWalk(f, offset, count - 1, limit), r);
        }
      }
    }
  }

  /** The section loop; `stale` is what a chunk holds before its first read. */
  method VerifySections(f: Image, start: nat, count: nat, limit: nat, stale: Image)
    returns (ok: bool, offset: nat, sum: bv8)
    requires |stale| == 16 && |f| < WORD32 && start % 4 == 0
    ensures var w := VerifyWalk(f, start, count, limit);
            !w.Unchecked? ==>
                ok == w.Parsed? && (ok ==> offset == w.end && sum == Xor(CHKSUM_INIT, Payload(f, w.sections)))
  {
    ok, offset, sum := true, start, CHKSUM_INIT;
    ghost var w := VerifyWalk(f, start, count, limit);
    var remaining: nat := count;
    ReachedFirst(f, w);
    while remaining > 0 && offset < limit
      invariant ok && offset % 4 == 0 && Reached(f, w, VerifyWalk(f, offset, remaining, limit), sum)
    {
      ok, offset, sum := NextSection(f, offset, remaining, limit, sum, stale, w);
      if !ok {
        return;
      }
      remaining := remaining - 1;
    }
    ReachedLast(f, w, VerifyWalk(f, offset, remaining, limit), sum);
    if remaining > 0 {
      WalkNext(f, offset, remaining, limit);
      ok := false;
    }
  }

  /** What the checksum byte decides. */
  lemma {:induction false} SummedIs(f: Image, w: Walk)
    requires w.Parsed? ==> Inside(f, w.sections)
    ensures var v := Summed(f, w);
            if !w.Parsed? then v == w
            else if LineEnd(w.end) >= |f| then v == Unchecked
            else v == if f[LineEnd(w.end)] == Xor(CHKSUM_INIT, Payload(f, w.sections)) then w else Rejected
  {
  }

  /** The checksum byte at the end of the last line, and the image length it gives. */
  method Finish(f: Image, p: nat, parsed: bool, end: nat, sum: bv8, byte: bv8, ghost w: Walk)
    returns (ok: bool, length: int)
    requires w.Parsed? ==> Inside(f, w.sections)
    requires !w.Unchecked? ==>
               parsed == w.Parsed? && (parsed ==> end == w.end && sum == Xor(CHKSUM_INIT, Payload(f, w.sections)))
    ensures var v := Summed(f, w);
            !v.Unchecked? ==> ok == v.Parsed? && (ok ==> length == LineEnd(v.end) + 1 - p)
  {
    SummedIs(f, w);
    if !parsed {
      return false, 0;
    }
    var last := LineEnd(end);
    length := last + 1 - p;
    ok := (if last < |f| then f[last] else byte) == sum;
  }

  method AlignIrom(offset: nat, len: nat) returns (r: nat)
    requires offset % 4 == 0
    ensures r % 4 == 0 && (len % 4 == 0 && offset + len + 16 < WORD32 ==> r == RoundUp16(offset + len))
  {
    var end := RoundUp4(Wrap(offset + len));
    WrapIs(offset + len);
    RoundsUp4(Wrap(offset + len));
    RoundsUp(end);
    WrapIs(RoundUp16(end));
    r := Wrap(RoundUp16(end));
  }

  /** The first pass of the section loop over an image that begins with an irom section. */
  method SkipIrom(f: Image, p: nat, limit: nat) returns (ok: bool, offset: nat, count: nat)
    requires p % 4 == 0 && p + 8 <= |f| && |f| + MAX_IMAGE < WORD32 && limit == p + MAX_IMAGE && f[p] == MAGIC_NEW
    ensures ok ==> offset % 4 == 0
    ensures match IromSkip(f, p)
            case Refused => !ok
            case Outside => true
            case To(s) => ok && offset == s + 8 && count == Byte(f[s + 1])
  {
    ok, offset, count := false, p + 8, Byte(f[p + 1]);
    var magic := f[p];
    if offset + 8 > |f| {
      return;
    }
    var len := Word(f, offset + 4);
    offset := offset + 8;
    Aligned(p, 16);
    WrapIs(offset + len);
    if Wrap(offset + len) > limit || len % 4 != 0 {
      return;
    }
    offset := AlignIrom(offset, len);
    if offset + 8 <= |f| {
      magic, count := f[offset], Byte(f[offset + 1]);
    }
    ok, offset := magic == MAGIC, offset + 8;
  }

  /** The sections after a header, and the checksum behind them. */
  method VerifyFrom(f: Image, p: nat, offset: nat, count: nat, limit: nat, stale: Image, byte: bv8)
    returns (ok: bool, length: int)
    requires |stale| == 16 && |f| < WORD32 && offset % 4 == 0
    ensures var v := Summed(f, VerifyWalk(f, offset, count, limit));
            !v.Unchecked? ==> ok == v.Parsed? && (ok ==> length == LineEnd(v.end) + 1 - p)
  {
    var parsed, end, sum := VerifySections(f, offset, count, limit, stale);
    ok, length := Finish(f, p, parsed, end, sum, byte, VerifyWalk(f, offset, count, limit));
  }

  /** rboot_verify_image. `stale` and `byte` are what the chunk and the checksum byte hold if they are never read. */
  method VerifyImage(f: Image, p: nat, stale: Image, byte: bv8) returns (ok: bool, length: int)
    requires |stale| == 16 && p < WORD32 && |f| + MAX_IMAGE < WORD32
    ensures var v := Verdict(f, p);
            !v.Unchecked? ==> ok == v.Parsed? && (ok ==> length == LineEnd(v.end) + 1 - p)
  {
    if p % 4 != 0 || p + 8 > |f| {
      return false, 0;
    }
    WrapIs(p + MAX_IMAGE);
    var limit := Wrap(p + MAX_IMAGE);
    if f[p] != MAGIC && f[p] != MAGIC_NEW {
      return false, 0;
    }
    var count, offset := Byte(f[p + 1]), p + 8;
    assert MAGIC != MAGIC_NEW;
    if f[p] == MAGIC_NEW && count > 0 {
      ok, offset, count := SkipIrom(f, p, limit);
      if !ok {
        return false, 0;
      }
    }
    ok, length := VerifyFrom(f, p, offset, count, limit, stale, byte);
  }

  /** A walk within the limits of the update check is a walk of the boot loader. */
  lemma {:induction false} WalkBoots(f: Image, pos: nat, count: nat, limit: nat)
    requires VerifyWalk(f, pos, count, limit).Parsed?
    ensures Sections(f, pos, count) == VerifyWalk(f, pos, count, limit)
    decreases count
  {
    if count > 0 {
      WalkBoots(f, pos + 8 + Word(f, pos + 4), count - 1, limit);
    }
  }

  /** Where a walk begins can be told from what it finds. */
  lemma {:induction false} WalkFrom(f: Image, pos: nat, count: nat, pos': nat, count': nat)
    requires Sections(f, pos, count).Parsed? && Sections(f, pos, count) == Sections(f, pos', count')
    ensures pos == pos'
  {
    if count == 0 {
      assert Sections(f, pos', count').sections == [];
    } else {
      assert Sections(f, pos, count).sections[0].start == pos + 8;
      assert Sections(f, pos', count').sections[0].start == pos' + 8;
    }
  }

  /** An image that passes the update check passes the boot check, and the boot loader finds the very
      sections that were summed, exactly when an image with an irom section has the second magic, which
      the update check does not ask for, and that section ends on a 16-byte line, because the one
      checker rounds up there and the other does not. */
  lemma {:induction false} VerifiedBoots(f: Image, p: nat)
    requires Verdict(f, p).Parsed? && 0 < p && p + 16 <= |f| && |f| + MAX_IMAGE < WORD32
    ensures Bootable(f, p) && BootSections(f, Start(f, p)) == Verdict(f, p) <==>
            (f[p] == MAGIC_NEW ==> f[p + 1] == MAGIC_NEW2 && (p + Word(f, p + 12)) % 16 == 0)
  {
    if f[p] == MAGIC {
      SoundBoots(f, p, p + MAX_IMAGE);
    } else if f[p + 1] == MAGIC_NEW2 {
      Small();
      IromBoots(f, p);
      var h, s := IromSkip(f, p).header, Start(f, p);
      SoundBoots(f, h, p + MAX_IMAGE);
      if BootSections(f, s) == BootSections(f, h) {
        WalkFrom(f, s + 8, Byte(f[s + 1]), h + 8, Byte(f[h + 1]));
      }
    }
  }

  /** An image at 16 with an irom section of four bytes, and no sections after its second header. */
  function Crooked(magic2: bv8): (f: Image)
    ensures |f| == 64
  {
    seq(64, i => if i == 16 then MAGIC_NEW else if i == 17 then magic2 else if i == 28 then 4
                 else if i == 48 then MAGIC else if i == 63 then CHKSUM_INIT else 0)
  }

  /** Two images the update check accepts and the boot loader refuses: one without the second magic,
      one whose irom section ends off a 16-byte line. */
  lemma {:induction false} AcceptedNotBootable(magic2: bv8)
    requires magic2 == MAGIC_NEW2 || magic2 == 5
    ensures Verdict(Crooked(magic2), 16).Parsed? && !Bootable(Crooked(magic2), 16)
  {
    var f := Crooked(magic2);
    Small();
    assert Word(f, 28) == 4 by {
      assert Word0(1, f, 28) == Word0(0, f, 28);
    }
    RoundsUp(36);
    RoundsUp(57);
    RoundsUp(45);
    assert IromSkip(f, 16) == To(48);
    assert Verdict(f, 16) == Parsed([], 56);
    WrapIs(36);
    assert BootSections(f, 36) == Parsed([], 44);
  }

  lemma {:induction false} Small()
    ensures Byte(0) == 0 && Byte(4) == 4 && Byte(5) == 5
  {
    assert Byte0(1, 0) == Byte0(0, 0) && Byte0(1, 4) == Byte0(0, 4) && Byte0(1, 5) == Byte0(0, 5);
  }

  lemma {:induction false} SoundBoots(f: Image, s: nat, limit: nat)
    requires s + 8 <= |f| && Summed(f, VerifyWalk(f, s + 8, Byte(f[s + 1]), limit)).Parsed?
    ensures BootSections(f, s) == VerifyWalk(f, s + 8, Byte(f[s + 1]), limit) && Sound(f, BootSections(f, s))
  {
    WalkBoots(f, s + 8, Byte(f[s + 1]), limit);
  }

  /** Both checkers find the same header behind an irom section exactly when the section ends on a line. */
  lemma {:induction false} IromBoots(f: Image, p: nat)
    requires p + 16 <= |f| && |f| + MAX_IMAGE < WORD32 && f[p] != MAGIC && IromSkip(f, p).To?
    ensures Start(f, p) != 0 && (Start(f, p) == IromSkip(f, p).header <==> (p + Word(f, p + 12)) % 16 == 0)
  {
    var x := p + Word(f, p + 12);
    assert p + 16 + Word(f, p + 12) == x + 16;
    OnLine(x);
    WrapIs(x + 16);
  }

  lemma {:induction false} OnLine(x: nat)
    ensures RoundUp16(x + 16) == x + 16 <==> x % 16 == 0
  {
    RoundsUp(x + 16);
    assert (x + 16) % 16 == x % 16;
  }

  predicate WholeWords(ss: seq<Section>) {
    forall k :: 0 <= k < |ss| ==> ss[k].len % 4 == 0
  }

  lemma {:induction false} SectionsEnd(f: Image, pos: nat, count: nat)
    requires Sections(f, pos, count).Parsed?
    ensures Sections(f, pos, count).end >= pos
    decreases count
  {
    if count > 0 {
      SectionsEnd(f, pos + 8 + Word(f, pos + 4), count - 1);
    }
  }

  lemma {:induction false} BootsWalk(f: Image, pos: nat, count: nat, limit: nat)
    requires Sections(f, pos, count).Parsed? && WholeWords(Sections(f, pos, count).sections)
    requires count == 0 || Sections(f, pos, count).end <= limit
    ensures VerifyWalk(f, pos, count, limit).Unchecked? || VerifyWalk(f, pos, count, limit) == Sections(f, pos, count)
    decreases count
  {
    if count > 0 {
      var next := pos + 8 + Word(f, pos + 4);
      var w, rest := Sections(f, pos, count), Sections(f, next, count - 1);
      assert w.sections[0] == HeaderAt(f, pos) && w.sections[1..] == rest.sections;
      forall k | 0 <= k < |rest.sections| ensures rest.sections[k].len % 4 == 0 {
        assert rest.sections[k] == w.sections[k + 1];
      }
      SectionsEnd(f, next, count - 1);
      BootsWalk(f, next, count - 1, limit);
    }
  }

  lemma {:induction false} WalkWhole(f: Image, pos: nat, count: nat, limit: nat)
    requires VerifyWalk(f, pos, count, limit).Parsed?
    ensures var w := VerifyWalk(f, pos, count, limit); WholeWords(w.sections) && (count == 0 || w.end <= limit)
    decreases count
  {
    if count > 0 {
      WalkWhole(f, pos + 8 + Word(f, pos + 4), count - 1, limit);
    }
  }

  /** What the update check asks of an image beyond what the boot loader does: an aligned address, whole
      words, the size limit, and an irom section on a 16-byte line with a header it knows behind it. */
  predicate Stricter(f: Image, p: nat)
    requires p + 16 <= |f|
  {
    var w := BootSections(f, Start(f, p));
    && p % 4 == 0
    && (w.Parsed? ==> WholeWords(w.sections) && (w.sections == [] || w.end <= p + MAX_IMAGE))
    && (f[p] == MAGIC_NEW ==> IromSkip(f, p).To? && (p + Word(f, p + 12)) % 16 == 0)
  }

  lemma {:induction false} StricterPasses(f: Image, p: nat)
    requires Bootable(f, p) && |f| + MAX_IMAGE < WORD32 && !Verdict(f, p).Unchecked? && Stricter(f, p)
    ensures Verdict(f, p) == BootSections(f, Start(f, p))
  {
    if f[p] == MAGIC_NEW {
      Small();
      IromBoots(f, p);
    }
    var s := Start(f, p);
    BootsWalk(f, s + 8, Byte(f[s + 1]), p + MAX_IMAGE);
  }

  /** The converse: the update check finds the sections of a bootable image exactly when the image meets
      its stricter demands, unless it relies on bytes outside the flash. */
  lemma {:induction false} BootsVerified(f: Image, p: nat)
    requires Bootable(f, p) && |f| + MAX_IMAGE < WORD32 && !Verdict(f, p).Unchecked?
    ensures Verdict(f, p) == BootSections(f, Start(f, p)) <==> Stricter(f, p)
  {
    if Stricter(f, p) {
      StricterPasses(f, p);
    } else if Verdict(f, p) == BootSections(f, Start(f, p)) {
      Small();
      VerifiedBoots(f, p);
      var h := if f[p] == MAGIC then p else IromSkip(f, p).header;
      WalkWhole(f, h + 8, Byte(f[h + 1]), p + MAX_IMAGE);
    }
  }
}
