/** core/sysparam.c: the persistent key/value store. The `Store` class carries the
    driver's static state and the flash it works on; `images` records the flash after
    every single flash operation, which is what a power loss can leave behind. */
module Sysparam {
  import opened Flash
  import opened SysparamLog
  import opened SysparamTable
  import opened SysparamCompact
  import opened SysparamRegion
  import opened SysparamScan
  import opened SysparamSet
  import opened SysparamSize
  import opened SysparamBoot

  /** The three images one entry write leaves behind `out` in the region at `b`. */
  predicate WroteEntry(f: Image, imgs: seq<Image>, b: nat, sectors: nat, out: Log, e: Entry) {
    var a := b + 8 + Used(out);
    && |imgs| == 3
    && (forall k :: 0 <= k < 3 ==> SameOutside(f, imgs[k], a, a + e.Space()))
    && Region(imgs[0], b, sectors, out + [Begun(e)])
    && Region(imgs[1], b, sectors, out + [Filled(e)])
    && Region(imgs[2], b, sectors, out + [e])
  }

  predicate RoomFor(f: Image, b: nat, sectors: nat, out: Log, addr: nat, e: Entry) {
    && Region(f, b, sectors, out)
    && addr == b + 8 + Used(out)
    && Used(out) + e.Space() <= sectors * SECTOR - 8
  }

  lemma {:induction false} WritesEntry(f: Image, b: nat, sectors: nat, out: Log, addr: nat, e: Entry)
    requires RoomFor(f, b, sectors, out, addr, e) && e.Encodable() && e.Live()
    ensures WroteEntry(f, [Write1(f, addr, e), Write2(f, addr, e), Write3(f, addr, e)], b, sectors, out, e)
    ensures Verifies(f, addr, e)
  {
    WriteFrame(f, addr, e);
    WritesStick(f, b, sectors, out, addr, e);
    RegionIs(f, b, sectors, out);
    WriteSteps(f, b, sectors, out, e);
    RegionIs(Write1(f, addr, e), b, sectors, out + [Begun(e)]);
    RegionIs(Write2(f, addr, e), b, sectors, out + [Filled(e)]);
    RegionIs(Write3(f, addr, e), b, sectors, out + [e]);
  }

  /** Each of the three writes reads back as it was written. */
  lemma {:induction false} WritesStick(f: Image, b: nat, sectors: nat, out: Log, addr: nat, e: Entry)
    requires RoomFor(f, b, sectors, out, addr, e) && e.Encodable() && e.Live()
    ensures Verifies(f, addr, e)
  {
    WriteFrame(f, addr, e);
    RegionIs(f, b, sectors, out);
    WriteVerifies(f, b, sectors, out, e);
    SticksIs(f, addr, EncodeHeader(Filled(e).Head()));
    SticksIs(Write1(f, addr, e), addr + 4, e.data);
    SticksIs(Write2(f, addr, e), addr, EncodeHeader(e.Head()));
  }

  /** `n` whole sectors of the flash from `addr`. */
  predicate InFlash(f: Image, addr: nat, n: nat) {
    addr % SECTOR == 0 && n >= 1 && addr + n * SECTOR <= |f|
  }

  predicate Formatted(f: Image, g: Image, addr: nat, n: nat) {
    SameOutside(f, g, addr, addr + n * SECTOR) && ErasedAt(g, addr, addr + n * SECTOR)
  }

  /** Part of the way through formatting: at least the first sector is erased. */
  predicate Formatting(f: Image, g: Image, addr: nat, n: nat) {
    SameOutside(f, g, addr, addr + n * SECTOR) && ErasedAt(g, addr, addr + SECTOR)
  }

  predicate Sticks0(level: nat, f: Image, a: nat, data: Image)
    requires a + |data| <= |f|
  {
    if level > 0 then Sticks0(level - 1, f, a, data) else Program(f, a, data)[a..a + |data|] == data
  }

  /** Programming the data and reading it back gives the data. */
  predicate Sticks(f: Image, a: nat, data: Image)
    requires a + |data| <= |f|
  {
    Sticks0(2, f, a, data)
  }

  lemma {:induction false} SticksIs(f: Image, a: nat, data: Image)
    requires a + |data| <= |f|
    ensures Sticks(f, a, data) <==> Program(f, a, data)[a..a + |data|] == data
  {
    assert Sticks0(1, f, a, data) == Sticks0(0, f, a, data);
  }

  const ZEROS: Image := [0, 0, 0, 0]

  /** Zeros can be programmed over anything. */
  lemma {:induction false} ZerosStick(f: Image, a: nat)
    requires a + 4 <= |f|
    ensures Sticks(f, a, ZEROS)
  {
    SticksIs(f, a, ZEROS);
    var g := Program(f, a, ZEROS);
    forall i | 0 <= i < 4 ensures g[a + i] == ZEROS[i] {
      AndZero(f[a + i]);
    }
  }

  lemma {:induction false} AndZero(b: bv8)
    ensures b & 0 == 0
  {
  }

  /** Every read-back of an entry write returns what was written. */
  predicate Verifies(f: Image, a: nat, e: Entry) {
    && e.Encodable() && a + e.Space() <= |f|
    && Sticks(f, a, EncodeHeader(Filled(e).Head())) && Sticks(Write1(f, a, e), a + 4, e.data)
    && Sticks(Write2(f, a, e), a, EncodeHeader(e.Head()))
  }

  method ReadHeader(f: Image, addr: nat, ghost b: nat, ghost sectors: nat, ghost log: Log, ghost i: nat)
    returns (h: Header)
    requires Region(f, b, sectors, log) && i < |log| && addr == b + 8 + Off(log, i)
    ensures h == log[i].Head() && log[i].Encodable() && addr + 4 <= b + sectors * SECTOR
  {
    RegionIs(f, b, sectors, log);
    ReadEntry(f, b, sectors, log, i);
    h := DecodeHeader(f[addr..addr + 4]);
  }

  lemma {:induction false} RegionMounted(f: Image, base: nat, sectors: nat, second: bool, log: Log)
    requires Recoverable(f, base, sectors, second, log)
    ensures Layout(f, base, sectors) && Region(f, RegionBase(base, sectors, second), sectors, log)
  {
    Unseal(f, base, sectors, second, log);
    RegionIs(f, RegionBase(base, sectors, second), sectors, log);
  }

  lemma {:induction false} Deletes(f: Image, g: Image, base: nat, sectors: nat, second: bool, log: Log, i: nat)
    requires Recoverable(f, base, sectors, second, log) && i < |log| && log[i].Encodable()
    requires var a := RegionBase(base, sectors, second) + 8 + Off(log, i);
             a + 4 <= |f| && g == Program(f, a, EncodeHeader(log[i].(alive := false).Head()))
    ensures Recoverable(g, base, sectors, second, Kill(log, i)) && Used(Kill(log, i)) == Used(log)
  {
    Unseal(f, base, sectors, second, log);
    DeleteStep(f, g, base, sectors, second, log, i);
    Unseal(g, base, sectors, second, Kill(log, i));
    OffSame(log, Kill(log, i), |log|);
  }

  /** Both regions during a copy. */
  lemma {:induction false} CopyRegions(f: Image, base: nat, sectors: nat, second: bool, log: Log, out: Log)
    requires Copying(f, base, sectors, second, log, out)
    ensures Layout(f, base, sectors) && 1 <= sectors <= 0xfff
    ensures Region(f, RegionBase(base, sectors, second), sectors, log)
    ensures Region(f, RegionBase(base, sectors, !second), sectors, out)
  {
    CopyingIs(f, base, sectors, second, log, out);
    RegionIs(f, RegionBase(base, sectors, second), sectors, log);
    RegionIs(f, RegionBase(base, sectors, !second), sectors, out);
  }

  lemma {:induction false} CopyImages(f: Image, imgs: seq<Image>, base: nat, sectors: nat, second: bool, log: Log,
                                      out: Log, e: Entry)
    requires Copying(f, base, sectors, second, log, out)
    requires WroteEntry(f, imgs, RegionBase(base, sectors, !second), sectors, out, e)
    requires Used(out) + e.Space() <= sectors * SECTOR - 8
    ensures AllMount(imgs, base, sectors, second, log)
    ensures Copying(imgs[2], base, sectors, second, log, out + [e])
  {
    var alt := RegionBase(base, sectors, !second);
    var a := alt + 8 + Used(out);
    forall k | 0 <= k < 3 ensures Recoverable(imgs[k], base, sectors, second, log) {
      CopyKeeps(f, imgs[k], base, sectors, second, log, out, a, a + e.Space(), out);
      Unseal(imgs[k], base, sectors, second, log);
    }
    RegionIs(imgs[2], alt, sectors, out + [e]);
    CopyKeeps(f, imgs[2], base, sectors, second, log, out, a, a + e.Space(), out + [e]);
  }

  /** The header _write_region_header builds for the region at `addr`. */
  function HeaderFor(addr: nat, other: nat, active: bool): (h: Image)
    ensures |h| == 8
  {
    EncodeRegion(addr >= other, active, (if addr < other then other - addr else addr - other) / SECTOR % 0x1000)
  }

  lemma {:induction false} HeaderForRegion(base: nat, sectors: nat, r: bool, active: bool)
    requires 1 <= sectors <= 0xfff
    ensures HeaderFor(RegionBase(base, sectors, r), RegionBase(base, sectors, !r), active) ==
              EncodeRegion(r, active, sectors)
  {
    WholeSectors(sectors);
    if r {
      assert RegionBase(base, sectors, r) - RegionBase(base, sectors, !r) == sectors * SECTOR;
    } else {
      assert RegionBase(base, sectors, !r) - RegionBase(base, sectors, r) == sectors * SECTOR;
    }
  }

  lemma {:induction false} WholeSectors(n: nat)
    requires n <= 0xfff
    ensures n * SECTOR / SECTOR % 0x1000 == n
  {
  }

  /** Init mounts the same log from every one of these images. */
  predicate AllMount(imgs: seq<Image>, base: nat, sectors: nat, second: bool, log: Log) {
    forall g :: g in imgs ==> Recoverable(g, base, sectors, second, log)
  }

  lemma {:induction false} AllMountConcat(a: seq<Image>, b: seq<Image>, base: nat, sectors: nat, second: bool, log: Log)
    requires AllMount(a, base, sectors, second, log) && AllMount(b, base, sectors, second, log)
    ensures AllMount(a + b, base, sectors, second, log)
  {
  }

  lemma {:induction false} ImagesAssoc(a: seq<Image>, b: seq<Image>, c: seq<Image>)
    ensures a + b + c == a + (b + c)
  {
  }

  predicate PairCopied0(level: nat, sectors: nat, out: Log, next: Log, newId: nat, kid: int, newKid: int,
                        id: nat, key: Image, value: Value)
  {
    if level > 0 then PairCopied0(level - 1, sectors, out, next, newId, kid, newKid, id, key, value)
    else
      var k, v := KeyEntry(newId, key), ValueEntry(newId, value);
      && k.Encodable() && v.Encodable()
      && next == (if id == kid then out + [k] else out + [k] + [v])
      && Used(next) <= sectors * SECTOR - 8
      && newKid == (if id == kid then newId else kid)
  }

  /** One pair of the copy: from `out` to `next`, keeping or rewriting the pending key id. */
  predicate PairCopied(sectors: nat, out: Log, next: Log, newId: nat, kid: int, newKid: int, id: nat, key: Image,
                       value: Value) {
    PairCopied0(2, sectors, out, next, newId, kid, newKid, id, key, value)
  }

  lemma {:induction false} PairCopiedIs(sectors: nat, out: Log, next: Log, newId: nat, kid: int, newKid: int,
                                        id: nat, key: Image, value: Value)
    ensures PairCopied(sectors, out, next, newId, kid, newKid, id, key, value) <==>
              var k, v := KeyEntry(newId, key), ValueEntry(newId, value);
              && k.Encodable() && v.Encodable()
              && next == (if id == kid then out + [k] else out + [k] + [v])
              && Used(next) <= sectors * SECTOR - 8
              && newKid == (if id == kid then newId else kid)
  {
    assert PairCopied0(1, sectors, out, next, newId, kid, newKid, id, key, value)
        == PairCopied0(0, sectors, out, next, newId, kid, newKid, id, key, value);
  }

  lemma {:induction false} RegionEncodable(f: Image, b: nat, sectors: nat, log: Log, i: nat)
    requires Region(f, b, sectors, log) && i < |log|
    ensures log[i].Encodable()
  {
    RegionIs(f, b, sectors, log);
    ReadEntry(f, b, sectors, log, i);
  }

  /** The next used key of the copy loop meets PairCopied. */
  lemma {:induction false} NextPair(sectors: nat, log: Log, p: nat, keyId: int)
    requires Clean(log) && p <= |log| && NextUsed(log, p) < |log| && Used(log) <= sectors * SECTOR - 8
    requires WellFormed(log)
    ensures var i := NextUsed(log, p);
            var pair := PairAt(log, i);
            && PairCopied(sectors, Emit(Pairs(log, p), keyId), Emit(Pairs(log, i + 1), keyId), |Pairs(log, p)| + 1,
                          NewId(Pairs(log, p), keyId), NewId(Pairs(log, i + 1), keyId), pair.id, pair.key, pair.value)
            && |Pairs(log, i + 1)| == |Pairs(log, p)| + 1
  {
    NextInList(log, p);
    NextFits(sectors, log, p, keyId);
    PushCopies(sectors, Pairs(log, p), PairAt(log, NextUsed(log, p)), keyId);
  }

  lemma {:induction false} NextFits(sectors: nat, log: Log, p: nat, keyId: int)
    requires Clean(log) && p <= |log| && NextUsed(log, p) < |log| && Used(log) <= sectors * SECTOR - 8
    requires WellFormed(log)
    ensures var i := NextUsed(log, p);
            var ps, pair := Pairs(log, p), PairAt(log, i);
            && |ps| < MAX_KEY_ID && |pair.key| <= 0xffff && |pair.value.data| <= 0xffff
            && (pair.id == NewId(ps, keyId) <==> pair.id == keyId)
            && Used(Emit(Pairs(log, i + 1), keyId)) <= sectors * SECTOR - 8
  {
    var i := NextUsed(log, p);
    NextInList(log, p);
    NeverMatchesLater(log, p, i, keyId);
    CopyFits(log, i + 1, keyId);
    var j := ValAt(log, log[i].id, i + 1);
    assert log[i].Encodable() && log[j].Encodable();
  }

  lemma {:induction false} PushCopies(sectors: nat, ps: seq<Pair>, pair: Pair, keyId: int)
    requires |ps| < MAX_KEY_ID && |pair.key| <= 0xffff && |pair.value.data| <= 0xffff
    requires Used(Emit(ps + [pair], keyId)) <= sectors * SECTOR - 8
    requires pair.id == NewId(ps, keyId) <==> pair.id == keyId
    ensures PairCopied(sectors, Emit(ps, keyId), Emit(ps + [pair], keyId), |ps| + 1,
                       NewId(ps, keyId), NewId(ps + [pair], keyId), pair.id, pair.key, pair.value)
  {
    PairCopiedIs(sectors, Emit(ps, keyId), Emit(ps + [pair], keyId), |ps| + 1,
                 NewId(ps, keyId), NewId(ps + [pair], keyId),
                 pair.id, pair.key, pair.value);
    EmitPush(ps, pair, keyId);
    NewIdPush(ps, pair, keyId);
  }

  lemma {:induction false} NewIdPush(ps: seq<Pair>, pair: Pair, keyId: int)
    ensures NewId(ps + [pair], keyId) == if pair.id == keyId then |ps| + 1 else NewId(ps, keyId)
  {
    assert (ps + [pair])[..|ps|] == ps;
  }

  lemma {:induction false} NextInList(log: Log, p: nat)
    requires p <= |log| && NextUsed(log, p) < |log|
    ensures Pairs(log, NextUsed(log, p) + 1) == Pairs(log, p) + [PairAt(log, NextUsed(log, p))]
  {
    PairsSkip(log, p, NextUsed(log, p));
    PairsStep(log, NextUsed(log, p));
  }

  lemma {:induction false} CopyAhead(f: Image, b: nat, sectors: nat, log: Log, p: nat, keyId: int)
    requires Clean(log) && p <= |log| && NextUsed(log, p) < |log| && Region(f, b, sectors, log)
    ensures var i := NextUsed(log, p);
            var pair := PairAt(log, i);
            && PairCopied(sectors, Emit(Pairs(log, p), keyId), Emit(Pairs(log, i + 1), keyId), |Pairs(log, p)| + 1,
                          NewId(Pairs(log, p), keyId), NewId(Pairs(log, i + 1), keyId), pair.id, pair.key, pair.value)
            && |Pairs(log, i + 1)| == |Pairs(log, p)| + 1
            && b + 8 + Off(log, i) <= b + sectors * SECTOR
  {
    forall k | 0 <= k < |log| ensures log[k].Encodable() {
      RegionEncodable(f, b, sectors, log, k);
    }
    assert WellFormed(log);
    NextPair(sectors, log, p, keyId);
    InRegion(f, b, sectors, log, NextUsed(log, p));
  }

  /** What the copy loop has written and counted, and the id it goes on with. */
  datatype Copies = Copies(out: Log, count: nat, kid: int)

  function Copied0(level: nat, log: Log, p: nat, keyId: int): Copies
    requires p <= |log|
  {
    if level > 0 then Copied0(level - 1, log, p, keyId)
    else Copies(Emit(Pairs(log, p), keyId), |Pairs(log, p)|, NewId(Pairs(log, p), keyId))
  }

  /** What it should be after the keys among the first `p` entries. */
  function Copied(log: Log, p: nat, keyId: int): Copies
    requires p <= |log|
  {
    Copied0(2, log, p, keyId)
  }

  predicate Emitted(log: Log, p: nat, keyId: int, out: Log, count: nat, kid: int)
    requires p <= |log|
  {
    Copied(log, p, keyId) == Copies(out, count, kid)
  }

  lemma {:induction false} EmittedIs(log: Log, p: nat, keyId: int, out: Log, count: nat, kid: int)
    requires p <= |log|
    ensures Emitted(log, p, keyId, out, count, kid) <==>
              out == Emit(Pairs(log, p), keyId) && count == |Pairs(log, p)| && kid == NewId(Pairs(log, p), keyId)
  {
    assert Copied0(1, log, p, keyId) == Copied0(0, log, p, keyId);
  }

  lemma {:induction false} EmitsNext(f: Image, b: nat, sectors: nat, log: Log, p: nat, keyId: int, out: Log, count: nat,
                                     kid: int)
    returns (out': Log, kid': int)
    requires Clean(log) && p <= |log| && NextUsed(log, p) < |log| && Region(f, b, sectors, log)
    requires Emitted(log, p, keyId, out, count, kid)
    ensures var i := NextUsed(log, p);
            var pair := PairAt(log, i);
            && PairCopied(sectors, out, out', count + 1, kid, kid', pair.id, pair.key, pair.value)
            && Emitted(log, i + 1, keyId, out', count + 1, kid')
  {
    CopiedAhead(f, b, sectors, log, p, keyId);
    var c := Copied(log, NextUsed(log, p) + 1, keyId);
    out', kid' := c.out, c.kid;
  }

  lemma {:induction false} CopiedAhead(f: Image, b: nat, sectors: nat, log: Log, p: nat, keyId: int)
    requires Clean(log) && p <= |log| && NextUsed(log, p) < |log| && Region(f, b, sectors, log)
    ensures var c, c' := Copied(log, p, keyId), Copied(log, NextUsed(log, p) + 1, keyId);
            var pair := PairAt(log, NextUsed(log, p));
            && c'.count == c.count + 1
            && PairCopied(sectors, c.out, c'.out, c'.count, c.kid, c'.kid, pair.id, pair.key, pair.value)
  {
    CopyAhead(f, b, sectors, log, p, keyId);
    EmittedAre(log, p, keyId);
    EmittedAre(log, NextUsed(log, p) + 1, keyId);
  }

  lemma {:induction false} EmittedAre(log: Log, p: nat, keyId: int)
    requires p <= |log|
    ensures Emitted(log, p, keyId, Emit(Pairs(log, p), keyId), |Pairs(log, p)|, NewId(Pairs(log, p), keyId))
  {
    EmittedIs(log, p, keyId, Emit(Pairs(log, p), keyId), |Pairs(log, p)|, NewId(Pairs(log, p), keyId));
  }

  lemma {:induction false} EmitsNoMore(log: Log, p: nat, keyId: int, out: Log, count: nat, kid: int)
    requires p <= |log| && NextUsed(log, p) == |log| && Emitted(log, p, keyId, out, count, kid)
    ensures Emitted(log, |log|, keyId, out, count, kid)
  {
    EmittedIs(log, p, keyId, out, count, kid);
    PairsSkip(log, p, |log|);
    EmittedIs(log, |log|, keyId, out, count, kid);
  }

  lemma {:induction false} EitherSurvives(g: Image, base: nat, sectors: nat, second: bool, pre: Log, out: Log,
                                          key: Image, v: Option<Value>)
    requires Either(g, base, sectors, second, pre, out) && Sets(pre, out, key, None)
    ensures Survives(g, base, sectors, pre, key, v, true)
  {
    if Recoverable(g, base, sectors, second, pre) {
      OneSurvives(g, base, sectors, second, pre, pre, key, v, true);
    } else {
      OneSurvives(g, base, sectors, !second, out, pre, key, v, true);
    }
  }

  lemma {:induction false} IdsBelow(log: Log, key: Image)
    requires Clean(log)
    ensures forall i :: 0 <= i < |log| && log[i].IsKey() ==> log[i].id <= LastKeyId(log, 0, |log|, 0)
    ensures var out := Compacted(log, KeyIdOf(log, key));
            forall i :: 0 <= i < |out| ==> out[i].id <= |Pairs(log, |log|)|
  {
    LastIsLargest(log, |log|);
    CompactedKey(log, key);
  }

  /** The three images of an append during a set. */
  lemma {:induction false} AppendedSurvive(imgs: seq<Image>, base: nat, sectors: nat, second: bool, log: Log, e: Entry,
                                           pre: Log, name: Image, v: Option<Value>, compacted: bool)
    requires |imgs| == 3 && Clean(log) && e.Encodable()
    requires Recoverable(imgs[0], base, sectors, second, log + [Begun(e)])
    requires Recoverable(imgs[1], base, sectors, second, log + [Filled(e)])
    requires Recoverable(imgs[2], base, sectors, second, log + [e])
    requires Linked(pre, log, name, compacted) && Outcome(pre, log + [e], name, v, compacted)
    ensures AllSurvive(imgs, base, sectors, pre, name, v, compacted)
  {
    Unfinished(imgs[0], base, sectors, second, log, e, Begun(e), pre, name, v, compacted);
    Unfinished(imgs[1], base, sectors, second, log, e, Filled(e), pre, name, v, compacted);
    OneSurvives(imgs[2], base, sectors, second, log + [e], pre, name, v, compacted);
  }

  /** An entry that is only partly written leaves the outcome open. */
  lemma {:induction false} Unfinished(g: Image, base: nat, sectors: nat, second: bool, log: Log, e: Entry, part: Entry,
                                      pre: Log, name: Image, v: Option<Value>, compacted: bool)
    requires Clean(log) && e.Encodable() && (part == Begun(e) || part == Filled(e))
    requires Recoverable(g, base, sectors, second, log + [part]) && Linked(pre, log, name, compacted)
    ensures Survives(g, base, sectors, pre, name, v, compacted)
  {
    Invisible(log, e);
    LinkedOutcome(pre, log, log + [part], name, v, compacted);
    OneSurvives(g, base, sectors, second, log + [part], pre, name, v, compacted);
  }

  /** How the writing phase finds the key of a set: under `kid` in the log, or, after a
      compaction that dropped it, with `kid` left over from the old log. */
  ghost predicate ValuePlan(pre: Log, log: Log, name: Image, kid: nat, was: bool) {
    && 1 <= kid <= MAX_KEY_ID
    && Linked(pre, log, name, was)
    && if was && Valueless(pre, name) then log == Compacted(pre, KeyIdOf(pre, name)) && KeyIndex(log, name) == |log|
       else KeyIdOf(log, name) == kid
  }

  /** What the value write, and the deletion of the old value, amount to. */
  lemma {:induction false} ValueOutcome(pre: Log, log: Log, name: Image, kid: nat, v: Value, was: bool)
    requires Clean(log) && Clean(pre) && ValuePlan(pre, log, name, kid, was)
    ensures var j, log' := ValueIndex(log, name), log + [ValueEntry(kid, v)];
            && Outcome(pre, log', name, Some(v), was)
            && (if was && Valueless(pre, name) then j == |log| && Sets(pre, log', name, None)
                else if j == |log| then Clean(log') && Sets(pre, log', name, Some(v))
                else
                  && Clean(Kill(log', j)) && Sets(pre, Kill(log', j), name, Some(v))
                  && Outcome(pre, Kill(log', j), name, Some(v), was))
  {
    var j, log' := ValueIndex(log, name), log + [ValueEntry(kid, v)];
    LinkedOutcome(pre, log, log', name, Some(v), was);
    if was && Valueless(pre, name) {
      StaleWrite(pre, name, kid, v);
      CompactSets(pre, name);
    } else if j == |log| {
      NoValue(log, name);
      AddValue(log, name, v);
    } else {
      ShadowThenReplace(log, name, v);
      LinkedOutcome(pre, log, Kill(log', j), name, Some(v), was);
    }
  }

  lemma {:induction false} StillAbsent(log: Log, name: Image)
    requires Clean(log) && KeyIndex(log, name) == |log|
    ensures var out := Compacted(log, -1); KeyIndex(out, name) == |out|
  {
    CompactedKey(log, name);
  }

  lemma {:induction false} AppendMounts(f: Image, imgs: seq<Image>, base: nat, sectors: nat, second: bool, log: Log,
                                        e: Entry)
    requires Mounts(f, base, sectors, second, log)
    requires WroteEntry(f, imgs, RegionBase(base, sectors, second), sectors, log, e)
    requires Used(log) + e.Space() <= sectors * SECTOR - 8
    ensures Recoverable(imgs[0], base, sectors, second, log + [Begun(e)])
    ensures Recoverable(imgs[1], base, sectors, second, log + [Filled(e)])
    ensures Recoverable(imgs[2], base, sectors, second, log + [e])
  {
    var a := RegionBase(base, sectors, second) + 8 + Used(log);
    Rewritten(f, imgs[0], base, sectors, second, log, log + [Begun(e)], a, a + e.Space());
    Rewritten(f, imgs[1], base, sectors, second, log, log + [Filled(e)], a, a + e.Space());
    Rewritten(f, imgs[2], base, sectors, second, log, log + [e], a, a + e.Space());
  }

  lemma {:induction false} Rewritten(f: Image, g: Image, base: nat, sectors: nat, second: bool, log: Log, log': Log,
                                     lo: nat, hi: nat)
    requires Mounts(f, base, sectors, second, log) && SameOutside(f, g, lo, hi)
    requires Region(g, RegionBase(base, sectors, second), sectors, log')
    requires RegionBase(base, sectors, second) + 8 <= lo && hi <= RegionBase(base, sectors, second) + sectors * SECTOR
    ensures Recoverable(g, base, sectors, second, log')
  {
    RegionIs(g, RegionBase(base, sectors, second), sectors, log');
    Remount(f, g, base, sectors, second, log, log', lo, hi);
    Unseal(g, base, sectors, second, log');
  }

  function Written0(level: nat, pre: Log, name: Image, v: Value): Log {
    if level > 0 then Written0(level - 1, pre, name, v)
    else if KeyIndex(pre, name) == |pre| then
      var id := LastKeyId(pre, 0, |pre|, 0) + 1;
      pre + [KeyEntry(id, name)] + [ValueEntry(id, v)]
    else
      var log, j := pre + [ValueEntry(pre[KeyIndex(pre, name)].id, v)], ValueIndex(pre, name);
      if j < |pre| then Kill(log, j) else log
  }

  /** The log after a set that needs no compaction: a new key takes the next id, and the new value
      follows; the old value, if there is one, is deleted. */
  function Written(pre: Log, name: Image, v: Value): Log { Written0(2, pre, name, v) }

  lemma {:induction false} WrittenIs(pre: Log, name: Image, v: Value)
    ensures Written(pre, name, v) ==
            if KeyIndex(pre, name) == |pre| then
              var id := LastKeyId(pre, 0, |pre|, 0) + 1;
              pre + [KeyEntry(id, name)] + [ValueEntry(id, v)]
            else
              var log, j := pre + [ValueEntry(pre[KeyIndex(pre, name)].id, v)], ValueIndex(pre, name);
              if j < |pre| then Kill(log, j) else log
  {
    assert Written0(1, pre, name, v) == Written0(0, pre, name, v);
  }

  /** What sysparam_set_data of a new value promises, given the log before and after. */
  ghost predicate SetResult(pre: Log, log: Log, name: Image, v: Value, size: nat, status: Status, compacted: bool) {
    && (status == Ok || status == ErrFull)
    && (if Loses(pre, name, |v.data|, size) then compacted && Sets(pre, log, name, None)
        else
          && Clean(log) && log == LogAfter(pre, name, v, status, compacted)
          && Sets(pre, log, name, if status == Ok then Some(v) else if compacted then None else Get(pre, name)))
    && (status == ErrFull ==>
        Clean(log) && (Exceeds(pre, name, |v.data|, size + Reclaimable(pre, name)) || OutOfIds(pre, name)))
    && Refuses(pre, name, |v.data|, size, status) && (Full(pre, name, |v.data|, size) ==> compacted == Unused(pre))
    && (compacted ==> Exceeds(pre, name, |v.data|, size) || OutOfIds(pre, name))
  }

  /** The log after a set: compacted or not, and then with the new entries, if they are not refused. */
  function LogAfter(pre: Log, name: Image, v: Value, status: Status, compacted: bool): Log {
    var mid := if compacted then Compacted(pre, KeyIdOf(pre, name)) else pre;
    if status == Ok then Written(mid, name, v) else mid
  }

  /** A set is refused if its entries do not fit even behind the compacted log, or if there are as many
      keys with values as ids; and only if they do not fit, or no id is left. */
  predicate Refuses(pre: Log, name: Image, len: nat, size: nat, status: Status) {
    && (status == ErrFull ==> Full(pre, name, len, size) || NoIds(pre, name))
    && (Full(pre, name, len, size) || Crowded(pre, name) ==> status == ErrFull)
  }

  /** Some key that was deleted is still in the log. */
  predicate Unused(log: Log) { KeyWeight(log, 0, |log|, true) != ValWeight(log, 0, |log|, true) }

  predicate Full(log: Log, name: Image, len: nat, size: nat) {
    8 + Used(Compacted(log, KeyIdOf(log, name))) + Needed(log, name, len) > size
  }

  predicate Crowded(log: Log, name: Image) {
    KeyIndex(log, name) == |log| && |Pairs(log, |log|)| >= MAX_KEY_ID
  }

  /** The entries of a set do not fit behind `log` in a region of `size` bytes. */
  predicate Exceeds(log: Log, name: Image, len: nat, size: nat) {
    8 + Used(log) + Needed(log, name, len) > size
  }

  /** The one case in which a set that reports success stores nothing: the key is in the log
      without a value and the new value does not fit, so compaction drops the key. */
  predicate Loses(log: Log, name: Image, len: nat, size: nat) {
    Valueless(log, name) && Exceeds(log, name, len, size)
  }

  /** How a set goes on from the original log, and from its compaction. */
  lemma {:induction false} PlanAfter(pre: Log, name: Image)
    requires Clean(pre)
    ensures var kid := KeyIdOf(pre, name);
            var out, id := Compacted(pre, kid), NewId(Pairs(pre, |pre|), kid);
            && (kid < 0 <==> KeyIndex(pre, name) == |pre|)
            && (kid < 0 ==> id == kid && KeyIndex(out, name) == |out|)
            && (kid >= 0 ==>
                  1 <= id <= MAX_KEY_ID && ValuePlan(pre, pre, name, kid, false) && ValuePlan(pre, out, name, id, true))
            && ValueIndex(out, name) == |out|
            && Clean(out) && Sets(pre, out, name, None)
            && (forall i :: 0 <= i < |out| ==> out[i].id <= |Pairs(pre, |pre|)|)
            && (forall i :: 0 <= i < |pre| && pre[i].IsKey() ==> pre[i].id <= LastKeyId(pre, 0, |pre|, 0))
            && |Pairs(pre, |pre|)| <= LastKeyId(pre, 0, |pre|, 0)
  {
    var kid := KeyIdOf(pre, name);
    var out := Compacted(pre, kid);
    CompactedKey(pre, name);
    CompactSets(pre, name);
    IdsBelow(pre, name);
    PairsReachIds(pre);
    CompactedSpace(pre, kid);
    if KeyIndex(out, name) < |out| {
      NoValue(out, name);
    }
    var i := KeyIndex(pre, name);
    if i < |pre| {
      assert pre[i].IsKey();
    }
  }

  /** The id a set goes on with: that of the key, negative if there is none, renumbered by a compaction. */
  function PlannedId(pre: Log, name: Image, was: bool): int {
    if was then NewId(Pairs(pre, |pre|), KeyIdOf(pre, name)) else KeyIdOf(pre, name)
  }

  predicate KeysUpTo0(level: nat, log: Log, n: int) {
    if level > 0 then KeysUpTo0(level - 1, log, n)
    else forall i :: 0 <= i < |log| && log[i].IsKey() ==> log[i].id <= n
  }

  /** No key has an id above `n`. */
  predicate KeysUpTo(log: Log, n: int) { KeysUpTo0(2, log, n) }

  lemma {:induction false} KeysUpToIs(log: Log, n: int)
    ensures KeysUpTo(log, n) <==> forall i :: 0 <= i < |log| && log[i].IsKey() ==> log[i].id <= n
  {
    assert KeysUpTo0(1, log, n) == KeysUpTo0(0, log, n);
  }

  /** The plan for a new key. */
  lemma {:induction false} NewPlan(pre: Log, log: Log, name: Image, v: Value, c: Context, kid: int, was: bool)
    requires Clean(pre) && kid < 0 && kid == PlannedId(pre, name, was)
    requires if was then
               && log == Compacted(pre, KeyIdOf(pre, name)) && c.maxKeyId == |Pairs(pre, |pre|)| && c.unusedKeys == 0
             else log == pre && Totals(log, name, c)
    ensures KeyIndex(log, name) == |log| && KeyIndex(pre, name) == |pre| && KeyIdOf(pre, name) == -1
    ensures was ==> Sets(pre, log, name, None)
    ensures KeysUpTo(log, c.maxKeyId)
    ensures c.maxKeyId >= MAX_KEY_ID ==> OutOfIds(pre, name)
    ensures c.maxKeyId >= MAX_KEY_ID && c.unusedKeys <= 0 ==> NoIds(pre, name)
    ensures Crowded(pre, name) ==> c.maxKeyId >= MAX_KEY_ID && c.unusedKeys <= 0
  {
    PlanAfter(pre, name);
    UnusedKeys(pre);
    KeysUpToIs(log, c.maxKeyId);
  }

  /** The log that plan leads to. */
  lemma {:induction false} NewWritten(pre: Log, log: Log, name: Image, v: Value, c: Context, was: bool, again: bool)
    requires Clean(pre) && KeyIndex(pre, name) == |pre| && (again ==> !was)
    requires if was then log == Compacted(pre, -1) && c.maxKeyId == |Pairs(pre, |pre|)|
             else log == pre && Totals(log, name, c)
    ensures LogAfter(pre, name, v, Ok, was || again) ==
            if again then Pushed(Compacted(log, -1), |Pairs(log, |log|)| + 1, name, v)
            else Pushed(log, c.maxKeyId + 1, name, v)
  {
    var mid := if was || again then Compacted(pre, -1) else pre;
    CompactedKey(pre, name);
    EmitDense(Pairs(pre, |pre|), -1);
    WrittenIs(mid, name, v);
    PushedIs(mid, LastKeyId(mid, 0, |mid|, 0) + 1, name, v);
  }

  /** The plan for a key that is there already. */
  lemma {:induction false} OldPlan(pre: Log, log: Log, name: Image, v: Value, kid: nat, was: bool)
    requires Clean(pre) && kid == PlannedId(pre, name, was)
    requires log == if was then Compacted(pre, KeyIdOf(pre, name)) else pre
    ensures ValuePlan(pre, log, name, kid, was) && KeyIndex(pre, name) < |pre|
    ensures was ==> ValueIndex(log, name) == |log|
    ensures !(was && Valueless(pre, name)) ==>
              var log', j := log + [ValueEntry(kid, v)], ValueIndex(log, name);
              LogAfter(pre, name, v, Ok, was) == if j < |log| then Kill(log', j) else log'
  {
    PlanAfter(pre, name);
    WrittenIs(log, name, v);
  }

  /** What the counters say of a compaction. */
  lemma {:induction false} Gains(log: Log, name: Image, c: Context)
    requires Clean(log) && Totals(log, name, c)
    ensures Used(Compacted(log, KeyIdOf(log, name))) + c.compactable <= Used(log)
    ensures c.unusedKeys >= 0 && (Valueless(log, name) ==> c.unusedKeys > 0)
    ensures c.unusedKeys == KeyWeight(log, 0, |log|, true) - ValWeight(log, 0, |log|, true)
  {
    CompactedSpace(log, KeyIdOf(log, name));
    UnusedKeys(log);
    if Valueless(log, name) {
      ValuelessCounts(log, name);
    }
  }

  /** The entries fit after the decision to compact exactly if they fit behind the compacted log. */
  lemma {:induction false} FullIs(pre: Log, log: Log, name: Image, len: nat, size: nat, compacted: bool)
    requires Clean(pre) && log == if compacted then Compacted(pre, KeyIdOf(pre, name)) else pre
    requires Exceeds(pre, name, len, size) ==>
               if compacted || Unused(pre) then compacted
               else Exceeds(pre, name, len, size + Reclaimable(pre, name))
    ensures 8 + Used(log) + Needed(pre, name, len) > size <==> Full(pre, name, len, size)
  {
    CompactedSpace(pre, KeyIdOf(pre, name));
    if !compacted && !Unused(pre) {
      ReclaimsAll(pre, name);
    }
  }

  function Pushed0(level: nat, log: Log, id: nat, name: Image, v: Value): Log {
    if level > 0 then Pushed0(level - 1, log, id, name, v) else log + [KeyEntry(id, name)] + [ValueEntry(id, v)]
  }

  /** Both entries of a new key, appended. */
  function Pushed(log: Log, id: nat, name: Image, v: Value): Log { Pushed0(2, log, id, name, v) }

  lemma {:induction false} PushedIs(log: Log, id: nat, name: Image, v: Value)
    ensures Pushed(log, id, name, v) == log + [KeyEntry(id, name)] + [ValueEntry(id, v)]
  {
    assert Pushed0(1, log, id, name, v) == Pushed0(0, log, id, name, v);
  }

  lemma {:induction false} LinkedAfter(pre: Log, mid: Log, log: Log, name: Image, was: bool, again: bool)
    requires if was then Sets(pre, mid, name, None) else mid == pre
    requires if again then !was && Sets(mid, log, name, None) else log == mid
    ensures Linked(pre, log, name, was || again)
  {
  }

  lemma {:induction false} FullResult(pre: Log, log: Log, name: Image, v: Value, size: nat, compacted: bool)
    requires Clean(log) && Exceeds(pre, name, |v.data|, size + Reclaimable(pre, name))
    requires Full(pre, name, |v.data|, size) && compacted == Unused(pre)
    requires if compacted then log == Compacted(pre, KeyIdOf(pre, name)) && Sets(pre, log, name, None)
             else log == pre && !Valueless(pre, name)
    ensures SetResult(pre, log, name, v, size, ErrFull, compacted)
  {
  }

  lemma {:induction false} DoneResult(pre: Log, mid: Log, log: Log, name: Image, v: Value, size: nat, status: Status,
                                      was: bool, again: bool)
    requires Clean(mid) && (if was then Sets(pre, mid, name, None) && Exceeds(pre, name, |v.data|, size)
                            else mid == pre && !Exceeds(pre, name, |v.data|, size))
    requires status == Ok ==>
               if was && Valueless(pre, name) then Sets(pre, log, name, None)
               else Clean(log) && Sets(pre, log, name, Some(v))
    requires status == Ok || (status == ErrFull && log == mid && !again && OutOfIds(pre, name))
    requires again ==> OutOfIds(pre, name)
    requires !(was && Valueless(pre, name)) ==> log == LogAfter(pre, name, v, status, was || again)
    requires Refuses(pre, name, |v.data|, size, status) && !Full(pre, name, |v.data|, size)
    ensures SetResult(pre, log, name, v, size, status, was || again)
  {
  }

  /** The value a set asks for; an empty one is a deletion. */
  function Target(value: Image, binary: bool): Option<Value> {
    if value == [] then None else Some(Value(value, binary))
  }

  /** The only reason for a set to compact: its entries do not fit, or the largest id is in use. */
  predicate MayCompact(log: Log, key: Image, value: Image, size: nat) {
    value != [] && (Exceeds(log, KeyName(key), |value|, size) || OutOfIds(log, KeyName(key)))
  }

  /** What sysparam_set_data promises of a mounted log, for every input. */
  ghost predicate DataResult(pre: Log, log: Log, name: Image, v: Value, size: nat, status: Status, compacted: bool) {
    if name == [] || |v.data| > MAX_VALUE_LEN then status == ErrBadValue && log == pre
    else if v.data == [] then
      if Get(pre, name) == None then status == NotFound && log == pre
      else
        && status == Ok && Clean(log) && Sets(pre, log, name, None)
        && ValueIndex(pre, name) < |pre| && log == Kill(pre, ValueIndex(pre, name))
    else if Get(pre, name) == Some(v) then status == Ok && log == pre
    else SetResult(pre, log, name, v, size, status, compacted)
  }

  lemma {:induction false} GetByIndex(log: Log, name: Image)
    ensures var j := ValueIndex(log, name);
            Get(log, name) == if j < |log| then Some(Value(log[j].data, log[j].binary)) else None
  {
  }

  lemma {:induction false} RegionIds(f: Image, b: nat, sectors: nat, log: Log)
    requires Region(f, b, sectors, log)
    ensures IdsInRange(log)
  {
    forall i | 0 <= i < |log| ensures 1 <= log[i].id <= MAX_KEY_ID {
      RegionEncodable(f, b, sectors, log, i);
    }
  }

  /** The sectors sysparam_init looks at. */
  function ScanRange(baseAddr: nat, topAddr: nat): (nat, nat) {
    var start := baseAddr - baseAddr % SECTOR;
    (start, if topAddr == 0 || topAddr == start then start + SECTOR else topAddr)
  }

  /** An image from which sysparam_init(baseAddr, topAddr) finds the area mounting `log`. */
  ghost predicate Bootable(f: Image, baseAddr: nat, topAddr: nat, base: nat, sectors: nat, second: bool, log: Log) {
    && Recoverable(f, base, sectors, second, log)
    && NoFalseMagic(f, base, sectors)
    && Layout(f, base, sectors)
    && Reaches(f, base, sectors, ScanRange(baseAddr, topAddr).0, ScanRange(baseAddr, topAddr).1)
  }

  /** Where the header scan of init ends on a bootable image, and what it then plans. */
  lemma {:induction false} BootPlan(f: Image, base: nat, sectors: nat, second: bool, log: Log, top: nat, addr: nat)
    requires Recoverable(f, base, sectors, second, log) && NoFalseMagic(f, base, sectors)
    requires Layout(f, base, sectors) && Reaches(f, base, sectors, base, top)
    requires SectorFrom(base, addr)
    requires forall a: nat :: SectorFrom(base, a) && a < addr ==> a < top && a + 8 <= |f| && !HasMagic(f, a)
    requires addr >= top || addr + 8 > |f| || HasMagic(f, addr)
    ensures addr < top && addr + 8 <= |f| && HasMagic(f, addr)
    ensures Judge(f, addr) == Use(RegionBase(base, sectors, second), RegionBase(base, sectors, !second), sectors,
                                  !HasMagic(f, RegionBase(base, sectors, !second)))
  {
    Unseal(f, base, sectors, second, log);
    MountsDecided(f, base, sectors, second, log);
    StopsAt(f, base, sectors, top, addr);
    Judged(f, base, sectors, second, addr);
  }

  lemma {:induction false} PrepareCounts(b: nat, size: nat, log: Log, name: Image, c: Context)
    requires var j := ValueIndex(log, name);
             var extra := if j < |log| then log[j].Space() else 0;
             && c.compactable >= extra
             && At(b, log, c, Consumed(log, name)) && b <= c.addr <= b + size + 8
             && Counted(log, START, c.(compactable := c.compactable - extra), 0, if j < |log| then j + 1 else |log|)
    ensures Prepared(b, size, log, name, c)
  {
  }

  /** The first half of sysparam_set_data: find the key and its value, compare the value with the
      new one, and count the old value as space that compaction would free. */
  method Examine(f: Image, b: nat, size: nat, name: Image, value: Image, binary: bool, ghost sectors: nat,
                 ghost log: Log)
    returns (keyId: int, oldAddr: nat, same: bool, c: Context)
    requires Region(f, b, sectors, log) && size == sectors * SECTOR && IdsInRange(log)
    ensures keyId == KeyIdOf(log, name)
    ensures var j := ValueIndex(log, name);
            && oldAddr == (if j < |log| then b + 8 + Off(log, j) else 0)
            && (oldAddr == 0 <==> Get(log, name) == None)
    ensures same <==> value != [] && Get(log, name) == Some(Value(value, binary))
    ensures value != [] && !same ==> Prepared(b, size, log, name, c)
  {
    keyId, oldAddr, c := Locate(f, b, size, name, sectors, log);
    GetByIndex(log, name);
    same := false;
    if |value| != 0 {
      if oldAddr != 0 {
        if c.entry.binary == binary && c.entry.len == |value| {
          var payload := ReadPayload(f, c, b, sectors, log, ValueIndex(log, name));
          same := payload == value;
        }
        c := c.(compactable := c.compactable + EntrySize(c.entry.len));
      }
      if !same {
        PrepareCounts(b, size, log, name, c);
      }
    }
  }

  /** The scan of sysparam_init for the end of the entries. */
  method ScanEnd(f: Image, cur: nat, n: nat, ghost b: nat, ghost r: bool, ghost log: Log)
    returns (status: Status, end: nat, truncated: bool)
    ensures status == Ok || status == ErrIo
    ensures Recoverable(f, b, n, r, log) && cur == RegionBase(b, n, r) ==>
              status == Ok && end == cur + 8 + Used(log) && !truncated
  {
    Unseal(f, b, n, r, log);
    RegionIs(f, cur, n, log);
    if Region(f, cur, n, log) {
      RegionIds(f, cur, n, log);
      NoEndMarker(log, false, 0);
    }
    var c;
    status, c, truncated := ScanFor(f, cur, n * SECTOR, START.(addr := cur), ENTRY_ID_END, false, n, log, 0);
    end := c.addr;
  }

  lemma {:induction false} Halves(numSectors: nat, n: nat)
    requires numSectors % 2 == 0 && n == numSectors / 2 && numSectors >= 1
    ensures n >= 1 && 2 * n == numSectors
  {
  }

  lemma {:induction false} KeyIdSign(log: Log, name: Image)
    ensures KeyIdOf(log, name) >= 0 <==> KeyIndex(log, name) < |log|
    ensures KeyIdOf(log, name) >= 0 ==> (Get(log, name) == None <==> Valueless(log, name))
  {
    GetByIndex(log, name);
  }

  class Store {
    var flash: Image
    var curBase: nat
    var altBase: nat
    var endAddr: nat
    var regionSize: nat
    var forceCompact: bool
    var images: seq<Image>

    ghost var base: nat
    ghost var sectors: nat
    ghost var second: bool
    ghost var log: Log

    constructor (image: Image)
      ensures flash == image && images == [image]
      ensures curBase == altBase == endAddr == regionSize == 0 && !forceCompact
    {
      flash, images := image, [image];
      curBase, altBase, endAddr, regionSize, forceCompact := 0, 0, 0, 0, false;
    }

    /** The in-memory state agrees with what init would find in flash. */
    ghost predicate Mounted()
      reads this
    {
      && Recoverable(flash, base, sectors, second, log)
      && curBase == RegionBase(base, sectors, second)
      && altBase == RegionBase(base, sectors, !second)
      && regionSize == sectors * SECTOR
      && endAddr == curBase + 8 + Used(log)
      && (forceCompact ==> endAddr == curBase + regionSize)
    }

    // ------------------------------------------------------ flash operations

    method Write(addr: nat, data: Image)
      requires addr + |data| <= |flash|
      modifies this`flash, this`images
      ensures flash == Program(old(flash), addr, data)
      ensures images == old(images) + [flash]
    {
      flash := Program(flash, addr, data);
      images := images + [flash];
    }

    /** _write_and_verify. */
    method WriteAndVerify(addr: nat, data: Image) returns (status: Status)
      requires addr + |data| <= |flash|
      modifies this`flash, this`images
      ensures flash == Program(old(flash), addr, data)
      ensures images == old(images) + [flash]
      ensures status == if Sticks(old(flash), addr, data) then Ok else ErrIo
    {
      SticksIs(flash, addr, data);
      Write(addr, data);
      status := if flash[addr..addr + |data|] == data then Ok else ErrIo;
    }

    /** The salvage step of _write_entry: a zeroed header reads as a deleted, empty entry. */
    method ZeroHeader(addr: nat) returns (status: Status)
      requires addr + 4 <= |flash|
      modifies this`flash, this`images, this`endAddr
      ensures flash == Program(old(flash), addr, ZEROS) && images == old(images) + [flash]
      ensures status == ErrIo && endAddr == if old(endAddr) == addr then addr + 4 else old(endAddr)
    {
      ZerosStick(flash, addr);
      status := WriteAndVerify(addr, ZEROS);
      if status != Ok {
        return;
      }
      if endAddr == addr {
        endAddr := endAddr + 4;
      }
      status := ErrIo;
    }

    /** _write_entry. `imgs` are the flash images after its programming operations. A header that does not stick is
        salvaged; a payload or a final header that does not stick is reported. */
    method WriteEntry(addr: nat, e: Entry) returns (status: Status, ghost imgs: seq<Image>)
      requires e.Encodable() && addr + e.Space() <= |flash|
      modifies this`flash, this`images, this`endAddr
      ensures images == old(images) + imgs
      ensures var f, moved := old(flash), if old(endAddr) == addr then addr + e.Space() else old(endAddr);
              if !Sticks(f, addr, EncodeHeader(Filled(e).Head())) then
                && status == ErrIo && flash == Program(Write1(f, addr, e), addr, ZEROS)
                && imgs == [Write1(f, addr, e), flash]
                && endAddr == if old(endAddr) == addr then addr + 4 else old(endAddr)
              else if !Sticks(Write1(f, addr, e), addr + 4, e.data) then
                && status == ErrIo && flash == Write2(f, addr, e) && imgs == [Write1(f, addr, e), flash]
                && endAddr == moved
              else
                && flash == Write3(f, addr, e) && imgs == [Write1(f, addr, e), Write2(f, addr, e), flash]
                && endAddr == moved
                && status == if Sticks(Write2(f, addr, e), addr, EncodeHeader(e.Head())) then Ok else ErrIo
    {
      status := WriteAndVerify(addr, EncodeHeader(Filled(e).Head()));
      ghost var first := flash;
      if status == ErrIo {
        status := ZeroHeader(addr);
        imgs := [first, flash];
        return;
      }
      if endAddr == addr {
        endAddr := endAddr + e.Space();
      }
      ghost var rest;
      status, rest := FillEntry(addr, e.data, EncodeHeader(e.Head()));
      imgs := [first] + rest;
    }

    /** The second half of _write_entry: the payload, and then the header that makes it valid. */
    method FillEntry(addr: nat, data: Image, header: Image) returns (status: Status, ghost imgs: seq<Image>)
      requires |header| == 4 && addr + 4 + |data| <= |flash|
      modifies this`flash, this`images
      ensures images == old(images) + imgs
      ensures var f1 := old(flash);
              var f2 := Program(f1, addr + 4, data);
              if !Sticks(f1, addr + 4, data) then status == ErrIo && flash == f2 && imgs == [flash]
              else
                && flash == Program(f2, addr, header) && imgs == [f2, flash]
                && status == if Sticks(f2, addr, header) then Ok else ErrIo
    {
      status := WriteAndVerify(addr + 4, data);
      imgs := [flash];
      if status != Ok {
        return;
      }
      status := WriteAndVerify(addr, header);
      imgs := imgs + [flash];
    }

    /** _write_entry with room behind the entries `out` of the region at `b`. */
    method WriteAt(addr: nat, e: Entry, ghost b: nat, ghost out: Log) returns (status: Status, ghost imgs: seq<Image>)
      requires RoomFor(flash, b, sectors, out, addr, e) && e.Encodable() && e.Live()
      modifies this`flash, this`images, this`endAddr
      ensures status == Ok && images == old(images) + imgs
      ensures WroteEntry(old(flash), imgs, b, sectors, out, e) && imgs[2] == flash
      ensures endAddr == if old(endAddr) == addr then addr + e.Space() else old(endAddr)
    {
      WritesEntry(flash, b, sectors, out, addr, e);
      status, imgs := WriteEntry(addr, e);
    }

    /** _write_entry at the end of the mounted region. */
    method Append(e: Entry) returns (status: Status, ghost imgs: seq<Image>)
      requires Mounted() && e.Encodable() && e.Live()
      requires endAddr + e.Space() <= curBase + regionSize
      modifies this`flash, this`images, this`endAddr, this`log
      ensures Mounted() && status == Ok && log == old(log) + [e]
      ensures images == old(images) + imgs && |imgs| == 3 && imgs[2] == flash
      ensures Recoverable(imgs[0], base, sectors, second, old(log) + [Begun(e)])
      ensures Recoverable(imgs[1], base, sectors, second, old(log) + [Filled(e)])
    {
      ghost var f := flash;
      Unseal(f, base, sectors, second, log);
      RegionIs(f, curBase, sectors, log);
      status, imgs := WriteAt(endAddr, e, curBase, log);
      AppendMounts(f, imgs, base, sectors, second, log, e);
      UsedPush(log, e);
      log := log + [e];
    }

    /** _delete_entry on entry `i` of the mounted region. */
    method DeleteEntry(addr: nat, ghost i: nat)
      requires Mounted() && i < |log| && addr == curBase + 8 + Off(log, i)
      modifies this`flash, this`images, this`log
      ensures Mounted() && log == Kill(old(log), i)
      ensures images == old(images) + [flash]
    {
      ghost var f := flash;
      RegionMounted(f, base, sectors, second, log);
      var h := ReadHeader(flash, addr, curBase, sectors, log, i);
      Write(addr, EncodeHeader(h.(alive := false)));
      Deletes(f, flash, base, sectors, second, log, i);
      log := Kill(log, i);
    }

    /** _format_region. Erasing past the end of the flash is an error. */
    method FormatRegion(addr: nat, n: nat) returns (status: Status)
      modifies this`flash, this`images
      ensures |flash| == |old(flash)| && (status == Ok || status == ErrIo)
      ensures status == Ok && n >= 1 ==> (addr / SECTOR + n) * SECTOR <= |flash|
      ensures InFlash(old(flash), addr, n) ==> status == Ok && Formatted(old(flash), flash, addr, n)
      ensures InFlash(old(flash), addr, n) ==>
                && |images| == |old(images)| + n && images[..|old(images)|] == old(images)
                && forall k :: |old(images)| <= k < |images| ==> Formatting(old(flash), images[k], addr, n)
    {
      var sector := addr / SECTOR;
      var i := 0;
      while i < n
        invariant 0 <= i <= n && |flash| == |old(flash)|
        invariant i >= 1 ==> (sector + i) * SECTOR <= |flash|
        invariant InFlash(old(flash), addr, n) ==>
                    SameOutside(old(flash), flash, addr, addr + n * SECTOR) && ErasedAt(flash, addr, addr + i * SECTOR)
        invariant |images| == |old(images)| + i && images[..|old(images)|] == old(images)
        invariant InFlash(old(flash), addr, n) ==>
                    forall k :: |old(images)| <= k < |images| ==> Formatting(old(flash), images[k], addr, n)
      {
        if (sector + i + 1) * SECTOR > |flash| {
          return ErrIo;
        }
        assert InFlash(old(flash), addr, n) ==> (sector + i) * SECTOR == addr + i * SECTOR;
        flash := EraseSector(flash, sector + i);
        images := images + [flash];
        i := i + 1;
      }
      status := Ok;
    }

    /** _write_region_header. */
    method WriteRegionHeader(addr: nat, other: nat, active: bool) returns (status: Status)
      requires addr + 8 <= |flash|
      modifies this`flash, this`images
      ensures |flash| == |old(flash)| && (status == Ok || status == ErrIo)
      ensures var h := HeaderFor(addr, other, active);
              var g := Program(old(flash), addr, h);
              if g[addr..addr + 8] == h then status == Ok && flash == g && images == old(images) + [flash]
              else status == ErrIo && flash == Program(g, addr, ZEROS + ZEROS) && images == old(images) + [g, flash]
    {
      var h := HeaderFor(addr, other, active);
      SticksIs(flash, addr, h);
      status := WriteAndVerify(addr, h);
      if status != Ok {
        var zeroed := WriteAndVerify(addr, ZEROS + ZEROS);
        status := ErrIo;
      }
    }

    // ------------------------------------------------------------ compaction

    /** One entry copied into the alternate region. */
    method CopyEntry(addr: nat, e: Entry, ghost out: Log) returns (status: Status, ghost imgs: seq<Image>)
      requires Copying(flash, base, sectors, second, log, out)
      requires altBase == RegionBase(base, sectors, !second) && addr == altBase + 8 + Used(out)
      requires e.Encodable() && e.Live() && Used(out) + e.Space() <= sectors * SECTOR - 8
      requires Addresses() && endAddr == curBase + 8 + Used(log)
      modifies this`flash, this`images, this`endAddr
      ensures status == Ok && endAddr == old(endAddr)
      ensures Copying(flash, base, sectors, second, log, out + [e])
      ensures images == old(images) + imgs && AllMount(imgs, base, sectors, second, log)
    {
      ghost var f := flash;
      CopyRegions(f, base, sectors, second, log, out);
      EndElsewhere(addr);
      status, imgs := WriteAt(addr, e, altBase, out);
      CopyImages(f, imgs, base, sectors, second, log, out, e);
    }

    /** First half of the switch in _compact_params: the copy becomes active too. */
    method ActivateCopy(ghost out: Log) returns (status: Status)
      requires Addresses() && Copying(flash, base, sectors, second, log, out)
      modifies this`flash, this`images
      ensures status == Ok && images == old(images) + [flash]
      ensures ActiveRegion(flash, base, sectors, second, log) && ActiveRegion(flash, base, sectors, !second, out)
      ensures Either(flash, base, sectors, second, log, out)
    {
      ActivateStep(flash, base, sectors, second, log, out);
      HeaderForRegion(base, sectors, !second, true);
      status := WriteRegionHeader(altBase, curBase, true);
      Unseal(flash, base, sectors, false, if second then out else log);
    }

    /** Second half: the old region is retired and the copy becomes the mounted region. */
    method RetireOld(addr: nat, ghost out: Log) returns (status: Status)
      requires Addresses() && addr == altBase + 8 + Used(out)
      requires ActiveRegion(flash, base, sectors, second, log) && ActiveRegion(flash, base, sectors, !second, out)
      modifies this
      ensures Mounted() && status == Ok && !forceCompact && endAddr == addr
      ensures base == old(base) && sectors == old(sectors) && second == !old(second) && log == out
      ensures images == old(images) + [flash]
    {
      RetireStep(flash, base, sectors, second, log, out);
      HeaderForRegion(base, sectors, second, false);
      status := WriteRegionHeader(curBase, altBase, false);
      Unseal(flash, base, sectors, !second, out);
      altBase, curBase := curBase, altBase;
      endAddr := addr;
      forceCompact := false;
      second, log := !second, out;
    }

    /** What _compact_params writes for one key and its value. */
    method CopyPair(addr: nat, newId: nat, kid: int, id: nat, key: Image, value: Value, ghost out: Log, ghost next: Log,
                    ghost newKid': int)
      returns (end: nat, newKid: int, ghost imgs: seq<Image>)
      requires Addresses() && endAddr == curBase + 8 + Used(log)
      requires Copying(flash, base, sectors, second, log, out) && addr == altBase + 8 + Used(out)
      requires PairCopied(sectors, out, next, newId, kid, newKid', id, key, value)
      modifies this`flash, this`images, this`endAddr
      ensures endAddr == old(endAddr) && Copying(flash, base, sectors, second, log, next)
      ensures end == altBase + 8 + Used(next) && newKid == newKid'
      ensures images == old(images) + imgs && AllMount(imgs, base, sectors, second, log)
    {
      var k, v := KeyEntry(newId, key), ValueEntry(newId, value);
      PairCopiedIs(sectors, out, next, newId, kid, newKid', id, key, value);
      UsedPush(out, k);
      UsedPush(out + [k], v);
      var status;
      status, imgs := CopyEntry(addr, k, out);
      end, newKid := addr + EntrySize(|key|), kid;
      if id == kid {
        newKid := newId;
        return;
      }
      ghost var more;
      status, more := CopyEntry(end, v, out + [k]);
      end := end + EntrySize(|value.data|);
      imgs := imgs + more;
    }

    /** The end of the mounted log never lies where the copy is being written. */
    lemma {:induction false} EndElsewhere(addr: nat)
      requires Addresses() && endAddr == curBase + 8 + Used(log)
      requires Layout(flash, base, sectors) && Region(flash, curBase, sectors, log)
      requires altBase + 8 <= addr < altBase + sectors * SECTOR
      ensures endAddr != addr
    {
    }

    /** _compact_params begins by erasing the alternate region, sector by sector. */
    method StartCopy() returns (ghost imgs: seq<Image>)
      requires Mounted()
      modifies this`flash, this`images
      ensures Copying(flash, base, sectors, second, log, [])
      ensures images == old(images) + imgs && AllMount(imgs, base, sectors, second, log)
    {
      var status;
      status, imgs := EraseAlt(altBase, regionSize / SECTOR, base, sectors, second, log);
    }

    /** Erasing the region that is not mounted. */
    method EraseAlt(addr: nat, n: nat, ghost b: nat, ghost sn: nat, ghost r: bool, ghost l: Log)
      returns (status: Status, ghost imgs: seq<Image>)
      modifies this`flash, this`images
      ensures |flash| == |old(flash)| && (status == Ok || status == ErrIo)
      ensures Recoverable(old(flash), b, sn, r, l) && addr == RegionBase(b, sn, !r) && n == sn ==>
                && status == Ok && Copying(flash, b, sn, r, l, [])
                && images == old(images) + imgs && AllMount(imgs, b, sn, r, l)
    {
      ghost var f := flash;
      status := FormatRegion(addr, n);
      imgs := images[if |old(images)| <= |images| then |old(images)| else 0..];
      if Recoverable(f, b, sn, r, l) && addr == RegionBase(b, sn, !r) && n == sn {
        Unseal(f, b, sn, r, l);
        CopyStart(f, flash, b, sn, r, l);
        assert images == old(images) + imgs;
        forall g | g in imgs ensures Recoverable(g, b, sn, r, l) {
          assert Formatting(f, g, addr, n);
          ErasingMounts(f, g, b, sn, r, l);
          Unseal(g, b, sn, r, l);
        }
      }
    }

    /** The copy loop of _compact_params. */
    method CopyPairs(keyId: int) returns (addr: nat, count: nat, kid: int, ghost imgs: seq<Image>)
      requires Addresses() && Clean(log) && endAddr == curBase + 8 + Used(log)
      requires Copying(flash, base, sectors, second, log, [])
      modifies this`flash, this`images, this`endAddr
      ensures endAddr == old(endAddr)
      ensures Copying(flash, base, sectors, second, log, Compacted(log, keyId))
      ensures addr == altBase + 8 + Used(Compacted(log, keyId))
      ensures count == |Pairs(log, |log|)| && kid == NewId(Pairs(log, |log|), keyId)
      ensures images == old(images) + imgs && AllMount(imgs, base, sectors, second, log)
    {
      var c, done := Context(curBase, NO_ENTRY, 0, 0, 0), false;
      addr, count, kid, imgs := altBase + REGION_HEADER_SIZE, 0, keyId, [];
      ghost var p: nat, out: Log := 0, [];
      EmittedIs(log, 0, keyId, [], 0, keyId);
      while !done
        invariant p <= |log| && (!done ==> At(curBase, log, c, p) && curBase <= c.addr <= curBase + regionSize + 8)
        invariant CopyState(p, keyId, out, addr, count, kid) && (done ==> p == |log|)
        invariant endAddr == old(endAddr)
        invariant images == old(images) + imgs && AllMount(imgs, base, sectors, second, log)
        decreases !done, |log| - p
      {
        done, c, addr, count, kid, p, imgs, out := CopyTurn(c, addr, count, kid, keyId, p, old(images), imgs, out);
      }
      EmittedIs(log, |log|, keyId, out, count, kid);
    }

    /** One turn of the copy loop: the next pair, or the end of the pairs. */
    method CopyTurn(c: Context, addr: nat, count: nat, kid: int, ghost keyId: int, ghost p: nat,
                    ghost start: seq<Image>, ghost before: seq<Image>, ghost out: Log)
      returns (done: bool, c': Context, end: nat, count': nat, kid': int,
               ghost p': nat, ghost imgs: seq<Image>, ghost out': Log)
      requires Addresses() && Clean(log) && endAddr == curBase + 8 + Used(log)
      requires p <= |log| && At(curBase, log, c, p) && curBase <= c.addr <= curBase + regionSize + 8
      requires CopyState(p, keyId, out, addr, count, kid)
      requires images == start + before && AllMount(before, base, sectors, second, log)
      modifies this`flash, this`images, this`endAddr
      ensures endAddr == old(endAddr)
      ensures p <= p' <= |log| && CopyState(p', keyId, out', end, count', kid')
      ensures done ==> p' == |log|
      ensures !done ==> p < p' && At(curBase, log, c', p') && curBase <= c'.addr <= curBase + regionSize + 8
      ensures images == start + imgs
      ensures AllMount(imgs, base, sectors, second, log)
    {
      var status, key, value;
      CopyRegions(flash, base, sectors, second, log, out);
      status, c', key, value := IterNext(flash, curBase, regionSize, c, sectors, log, p);
      if status != Ok {
        EmitsNoMore(log, p, keyId, out, count, kid);
        done, end, count', kid', p', imgs, out' := true, addr, count, kid, |log|, before, out;
        return;
      }
      done, p' := false, NextUsed(log, p) + 1;
      end, count', kid', imgs, out' :=
          CopyNext(addr, count, kid, c'.entry.id, key, value, keyId, p, start, before, out);
    }

    /** The copy after the keys among the first `p` entries. */
    ghost predicate CopyState(p: nat, keyId: int, out: Log, addr: nat, count: nat, kid: int)
      requires p <= |log|
      reads this
    {
      && Copying(flash, base, sectors, second, log, out) && addr == altBase + 8 + Used(out)
      && Emitted(log, p, keyId, out, count, kid)
    }

    /** The entries written for the next pair. */
    method CopyNext(addr: nat, count: nat, kid: int, id: nat, key: Image, value: Value, ghost keyId: int, ghost p: nat,
                    ghost start: seq<Image>, ghost before: seq<Image>, ghost out: Log)
      returns (end: nat, count': nat, kid': int, ghost imgs: seq<Image>, ghost out': Log)
      requires Addresses() && Clean(log) && endAddr == curBase + 8 + Used(log)
      requires p <= |log| && NextUsed(log, p) < |log| && Pair(key, id, value) == PairAt(log, NextUsed(log, p))
      requires CopyState(p, keyId, out, addr, count, kid)
      requires images == start + before && AllMount(before, base, sectors, second, log)
      modifies this`flash, this`images, this`endAddr
      ensures endAddr == old(endAddr)
      ensures CopyState(NextUsed(log, p) + 1, keyId, out', end, count', kid')
      ensures images == start + imgs
      ensures AllMount(imgs, base, sectors, second, log)
    {
      CopyRegions(flash, base, sectors, second, log, out);
      ghost var kidNext, more;
      out', kidNext := EmitsNext(flash, curBase, sectors, log, p, keyId, out, count, kid);
      count' := count + 1;
      end, kid', more := CopyPair(addr, count', kid, id, key, value, out, out', kidNext);
      AllMountConcat(before, more, base, sectors, second, log);
      ImagesAssoc(start, before, more);
      imgs := before + more;
    }

    /** _compact_params up to the switch. */
    method MakeCopy(keyId: int) returns (addr: nat, count: nat, kid: int, ghost imgs: seq<Image>)
      requires Mounted() && Clean(log)
      modifies this`flash, this`images, this`endAddr
      ensures endAddr == old(endAddr)
      ensures Copying(flash, base, sectors, second, log, Compacted(log, keyId))
      ensures addr == altBase + 8 + Used(Compacted(log, keyId))
      ensures count == |Pairs(log, |log|)| && kid == NewId(Pairs(log, |log|), keyId)
      ensures images == old(images) + imgs && AllMount(imgs, base, sectors, second, log)
    {
      ghost var first := StartCopy();
      addr, count, kid, imgs := CopyPairs(keyId);
      AllMountConcat(first, imgs, base, sectors, second, log);
      imgs := first + imgs;
    }

    /** The end of _compact_params: activate the copy, retire the old region, use the new one. */
    method SwitchTo(addr: nat, ghost out: Log) returns (status: Status, ghost imgs: seq<Image>)
      requires Addresses() && Copying(flash, base, sectors, second, log, out) && addr == altBase + 8 + Used(out)
      modifies this
      ensures Mounted() && status == Ok && !forceCompact && endAddr == addr
      ensures base == old(base) && sectors == old(sectors) && second == !old(second) && log == out
      ensures images == old(images) + imgs
      ensures forall g :: g in imgs ==> Either(g, base, sectors, old(second), old(log), out)
    {
      status := ActivateCopy(out);
      ghost var both := flash;
      status := RetireOld(addr, out);
      imgs := [both, flash];
    }

    /** _compact_params: the value of `keyId` is left out, and `kid` is that key's new id. */
    method Compact(keyId: int) returns (status: Status, c: Context, kid: int, ghost imgs: seq<Image>)
      requires Mounted() && Clean(log)
      modifies this
      ensures Mounted() && status == Ok && !forceCompact
      ensures base == old(base) && sectors == old(sectors) && second == !old(second)
      ensures log == Compacted(old(log), keyId)
      ensures c == Context(endAddr, NO_ENTRY, 0, 0, |Pairs(old(log), |old(log)|)|)
      ensures kid == NewId(Pairs(old(log), |old(log)|), keyId)
      ensures images == old(images) + imgs
      ensures forall g :: g in imgs ==> Either(g, base, sectors, old(second), old(log), log)
    {
      var addr, count;
      addr, count, kid, imgs := MakeCopy(keyId);
      ghost var last;
      status, last := SwitchTo(addr, Compacted(log, keyId));
      c := Context(addr, NO_ENTRY, 0, 0, count);
      imgs := imgs + last;
    }

    // --------------------------------------------------------------- setting

    /** Compaction on behalf of a set of `name`. */
    method CompactFor(name: Image, keyId: int, ghost v: Option<Value>)
      returns (status: Status, c: Context, kid: int, ghost imgs: seq<Image>)
      requires Mounted() && Clean(log) && keyId == KeyIdOf(log, name)
      modifies this
      ensures Mounted() && Clean(log) && status == Ok && !forceCompact
      ensures base == old(base) && sectors == old(sectors) && log == Compacted(old(log), keyId)
      ensures Sets(old(log), log, name, None)
      ensures c.unusedKeys == 0 && c.maxKeyId == |Pairs(old(log), |old(log)|)|
      ensures kid == NewId(Pairs(old(log), |old(log)|), keyId)
      ensures images == old(images) + imgs && AllSurvive(imgs, base, sectors, old(log), name, v, true)
    {
      CompactSets(log, name);
      status, c, kid, imgs := Compact(keyId);
      forall g | g in imgs ensures Survives(g, base, sectors, old(log), name, v, true) {
        EitherSurvives(g, base, sectors, old(second), old(log), log, name, v);
      }
    }

    /** Make space for a set: compact when the append does not fit and compacting may help. */
    method MakeSpace(name: Image, c0: Context, keyId: int, needed: nat, ghost v: Option<Value>)
      returns (c: Context, kid: int, compacted: bool, ghost imgs: seq<Image>)
      requires Mounted() && Clean(log) && keyId == KeyIdOf(log, name)
      requires Prepared(curBase, regionSize, log, name, c0)
      modifies this
      ensures Mounted() && Clean(log) && base == old(base) && sectors == old(sectors) && regionSize == old(regionSize)
      ensures images == old(images) + imgs && AllSurvive(imgs, base, sectors, old(log), name, v, compacted)
      ensures !compacted ==> log == old(log) && curBase == old(curBase) && kid == keyId && imgs == []
                             && (keyId < 0 ==> Totals(log, name, c))
      ensures compacted ==>
                && log == Compacted(old(log), keyId) && Sets(old(log), log, name, None)
                && kid == NewId(Pairs(old(log), |old(log)|), keyId)
                && c.unusedKeys == 0 && c.maxKeyId == |Pairs(old(log), |old(log)|)|
                && 8 + Used(old(log)) + needed > regionSize
      ensures 8 + Used(log) + needed > regionSize ==>
                8 + Used(old(log)) + needed > regionSize + Reclaimable(old(log), name)
      ensures 8 + Used(log) + needed > regionSize ==> compacted == Unused(old(log))
      ensures !compacted && 8 + Used(log) + needed > regionSize ==> !Valueless(log, name)
    {
      imgs, compacted, kid, c := [], false, keyId, c0;
      var free := curBase + regionSize - endAddr;
      if needed > free {
        var truncated;
        Unseal(flash, base, sectors, second, log);
        c, truncated := CountAll(flash, curBase, regionSize, c, name, sectors, log);
        forceCompact := forceCompact || truncated;
        Gains(log, name, c);
        if needed <= free + c.compactable || c.unusedKeys > 0 {
          var status;
          status, c, kid, imgs := CompactFor(name, keyId, v);
          compacted := true;
        }
      } else if keyId < 0 {
        PreparedTotals(curBase, regionSize, log, name, c);
      }
    }

    /** Make an id available for a new key: compact when the largest id is in use but some
        keys are unused. */
    method MakeId(name: Image, c0: Context, needed: nat, ghost v: Option<Value>)
      returns (status: Status, maxKeyId: nat, compacted: bool, ghost imgs: seq<Image>)
      requires Mounted() && Clean(log) && KeyIndex(log, name) == |log|
      requires 8 + Used(log) + needed <= regionSize
      requires c0.unusedKeys > 0 ==> Totals(log, name, c0)
      requires KeysUpTo(log, c0.maxKeyId)
      modifies this
      ensures Mounted() && Clean(log) && base == old(base) && sectors == old(sectors) && regionSize == old(regionSize)
      ensures images == old(images) + imgs && AllSurvive(imgs, base, sectors, old(log), name, v, compacted)
      ensures 8 + Used(log) + needed <= regionSize
      ensures !compacted ==> log == old(log) && imgs == []
      ensures compacted ==> c0.unusedKeys > 0 && log == Compacted(old(log), -1) && Sets(old(log), log, name, None)
      ensures KeyIndex(log, name) == |log|
      ensures compacted || status == ErrFull ==> c0.maxKeyId >= MAX_KEY_ID
      ensures status == Ok || (status == ErrFull && !compacted)
      ensures maxKeyId == if compacted then |Pairs(old(log), |old(log)|)| else c0.maxKeyId
      ensures status == ErrFull <==> c0.maxKeyId >= MAX_KEY_ID && c0.unusedKeys <= 0
      ensures status == Ok ==>
                maxKeyId < MAX_KEY_ID && KeysUpTo(log, maxKeyId)
    {
      imgs, compacted, status, maxKeyId := [], false, Ok, c0.maxKeyId;
      if c0.maxKeyId >= MAX_KEY_ID {
        if c0.unusedKeys > 0 {
          Reclaims(name);
          UnusedKeys(log);
          IdsBelow(log, name);
          StillAbsent(log, name);
          var c, kid;
          status, c, kid, imgs := CompactFor(name, -1, v);
          compacted, maxKeyId := true, c.maxKeyId;
          KeysUpToIs(log, maxKeyId);
        } else {
          status := ErrFull;
        }
      }
    }

    /** Append one entry during a set; every image on the way has an admissible outcome. */
    method AppendSurviving(e: Entry, ghost pre: Log, ghost name: Image, ghost v: Option<Value>, ghost compacted: bool)
      returns (ghost imgs: seq<Image>)
      requires Mounted() && Clean(log) && e.Encodable() && e.Live()
      requires endAddr + e.Space() <= curBase + regionSize
      requires Linked(pre, log, name, compacted) && Outcome(pre, log + [e], name, v, compacted)
      modifies this`flash, this`images, this`endAddr, this`log
      ensures Mounted() && log == old(log) + [e]
      ensures images == old(images) + imgs && AllSurvive(imgs, base, sectors, pre, name, v, compacted)
    {
      var status;
      status, imgs := Append(e);
      AppendedSurvive(imgs, base, sectors, second, old(log), e, pre, name, v, compacted);
    }

    /** The key entry of a new key. */
    method StoreKey(name: Image, id: nat, ghost pre: Log, ghost v: Option<Value>, ghost compacted: bool)
      returns (ghost imgs: seq<Image>)
      requires Mounted() && Clean(log) && KeyIndex(log, name) == |log| && |name| <= MAX_KEY_LEN && 1 <= id <= MAX_KEY_ID
      requires KeysUpTo(log, id - 1)
      requires endAddr + EntrySize(|name|) <= curBase + regionSize
      requires Linked(pre, log, name, compacted)
      modifies this`flash, this`images, this`endAddr, this`log
      ensures Mounted() && Clean(log) && endAddr == old(endAddr) + EntrySize(|name|)
      ensures log == old(log) + [KeyEntry(id, name)]
      ensures KeyIndex(log, name) < |log| && KeyIdOf(log, name) == id && Vacant(log, id)
      ensures Linked(pre, log, name, compacted)
      ensures images == old(images) + imgs && AllSurvive(imgs, base, sectors, pre, name, v, compacted)
    {
      var e := KeyEntry(id, name);
      KeysUpToIs(log, id - 1);
      AddKey(log, name, id);
      LinkedOutcome(pre, log, log + [e], name, v, compacted);
      UsedPush(log, e);
      imgs := AppendSurviving(e, pre, name, v, compacted);
    }

    /** The value entry, and the deletion of the old one if there is one. */
    method StoreValue(name: Image, kid: nat, v: Value, oldAddr: nat, ghost pre: Log, ghost was: bool)
      returns (ghost imgs: seq<Image>)
      requires Mounted() && Clean(log) && Clean(pre) && |v.data| <= MAX_VALUE_LEN
      requires 8 + Used(log) + EntrySize(|v.data|) <= regionSize
      requires ValuePlan(pre, log, name, kid, was)
      requires oldAddr == if ValueIndex(log, name) < |log| then curBase + 8 + Off(log, ValueIndex(log, name)) else 0
      modifies this`flash, this`images, this`endAddr, this`log
      ensures Mounted()
      ensures images == old(images) + imgs && AllSurvive(imgs, base, sectors, pre, name, Some(v), was)
      ensures if Valueless(pre, name) && was then Sets(pre, log, name, None)
              else Clean(log) && Sets(pre, log, name, Some(v))
      ensures var log', j := old(log) + [ValueEntry(kid, v)], ValueIndex(old(log), name);
              log == if j < |old(log)| then Kill(log', j) else log'
    {
      ghost var log0, j := log, ValueIndex(log, name);
      var e := ValueEntry(kid, v);
      ValueOutcome(pre, log0, name, kid, v, was);
      imgs := AppendSurviving(e, pre, name, Some(v), was);
      if oldAddr != 0 {
        OffSame(log0, log, j);
        DeleteEntry(oldAddr, j);
        OneSurvives(flash, base, sectors, second, log, pre, name, Some(v), was);
        imgs := imgs + [flash];
      }
    }

    /** Both entries of a new key. */
    method StorePair(name: Image, id: nat, v: Value, ghost pre: Log, ghost compacted: bool)
      returns (ghost imgs: seq<Image>)
      requires Mounted() && Clean(log) && Clean(pre) && 1 <= |name| <= MAX_KEY_LEN && |v.data| <= MAX_VALUE_LEN
      requires KeyIndex(log, name) == |log| && KeyIndex(pre, name) == |pre|
      requires 1 <= id <= MAX_KEY_ID && KeysUpTo(log, id - 1)
      requires 8 + Used(log) + EntrySize(|name|) + EntrySize(|v.data|) <= regionSize
      requires Linked(pre, log, name, compacted)
      modifies this`flash, this`images, this`endAddr, this`log
      ensures Mounted() && Clean(log) && Sets(pre, log, name, Some(v))
      ensures log == Pushed(old(log), id, name, v)
      ensures images == old(images) + imgs && AllSurvive(imgs, base, sectors, pre, name, Some(v), compacted)
    {
      PushedIs(log, id, name, v);
      imgs := StoreKey(name, id, pre, Some(v), compacted);
      NoValue(log, name);
      ghost var more := StoreValue(name, id, v, 0, pre, compacted);
      AllSurviveConcat(imgs, more, base, sectors, pre, name, Some(v), compacted);
      imgs := imgs + more;
    }

    /** The rest of a set of a new key, once its entries fit. */
    method PutNew(name: Image, v: Value, c: Context, ghost pre: Log, ghost was: bool)
      returns (status: Status, ghost imgs: seq<Image>, compacted: bool)
      requires Mounted() && Clean(log) && Clean(pre) && 1 <= |name| <= MAX_KEY_LEN
      requires KeyIndex(log, name) == |log| && KeyIndex(pre, name) == |pre|
      requires |v.data| <= MAX_VALUE_LEN && 8 + Used(log) + EntrySize(|name|) + EntrySize(|v.data|) <= regionSize
      requires if was then c.unusedKeys == 0 && Sets(pre, log, name, None) else log == pre && Totals(log, name, c)
      requires KeysUpTo(log, c.maxKeyId)
      modifies this
      ensures Mounted() && Clean(log) && base == old(base) && sectors == old(sectors) && regionSize == old(regionSize)
      ensures images == old(images) + imgs && AllSurvive(imgs, base, sectors, pre, name, Some(v), was || compacted)
      ensures status == Ok ==> Sets(pre, log, name, Some(v))
      ensures status == Ok || (status == ErrFull && !compacted && log == old(log))
      ensures compacted || status == ErrFull ==> c.maxKeyId >= MAX_KEY_ID
      ensures compacted ==> !was
      ensures status == ErrFull <==> c.maxKeyId >= MAX_KEY_ID && c.unusedKeys <= 0
      ensures status == Ok ==>
                log == if compacted then Pushed(Compacted(old(log), -1), |Pairs(old(log), |old(log)|)| + 1, name, v)
                       else Pushed(old(log), c.maxKeyId + 1, name, v)
    {
      var maxKeyId;
      status, maxKeyId, compacted, imgs := MakeId(name, c, EntrySize(|name|) + EntrySize(|v.data|), Some(v));
      if status != Ok {
        return;
      }
      LinkedAfter(pre, old(log), log, name, was, compacted);
      ghost var more := StorePair(name, maxKeyId + 1, v, pre, was || compacted);
      AllSurviveConcat(imgs, more, base, sectors, pre, name, Some(v), was || compacted);
      imgs := imgs + more;
    }

    /** sysparam_set_data with an empty value: delete the value if there is one. */
    method Remove(name: Image, oldAddr: nat) returns (ghost imgs: seq<Image>)
      requires Mounted() && Clean(log) && ValueIndex(log, name) < |log|
      requires oldAddr == curBase + 8 + Off(log, ValueIndex(log, name))
      modifies this`flash, this`images, this`log
      ensures Mounted() && Clean(log) && Sets(old(log), log, name, None)
      ensures log == Kill(old(log), ValueIndex(old(log), name))
      ensures images == old(images) + imgs && AllSurvive(imgs, base, sectors, old(log), name, None, false)
    {
      DropValue(log, name);
      DeleteEntry(oldAddr, ValueIndex(log, name));
      OneSurvives(flash, base, sectors, second, log, old(log), name, None, false);
      imgs := [flash];
    }

    /** sysparam_set_data with a value that differs from the stored one. */
    method Put(name: Image, v: Value, keyId: int, oldAddr: nat, c0: Context)
      returns (status: Status, ghost imgs: seq<Image>, compacted: bool)
      requires Mounted() && Clean(log) && 1 <= |name| <= MAX_KEY_LEN && |v.data| <= MAX_VALUE_LEN
      requires keyId == KeyIdOf(log, name) && Prepared(curBase, regionSize, log, name, c0)
      requires oldAddr == if ValueIndex(log, name) < |log| then curBase + 8 + Off(log, ValueIndex(log, name)) else 0
      modifies this
      ensures Mounted() && base == old(base) && sectors == old(sectors) && regionSize == old(regionSize)
      ensures images == old(images) + imgs && AllSurvive(imgs, base, sectors, old(log), name, Some(v), compacted)
      ensures SetResult(old(log), log, name, v, regionSize, status, compacted)
    {
      var needed := EntrySize(|v.data|) + (if keyId < 0 then EntrySize(|name|) else 0);
      var c, kid;
      KeyIdSign(log, name);
      c, kid, compacted, imgs := MakeSpace(name, c0, keyId, needed, Some(v));
      FullIs(old(log), log, name, |v.data|, regionSize, compacted);
      if needed > curBase + regionSize - endAddr {
        status := ErrFull;
        FullResult(old(log), log, name, v, regionSize, compacted);
        return;
      }
      // A forced compaction can only be due in a region that is exactly full.
      assert !forceCompact;
      status, imgs, compacted :=
          PutFitted(name, v, kid, if compacted then 0 else oldAddr, c, old(log), compacted, old(images), imgs);
    }

    /** The rest of Put, once the entries fit; `before` are the images so far. */
    method PutFitted(name: Image, v: Value, kid: int, oldAddr: nat, c: Context, ghost pre: Log, was: bool,
                     ghost start: seq<Image>, ghost before: seq<Image>)
      returns (status: Status, ghost imgs: seq<Image>, compacted: bool)
      requires Mounted() && Clean(log) && Clean(pre) && 1 <= |name| <= MAX_KEY_LEN && |v.data| <= MAX_VALUE_LEN
      requires PutReady(name, v, kid, oldAddr, c, pre, was)
      requires images == start + before && AllSurvive(before, base, sectors, pre, name, Some(v), was)
      modifies this
      ensures Mounted() && base == old(base) && sectors == old(sectors) && regionSize == old(regionSize)
      ensures images == start + imgs && AllSurvive(imgs, base, sectors, pre, name, Some(v), compacted)
      ensures SetResult(pre, log, name, v, regionSize, status, compacted)
    {
      ghost var more, mid := [], log;
      var again;
      PlanAfter(pre, name);
      status, more, again := PutEntries(name, v, kid, oldAddr, c, pre, was);
      DoneResult(pre, mid, log, name, v, regionSize, status, was, again);
      compacted := was || again;
      if compacted != was {
        SurviveAnyway(before, base, sectors, pre, name, Some(v), compacted);
      }
      AllSurviveConcat(before, more, base, sectors, pre, name, Some(v), compacted);
      ImagesAssoc(start, before, more);
      imgs := before + more;
    }

    /** The state from which the entries of a set are written: they fit, behind the original log
        or behind its compaction. */
    ghost predicate PutReady(name: Image, v: Value, kid: int, oldAddr: nat, c: Context, pre: Log, was: bool)
      reads this
    {
      && 8 + Used(log) + Needed(pre, name, |v.data|) <= regionSize && !Full(pre, name, |v.data|, regionSize)
      && (!was ==> log == pre && kid == KeyIdOf(pre, name) && (kid < 0 ==> Totals(log, name, c)))
      && (was ==> log == Compacted(pre, KeyIdOf(pre, name)) && kid == NewId(Pairs(pre, |pre|), KeyIdOf(pre, name))
                  && c.unusedKeys == 0 && c.maxKeyId == |Pairs(pre, |pre|)| && Exceeds(pre, name, |v.data|, regionSize))
      && oldAddr == if !was && ValueIndex(pre, name) < |pre| then curBase + 8 + Off(pre, ValueIndex(pre, name)) else 0
    }

    /** The entries of a set, once they fit. */
    method PutEntries(name: Image, v: Value, kid: int, oldAddr: nat, c: Context, ghost pre: Log, ghost was: bool)
      returns (status: Status, ghost imgs: seq<Image>, again: bool)
      requires Mounted() && Clean(log) && Clean(pre) && 1 <= |name| <= MAX_KEY_LEN && |v.data| <= MAX_VALUE_LEN
      requires PutReady(name, v, kid, oldAddr, c, pre, was)
      modifies this
      ensures Mounted() && base == old(base) && sectors == old(sectors) && regionSize == old(regionSize)
      ensures images == old(images) + imgs && AllSurvive(imgs, base, sectors, pre, name, Some(v), was || again)
      ensures status == Ok ==>
                if was && Valueless(pre, name) then Sets(pre, log, name, None)
                else Clean(log) && Sets(pre, log, name, Some(v))
      ensures status == Ok || (status == ErrFull && log == old(log) && !again && OutOfIds(pre, name))
      ensures again ==> OutOfIds(pre, name)
      ensures !(was && Valueless(pre, name)) ==> log == LogAfter(pre, name, v, status, was || again)
      ensures status == ErrFull ==> NoIds(pre, name)
      ensures Crowded(pre, name) ==> status == ErrFull
    {
      if kid < 0 {
        NewPlan(pre, log, name, v, c, kid, was);
        ghost var mid := log;
        status, imgs, again := PutNew(name, v, c, pre, was);
        NewWritten(pre, mid, name, v, c, was, again);
      } else {
        OldPlan(pre, log, name, v, kid, was);
        imgs := StoreValue(name, kid, v, oldAddr, pre, was);
        status, again := Ok, false;
      }
    }

    /** Examine on the mounted region. */
    method Look(name: Image, value: Image, binary: bool) returns (keyId: int, oldAddr: nat, same: bool, c: Context)
      requires Mounted() && Clean(log)
      ensures keyId == KeyIdOf(log, name)
      ensures oldAddr == if ValueIndex(log, name) < |log| then curBase + 8 + Off(log, ValueIndex(log, name)) else 0
      ensures oldAddr == 0 <==> Get(log, name) == None
      ensures oldAddr != 0 ==> ValueIndex(log, name) < |log|
      ensures same <==> value != [] && Get(log, name) == Some(Value(value, binary))
      ensures value != [] && !same ==> Prepared(curBase, regionSize, log, name, c)
    {
      Unseal(flash, base, sectors, second, log);
      keyId, oldAddr, same, c := Examine(flash, curBase, regionSize, name, value, binary, sectors, log);
    }

    lemma {:induction false} Running()
      requires Mounted()
      ensures curBase != 0 && 8 + Used(log) <= regionSize
    {
      Unseal(flash, base, sectors, second, log);
    }

    /** Whether a set would report success and yet store nothing, as a caller can tell beforehand. */
    method WouldLose(name: Image, value: Image) returns (loses: bool)
      requires Mounted() && Clean(log)
      ensures loses <==> value != [] && Loses(log, name, |value|, regionSize)
    {
      var keyId, oldAddr, same, c := Look(name, value, false);
      loses := |value| != 0 && keyId >= 0 && oldAddr == 0 && EntrySize(|value|) > curBase + regionSize - endAddr;
      KeyIdSign(log, name);
    }

    /** sysparam_set_data. Only the first |key| % 65536 bytes of a key count. */
    method SetData(key: Image, value: Image, binary: bool)
      returns (status: Status, ghost imgs: seq<Image>, ghost compacted: bool)
      requires curBase != 0 ==> Mounted() && Clean(log)
      modifies this
      ensures images == old(images) + imgs
      ensures old(curBase) == 0 ==> status == ErrNoInit && unchanged(this)
      ensures old(curBase) != 0 ==>
                && Mounted() && base == old(base) && sectors == old(sectors) && regionSize == old(regionSize)
                && DataResult(old(log), log, KeyName(key), Value(value, binary), regionSize, status, compacted)
                && AllSurvive(imgs, base, sectors, old(log), KeyName(key), Target(value, binary), compacted)
                && (compacted ==> MayCompact(old(log), key, value, regionSize))
    {
      imgs, compacted := [], false;
      if curBase == 0 {
        return ErrNoInit, imgs, compacted;
      }
      var name := KeyName(key);
      if |name| == 0 || |name| > MAX_KEY_LEN || |value| > MAX_VALUE_LEN {
        return ErrBadValue, imgs, compacted;
      }
      var keyId, oldAddr, same, c := Look(name, value, binary);
      if |value| == 0 {
        if oldAddr == 0 {
          return NotFound, imgs, compacted;
        }
        imgs := Remove(name, oldAddr);
        return Ok, imgs, compacted;
      }
      if same {
        return Ok, imgs, compacted;
      }
      var done;
      status, imgs, done := Put(name, Value(value, binary), keyId, oldAddr, c);
      compacted := done;
    }

    /** sysparam_get_data. */
    method GetData(key: Image) returns (status: Status, value: Value)
      requires curBase != 0 ==> Mounted()
      ensures curBase == 0 ==> status == ErrNoInit
      ensures curBase != 0 ==> (status == Ok || status == NotFound) &&
                               Get(log, KeyName(key)) == if status == Ok then Some(value) else None
    {
      if curBase == 0 {
        return ErrNoInit, Value([], false);
      }
      Unseal(flash, base, sectors, second, log);
      RegionIds(flash, curBase, sectors, log);
      status, value := Lookup(flash, curBase, regionSize, KeyName(key), sectors, log);
    }

    // ------------------------------------------------------------------ boot

    /** The part of sysparam_init that recreates a missing stale region. */
    method Rebuild(cur: nat, alt: nat, n: nat, ghost b: nat, ghost sn: nat, ghost r: bool, ghost l: Log)
      returns (status: Status, ghost imgs: seq<Image>)
      requires alt + 8 <= |flash|
      modifies this`flash, this`images
      ensures |flash| == |old(flash)| && (status == Ok || status == ErrIo)
      ensures Recoverable(old(flash), b, sn, r, l) && cur == RegionBase(b, sn, r) && alt == RegionBase(b, sn, !r)
                && n == sn ==>
                && status == Ok && Recoverable(flash, b, sn, r, l)
                && images == old(images) + imgs && AllMount(imgs, b, sn, r, l)
    {
      status, imgs := EraseAlt(alt, n, b, sn, r, l);
      if status != Ok {
        return;
      }
      CopyingIs(flash, b, sn, r, l, []);
      status := WriteStale(alt, cur, b, sn, r, l);
      imgs := imgs + [flash];
    }

    /** The end of sysparam_init: take the plan's regions and scan for the end of the entries. */
    method FindEnd(cur: nat, alt: nat, n: nat, ghost b: nat, ghost r: bool, ghost l: Log) returns (status: Status)
      modifies this`curBase, this`altBase, this`endAddr, this`regionSize, this`forceCompact,
               this`base, this`sectors, this`second, this`log
      ensures status == Ok || status == ErrIo
      ensures Recoverable(flash, b, n, r, l) && cur == RegionBase(b, n, r) && alt == RegionBase(b, n, !r) ==>
                status == Ok && Mounted() && base == b && sectors == n && second == r && log == l && !forceCompact
    {
      regionSize, curBase, altBase := n * SECTOR, cur, alt;
      endAddr, forceCompact := curBase + regionSize, false;
      base, sectors, second, log := b, n, r, l;
      var end, truncated;
      status, end, truncated := ScanEnd(flash, curBase, n, b, r, l);
      forceCompact := truncated;
      if status != Ok {
        curBase, altBase, endAddr := 0, 0, 0;
        return;
      }
      endAddr := end;
    }

    /** sysparam_init. Total over any flash; from an image that mounts log `l` it succeeds with
        exactly that log, and a power loss on the way changes nothing. */
    method Init(baseAddr: nat, topAddr: nat, ghost b: nat, ghost sn: nat, ghost r: bool, ghost l: Log)
      returns (status: Status, ghost imgs: seq<Image>)
      modifies this
      ensures Bootable(old(flash), baseAddr, topAddr, b, sn, r, l) ==>
                && status == Ok && Mounted() && base == b && sectors == sn && second == r && log == l && !forceCompact
                && images == old(images) + imgs && AllMount(imgs, b, sn, r, l)
      ensures status == NotFound || status == ErrCorrupt ==> unchanged(this)
    {
      imgs := [];
      ghost var boot := Bootable(flash, baseAddr, topAddr, b, sn, r, l);
      var start, top := ScanRange(baseAddr, topAddr).0, ScanRange(baseAddr, topAddr).1;
      var addr;
      status, addr := FindHeader(flash, start, top);
      if boot {
        BootPlan(flash, b, sn, r, l, top, addr);
      }
      if status != Ok {
        return;
      }
      var plan := Judge(flash, addr);
      if plan.GiveUp? {
        return plan.status, imgs;
      }
      if plan.rebuild {
        status, imgs := Rebuild(plan.cur, plan.alt, plan.sectors, b, sn, r, l);
        if status != Ok {
          return;
        }
      }
      status := FindEnd(plan.cur, plan.alt, plan.sectors, b, r, l);
    }

    /** sysparam_create_area. */
    method CreateArea(baseAddr: nat, numSectors: nat, force: bool) returns (status: Status)
      requires numSectors <= 0xffff
      modifies this
      ensures numSectors == 0 || numSectors % 2 == 1 ==> status == ErrBadValue && unchanged(this)
      ensures status == NotFound ==> !force && unchanged(this)
      ensures status == Ok && !force ==> ErasedAt(old(flash), baseAddr, baseAddr + numSectors * SECTOR)
      ensures Layout(old(flash), baseAddr, numSectors / 2) && numSectors % 2 == 0
              && (force || ErasedAt(old(flash), baseAddr, baseAddr + numSectors * SECTOR + 24)) ==>
                && status == Ok && Recoverable(flash, baseAddr, numSectors / 2, false, [])
                && SameOutside(old(flash), flash, baseAddr, baseAddr + numSectors * SECTOR)
      ensures status == Ok && (old(curBase) == baseAddr || old(altBase) == baseAddr) ==> curBase == 0
    {
      if numSectors < 1 || numSectors % 2 == 1 {
        return ErrBadValue;
      }
      var n := numSectors / 2;
      Halves(numSectors, n);
      if !force {
        status := ScanEmpty(flash, baseAddr, 2 * n);
        if status != Ok {
          return;
        }
      }
      if curBase == baseAddr || altBase == baseAddr {
        curBase, altBase, endAddr, regionSize, forceCompact := 0, 0, 0, 0, false;
      }
      status := FormatArea(baseAddr, n);
    }

    /** Both regions formatted and their headers written. */
    method FormatArea(baseAddr: nat, n: nat) returns (status: Status)
      requires n >= 1
      modifies this`flash, this`images
      ensures status == Ok || status == ErrIo
      ensures Layout(old(flash), baseAddr, n) ==>
                && status == Ok && Recoverable(flash, baseAddr, n, false, [])
                && SameOutside(old(flash), flash, baseAddr, baseAddr + 2 * n * SECTOR)
    {
      var size := n * SECTOR;
      status := FormatRegion(baseAddr, n);
      if status != Ok {
        return;
      }
      status := FormatRegion(baseAddr + size, n);
      if status != Ok {
        return;
      }
      status := WriteFirst(baseAddr, baseAddr + size, n);
      if status != Ok {
        return;
      }
      if baseAddr + size + 8 > |flash| {
        return ErrIo;
      }
      status := WriteStale(baseAddr + size, baseAddr, baseAddr, n, false, []);
    }

    /** The header that makes the first region of a new area active. */
    method WriteFirst(cur: nat, alt: nat, ghost n: nat) returns (status: Status)
      requires cur + 8 <= |flash|
      modifies this`flash, this`images
      ensures |flash| == |old(flash)| && (status == Ok || status == ErrIo)
      ensures BlankArea(old(flash), cur, n) && alt == RegionBase(cur, n, true) ==>
                && status == Ok && ActiveRegion(flash, cur, n, false, [])
                && SameOutside(old(flash), flash, cur, cur + 8)
    {
      if BlankArea(flash, cur, n) && alt == RegionBase(cur, n, true) {
        EmptyArea(flash, cur, n);
        HeaderForRegion(cur, n, false, true);
        assert cur == RegionBase(cur, n, false);
      }
      status := WriteRegionHeader(cur, alt, true);
    }

    /** The header of a stale region, written over erased flash. */
    method WriteStale(alt: nat, cur: nat, ghost b: nat, ghost n: nat, ghost r: bool, ghost l: Log)
      returns (status: Status)
      requires alt + 8 <= |flash|
      modifies this`flash, this`images
      ensures |flash| == |old(flash)| && (status == Ok || status == ErrIo)
      ensures ActiveRegion(old(flash), b, n, r, l) && ErasedAt(old(flash), alt, alt + 8)
              && alt == RegionBase(b, n, !r) && cur == RegionBase(b, n, r) ==>
                && status == Ok && Recoverable(flash, b, n, r, l) && images == old(images) + [flash]
                && SameOutside(old(flash), flash, alt, alt + 8)
    {
      if ActiveRegion(flash, b, n, r, l) && ErasedAt(flash, alt, alt + 8) && alt == RegionBase(b, n, !r) {
        StaleHeader(flash, b, n, r, l);
        HeaderForRegion(b, n, !r, false);
      }
      status := WriteRegionHeader(alt, cur, false);
      Unseal(flash, b, n, r, l);
    }

    lemma {:induction false} Reclaims(name: Image)
      requires Clean(log)
      ensures Used(Compacted(log, KeyIdOf(log, name))) + Reclaimable(log, name) <= Used(log)
    {
      CompactedSpace(log, KeyIdOf(log, name));
    }

    /** The addresses in memory, apart from the end of the log. */
    ghost predicate Addresses()
      reads this
    {
      && curBase == RegionBase(base, sectors, second)
      && altBase == RegionBase(base, sectors, !second)
      && regionSize == sectors * SECTOR
    }
  }

  /** Init mounts either the old log or the new one. */
  predicate Either(f: Image, base: nat, sectors: nat, second: bool, log: Log, out: Log) {
    Recoverable(f, base, sectors, second, log) || Recoverable(f, base, sectors, !second, out)
  }

  // --------------------------------------------------------------- power loss

  /** A set cut short after `cut` flash operations, then a reboot. Init always succeeds; every
      other key is untouched, and the key reads old, new, or, only when compaction ran, absent.
      With no cut the reboot recomputes exactly the addresses held in memory. */
  method PowerLoss(s: Store, key: Image, value: Image, binary: bool, cut: nat, baseAddr: nat, topAddr: nat)
    returns (t: Store, status: Status, image: Image, ghost compacted: bool)
    requires s.Mounted() && Clean(s.log)
    requires baseAddr / SECTOR * SECTOR == s.base && topAddr > s.base + s.regionSize
    modifies s
    ensures fresh(t)
    ensures compacted ==> MayCompact(old(s.log), key, value, s.regionSize)
    ensures NoFalseMagic(image, s.base, s.sectors) ==>
              && status == Ok && t.Mounted() && !t.forceCompact
              && Outcome(old(s.log), t.log, KeyName(key), Target(value, binary), compacted)
              && (cut >= |s.images| - |old(s.images)| ==>
                    && t.log == s.log && t.curBase == s.curBase && t.altBase == s.altBase
                    && t.endAddr == s.endAddr && t.regionSize == s.regionSize)
  {
    ghost var r, l;
    image, r, l, compacted := CutSet(s, key, value, binary, cut);
    t := new Store(image);
    ghost var more;
    status, more := t.Init(baseAddr, topAddr, s.base, s.sectors, r, l);
  }

  /** A set, and the flash after its first `cut` operations. */
  method CutSet(s: Store, key: Image, value: Image, binary: bool, cut: nat)
    returns (image: Image, ghost r: bool, ghost l: Log, ghost compacted: bool)
    requires s.Mounted() && Clean(s.log)
    modifies s
    ensures s.Mounted() && s.base == old(s.base) && s.sectors == old(s.sectors) && s.regionSize == old(s.regionSize)
    ensures Recoverable(image, s.base, s.sectors, r, l) && Layout(image, s.base, s.sectors)
    ensures Outcome(old(s.log), l, KeyName(key), Target(value, binary), compacted)
    ensures compacted ==> MayCompact(old(s.log), key, value, s.regionSize)
    ensures cut >= |s.images| - |old(s.images)| ==> r == s.second && l == s.log
  {
    var before, n := s.flash, |s.images|;
    ghost var pre, r0 := s.log, s.second;
    s.Running();
    ghost var imgs;
    var status;
    status, imgs, compacted := s.SetData(key, value, binary);
    r, l := s.second, s.log;
    if cut >= |s.images| - n {
      image := s.flash;
      FinalOutcome(pre, l, KeyName(key), Value(value, binary), s.regionSize, status, compacted);
    } else if cut == 0 {
      image, r, l := before, r0, pre;
    } else {
      image := s.images[n + cut - 1];
      assert image == imgs[cut - 1];
      assert Survives(image, s.base, s.sectors, pre, KeyName(key), Target(value, binary), compacted);
      r, l :| Recoverable(image, s.base, s.sectors, r, l)
          && Outcome(pre, l, KeyName(key), Target(value, binary), compacted);
    }
    LaidOut(image, s.base, s.sectors, r, l);
  }

  lemma {:induction false} LaidOut(f: Image, base: nat, sectors: nat, r: bool, l: Log)
    requires Recoverable(f, base, sectors, r, l)
    ensures Layout(f, base, sectors)
  {
    Unseal(f, base, sectors, r, l);
  }

  /** A completed set has one of the outcomes an interrupted one may have. */
  lemma {:induction false} FinalOutcome(pre: Log, log: Log, name: Image, v: Value, size: nat, status: Status,
                                        compacted: bool)
    requires DataResult(pre, log, name, v, size, status, compacted)
    ensures Outcome(pre, log, name, Target(v.data, v.binary), compacted)
  {
  }

  // ---------------------------------------------------------------- lost sets

  /** The log after setting a one-byte key and deleting it again. */
  function DeletedLog(v: Value): Log {
    [KeyEntry(1, [0x61]), ValueEntry(1, v).(alive := false)]
  }

  /** With a value of 4060 bytes deleted, a set of 20 bytes in a one-sector region is lost. */
  lemma {:induction false} LostSet(log': Log, was: Value, v: Value, status: Status, compacted: bool)
    requires |was.data| == 4060 && |v.data| == 20
    requires SetResult(DeletedLog(was), log', [0x61], v, SECTOR, status, compacted)
    ensures status == Ok && Get(log', [0x61]) == None
  {
    var log, name := DeletedLog(was), [0x61];
    assert NamedKey(log[0], name);
    assert KeyIndex(log, name) == 0;
    assert !Matches(log[1], 1, true);
    assert ValueIndex(log, name) == 2;
    assert Off(log, 1) == 8;
    assert Off(log, 2) == 4072;
    assert DeadWeight(log, 0, 1, false) == 0;
    assert DeadWeight(log, 0, 2, false) == 4064;
  }

  /** Setting that key on an empty log, and deleting it. */
  lemma {:induction false} FirstSet(log: Log, v: Value, status: Status, compacted: bool)
    requires |v.data| == 4060 && SetResult([], log, [0x61], v, SECTOR, status, compacted)
    ensures status == Ok && log == [KeyEntry(1, [0x61]), ValueEntry(1, v)]
    ensures Get(log, [0x61]) == Some(v) && ValueIndex(log, [0x61]) == 1 && Kill(log, 1) == DeletedLog(v)
  {
    WrittenIs([], [0x61], v);
    assert Off([], 0) == 0;
    assert NamedKey(KeyEntry(1, [0x61]), [0x61]);
  }

  /** A set can report success and store nothing. In any flash, create an area of two sectors, set a key
      to 4060 bytes, delete it, and set it to 20 bytes: the last set reports success, and the key is not
      found. */
  method LoseSet(f: Image, base: nat, long: Image, short: Image) returns (status: Status, answer: Status)
    requires Layout(f, base, 1) && |long| == 4060 && |short| == 20
    ensures status == Ok && answer == NotFound
  {
    var s := NewArea(f, base, 2);
    var key: Image := [0x61];
    assert KeyName(key) == [0x61];
    ghost var imgs, compacted;
    s.Running();
    status, imgs, compacted := s.SetData(key, long, true);
    FirstSet(s.log, Value(long, true), status, compacted);
    s.Running();
    status, imgs, compacted := s.SetData(key, [], true);
    s.Running();
    status, imgs, compacted := s.SetData(key, short, true);
    LostSet(s.log, Value(long, true), Value(short, true), status, compacted);
    s.Running();
    var value;
    answer, value := s.GetData(key);
  }

  /** The log with a first key that has a value, and a second one that was deleted. */
  function MixedLog(v: Value, w: Value): Log {
    [KeyEntry(1, [0x61]), ValueEntry(1, v), KeyEntry(2, [0x62]), ValueEntry(2, w).(alive := false)]
  }

  /** A value of 4085 bytes for the first key is refused, and the old one is gone. */
  lemma {:induction false} DroppedValue(log': Log, v: Value, w: Value, big: Value, status: Status, compacted: bool)
    requires |v.data| == |w.data| == 8 && |big.data| == 4085 && Clean(MixedLog(v, w))
    requires SetResult(MixedLog(v, w), log', [0x61], big, SECTOR, status, compacted)
    ensures status == ErrFull && Get(log', [0x61]) == None
  {
    var log, name := MixedLog(v, w), [0x61];
    assert NamedKey(log[0], name) && Matches(log[1], 1, true);
    assert KeyIndex(log, name) == 0 && ValueIndex(log, name) == 1;
    assert log[2].IsKey() && !Matches(log[3], 2, true) && !Used?(log, 2);
    UnusedKeys(log);
    assert Reads(log, map[name := v]) by {
      MixedReads(v, w);
    }
    SizeAfter(log, map[name := v], name, big);
    SizeSet(map[name := v], name, big);
  }

  lemma {:induction false} MixedReads(v: Value, w: Value)
    ensures Reads(MixedLog(v, w), map[[0x61] := v])
  {
    var log := MixedLog(v, w);
    forall k ensures Get(log, k) == if k == [0x61] then Some(v) else None {
      assert NamedKey(log[0], k) <==> k == [0x61];
      assert NamedKey(log[2], k) <==> k == [0x62];
      assert Matches(log[1], 1, true) && !Matches(log[3], 2, true);
      assert KeyAt(log, k, 0) == if k == [0x61] then 0 else if k == [0x62] then 2 else 4;
    }
  }

  /** The logs that lead there. */
  lemma {:induction false} FirstOfTwo(log: Log, v: Value, status: Status, compacted: bool)
    requires |v.data| == 8 && SetResult([], log, [0x61], v, SECTOR, status, compacted)
    ensures log == [KeyEntry(1, [0x61]), ValueEntry(1, v)]
    ensures Get(log, [0x62]) == None && KeyIndex(log, [0x62]) == 2 && Used(log) == 20
  {
    WrittenIs([], [0x61], v);
    assert Off([], 0) == 0;
    assert Off(log, 1) == 8 && Off(log, 2) == 20;
  }

  lemma {:induction false} SecondOfTwo(pre: Log, log: Log, v: Value, w: Value, status: Status, compacted: bool)
    requires |v.data| == |w.data| == 8 && pre == [KeyEntry(1, [0x61]), ValueEntry(1, v)] && Used(pre) == 20
    requires KeyIndex(pre, [0x62]) == 2 && SetResult(pre, log, [0x62], w, SECTOR, status, compacted)
    ensures log == [KeyEntry(1, [0x61]), ValueEntry(1, v), KeyEntry(2, [0x62]), ValueEntry(2, w)]
    ensures Get(log, [0x62]) == Some(w) && ValueIndex(log, [0x62]) == 3 && Kill(log, 3) == MixedLog(v, w)
  {
    WrittenIs(pre, [0x62], w);
    assert LastKeyId(pre, 0, 2, 0) == 1;
    assert NamedKey(log[2], [0x62]) && Matches(log[3], 2, true);
  }

  /** Two keys are set in a new area, and the second is deleted. */
  method SetTwo(f: Image, base: nat, v: Image, w: Image) returns (s: Store)
    requires Layout(f, base, 1) && |v| == |w| == 8
    ensures fresh(s) && s.Mounted() && Clean(s.log) && s.regionSize == SECTOR
    ensures s.log == MixedLog(Value(v, true), Value(w, true))
  {
    s := NewArea(f, base, 2);
    var a: Image, b: Image := [0x61], [0x62];
    assert KeyName(a) == a && KeyName(b) == b;
    ghost var imgs, compacted, log1;
    var status;
    s.Running();
    status, imgs, compacted := s.SetData(a, v, true);
    FirstOfTwo(s.log, Value(v, true), status, compacted);
    s.Running();
    log1 := s.log;
    status, imgs, compacted := s.SetData(b, w, true);
    SecondOfTwo(log1, s.log, Value(v, true), Value(w, true), status, compacted);
    s.Running();
    status, imgs, compacted := s.SetData(b, [], true);
  }

  /** A set that is refused can lose the value it was to replace: set two keys, delete the second, and
      set the first to more than fits. The last set answers that the area is full, and the first key is
      no longer found. */
  method LoseOld(f: Image, base: nat, v: Image, w: Image, big: Image) returns (status: Status, answer: Status)
    requires Layout(f, base, 1) && |v| == |w| == 8 && |big| == 4085
    ensures status == ErrFull && answer == NotFound
  {
    var s := SetTwo(f, base, v, w);
    var a: Image := [0x61];
    assert KeyName(a) == a;
    MixedReads(Value(v, true), Value(w, true));
    assert Get(s.log, a) == Some(Value(v, true));
    ghost var imgs, compacted;
    s.Running();
    status, imgs, compacted := s.SetData(a, big, true);
    DroppedValue(s.log, Value(v, true), Value(w, true), Value(big, true), status, compacted);
    s.Running();
    var value;
    answer, value := s.GetData(a);
  }

  /** In a new area the erased sectors of the first region are no headers. */
  lemma {:induction false} NewAreaBoots(f: Image, base: nat, sectors: nat)
    requires Recoverable(f, base, sectors, false, [])
    ensures Bootable(f, base, base + 1, base, sectors, false, [])
  {
    Unseal(f, base, sectors, false, []);
  }

  /** sysparam_create_area, then sysparam_init: an empty table. */
  method NewArea(f: Image, base: nat, numSectors: nat) returns (s: Store)
    requires numSectors % 2 == 0 && Layout(f, base, numSectors / 2)
    ensures fresh(s) && s.Mounted() && s.base == base && s.sectors == numSectors / 2 && s.log == []
  {
    s := new Store(f);
    var status := s.CreateArea(base, numSectors, true);
    NewAreaBoots(s.flash, base, numSectors / 2);
    ghost var imgs;
    status, imgs := s.Init(base, base + 1, base, numSectors / 2, false, []);
  }

  // --------------------------------------------------------------- whole runs

  datatype Op = Set(key: Image, value: Image, binary: bool) | Read(key: Image)
  datatype Reply = Reply(status: Status, value: Value)

  /** The limits of a store: the size of a region, and whether the ids in use are known to be dense. */
  datatype Limits = Limits(size: nat, dense: bool)

  /** The table fits into a region. */
  ghost predicate Fits(m: Table, size: nat) { 8 + Size(m) <= size }

  /** There is an id for the key. */
  predicate HasId(m: Table, name: Image) { name in m || |m| < MAX_KEY_ID }

  /** What one call may answer, and the map after it, on a store that means the map `m`. A set is refused
      only if the new table does not fit into a region or there is no id for a new key, and then always;
      where ids are not dense, a new key may be refused for want of an id before all are in use. */
  ghost predicate Step(m: Table, op: Op, reply: Reply, m': Table, l: Limits) {
    var name := KeyName(op.key);
    match op
    case Read(_) =>
      && m' == m
      && (if name in m then reply == Reply(Ok, m[name]) else reply.status == NotFound)
    case Set(_, value, binary) =>
      if name == [] || |value| > MAX_VALUE_LEN then reply.status == ErrBadValue && m' == m
      else if value == [] then reply.status == (if name in m then Ok else NotFound) && m' == m - {name}
      else PutAnswer(m, name, Value(value, binary), reply.status, m', l)
  }

  ghost predicate PutAnswer(m: Table, name: Image, v: Value, status: Status, m': Table, l: Limits) {
    var fits := Fits(m[name := v], l.size);
    || (status == Ok && m' == m[name := v] && fits && HasId(m, name))
    || (status == ErrFull && (m' == m || (!fits && m' == m - {name}))
        && (!fits || if l.dense then !HasId(m, name) else name !in m))
  }

  /** A run of calls and its answers, explained by a finite map from `m` to `m'`. */
  ghost predicate Explains(m: Table, ops: seq<Op>, replies: seq<Reply>, m': Table, l: Limits)
    requires |replies| <= |ops|
    decreases |replies|
  {
    if replies == [] then m == m'
    else
      var n := |replies| - 1;
      exists mid :: Explains(m, ops, replies[..n], mid, l) && Step(mid, ops[n], replies[n], m', l)
  }

  lemma {:induction false} ExplainsOneMore(m: Table, ops: seq<Op>, replies: seq<Reply>, mid: Table, reply: Reply,
                                           m': Table, l: Limits)
    requires |replies| < |ops| && Explains(m, ops, replies, mid, l) && Step(mid, ops[|replies|], reply, m', l)
    ensures Explains(m, ops, replies + [reply], m', l)
  {
    assert (replies + [reply])[..|replies|] == replies;
  }

  ghost function AfterSet(m: Table, name: Image, v: Option<Value>): Table {
    if v.Some? then m[name := v.value] else m - {name}
  }

  lemma {:induction false} SetsReads(pre: Log, log: Log, m: Table, name: Image, v: Option<Value>)
    requires Reads(pre, m) && Sets(pre, log, name, v)
    ensures Reads(log, AfterSet(m, name, v))
  {
  }

  /** What the refusal of a set means for the table. */
  lemma {:induction false} TableRefuses(pre: Log, m: Table, name: Image, v: Value, size: nat, status: Status)
    requires Clean(pre) && Reads(pre, m) && !Loses(pre, name, |v.data|, size)
    requires Refuses(pre, name, |v.data|, size, status) && (status == Ok || status == ErrFull)
    ensures status == Ok ==> Fits(m[name := v], size) && HasId(m, name)
    ensures status == ErrFull && Fits(m[name := v], size) ==> name !in m && (Dense(pre) ==> !HasId(m, name))
  {
    CompactedSize(pre, m, name);
    if Valueless(pre, name) {
      VacantAfter(pre, m, name, v);
    } else {
      SizeAfter(pre, m, name, v);
      if Dense(pre) && NoIds(pre, name) {
        NoIdsLeft(pre, m, name);
      }
    }
  }

  /** Ids stay dense. */
  lemma {:induction false} StaysDense(pre: Log, log: Log, name: Image, v: Value, size: nat, status: Status,
                                      compacted: bool)
    requires Clean(pre) && Dense(pre) && DataResult(pre, log, name, v, size, status, compacted)
    requires name != [] && v.data != [] ==> !Loses(pre, name, |v.data|, size)
    ensures Dense(log)
  {
    if name == [] || |v.data| > MAX_VALUE_LEN {
    } else if v.data == [] {
      if Get(pre, name) != None {
        KillDense(pre, ValueIndex(pre, name));
      }
    } else if Get(pre, name) != Some(v) {
      EmitDense(Pairs(pre, |pre|), KeyIdOf(pre, name));
      var mid := if compacted then Compacted(pre, KeyIdOf(pre, name)) else pre;
      WrittenDense(mid, name, v);
    }
  }

  lemma {:induction false} WrittenDense(log: Log, name: Image, v: Value)
    requires Dense(log)
    ensures Dense(Written(log, name, v))
  {
    WrittenIs(log, name, v);
    if KeyIndex(log, name) == |log| {
      var id := LastKeyId(log, 0, |log|, 0) + 1;
      KeysPush(log, KeyEntry(id, name));
      KeysPush(log + [KeyEntry(id, name)], ValueEntry(id, v));
    } else {
      var e := ValueEntry(log[KeyIndex(log, name)].id, v);
      KeysPush(log, e);
      if ValueIndex(log, name) < |log| {
        KillDense(log + [e], ValueIndex(log, name));
      }
    }
  }

  /** A set that is not lost does to the map what Step allows. */
  lemma {:induction false} SetStep(pre: Log, log: Log, m: Table, key: Image, value: Image, binary: bool, l: Limits,
                                   status: Status, compacted: bool)
    returns (m': Table)
    requires Reads(pre, m) && Clean(pre) && 8 + Used(pre) <= l.size && (l.dense ==> Dense(pre))
    requires DataResult(pre, log, KeyName(key), Value(value, binary), l.size, status, compacted)
    requires KeyName(key) != [] && value != [] ==> !Loses(pre, KeyName(key), |value|, l.size)
    ensures Clean(log) && Reads(log, m') && (l.dense ==> Dense(log))
    ensures Step(m, Set(key, value, binary), Reply(status, Value([], false)), m', l)
  {
    var name, v := KeyName(key), Value(value, binary);
    if l.dense {
      StaysDense(pre, log, name, v, l.size, status, compacted);
    }
    if name == [] || |value| > MAX_VALUE_LEN {
      m' := m;
    } else if value == [] {
      m' := m - {name};
      DeleteReads(pre, log, m, name, v, l.size, status, compacted);
    } else if Get(pre, name) == Some(v) {
      m' := m[name := v];
      assert m' == m;
      HoldsTable(pre, m, name);
    } else {
      m' := PutStep(pre, log, m, name, v, l, status, compacted);
    }
  }

  lemma {:induction false} DeleteReads(pre: Log, log: Log, m: Table, name: Image, v: Value, size: nat, status: Status,
                                       compacted: bool)
    requires Reads(pre, m) && Clean(pre) && name != [] && v.data == []
    requires DataResult(pre, log, name, v, size, status, compacted)
    ensures Clean(log) && Reads(log, m - {name}) && status == if name in m then Ok else NotFound
  {
    if Get(pre, name) != None {
      SetsReads(pre, log, m, name, None);
    } else {
      assert m - {name} == m;
    }
  }

  lemma {:induction false} PutStep(pre: Log, log: Log, m: Table, name: Image, v: Value, l: Limits, status: Status,
                                   compacted: bool)
    returns (m': Table)
    requires Reads(pre, m) && Clean(pre) && (l.dense ==> Dense(pre))
    requires SetResult(pre, log, name, v, l.size, status, compacted) && !Loses(pre, name, |v.data|, l.size)
    ensures Clean(log) && Reads(log, m') && PutAnswer(m, name, v, status, m', l)
  {
    TableRefuses(pre, m, name, v, l.size, status);
    m' := PutReads(pre, log, m, name, v, status, compacted);
  }

  lemma {:induction false} PutReads(pre: Log, log: Log, m: Table, name: Image, v: Value, status: Status,
                                    compacted: bool)
    returns (m': Table)
    requires Reads(pre, m) && (status == Ok || (!compacted ==> log == pre))
    requires Sets(pre, log, name, if status == Ok then Some(v) else if compacted then None else Get(pre, name))
    ensures Reads(log, m')
    ensures if status == Ok then m' == m[name := v] else m' == m || (name in m && m' == m - {name})
  {
    if status == Ok {
      m' := m[name := v];
      SetsReads(pre, log, m, name, Some(v));
    } else if compacted {
      m' := m - {name};
      SetsReads(pre, log, m, name, None);
      assert name !in m ==> m' == m;
    } else {
      m' := m;
    }
  }

  /** Every run of sets, deletions and reads agrees with a finite map, up to the first set that
      a full region would lose. */
  method Run(s: Store, ops: seq<Op>, ghost m: Table) returns (replies: seq<Reply>, ghost m': Table)
    requires s.Mounted() && Clean(s.log) && Reads(s.log, m)
    modifies s
    ensures |replies| <= |ops| && Explains(m, ops, replies, m', Limits(s.regionSize, old(Dense(s.log))))
    ensures s.Mounted() && Clean(s.log) && Reads(s.log, m') && s.regionSize == old(s.regionSize)
    ensures |replies| < |ops| ==>
              var op := ops[|replies|];
              op.Set? && op.value != [] && Loses(s.log, KeyName(op.key), |op.value|, s.regionSize)
  {
    ghost var l := Limits(s.regionSize, Dense(s.log));
    replies, m' := [], m;
    while |replies| < |ops|
      invariant |replies| <= |ops| && Explains(m, ops, replies, m', l)
      invariant s.Mounted() && Clean(s.log) && Reads(s.log, m') && s.regionSize == l.size && (l.dense ==> Dense(s.log))
      decreases |ops| - |replies|
    {
      var lost, reply;
      ghost var next;
      lost, reply, next := Serve(s, ops[|replies|], m', l);
      if lost {
        return;
      }
      ExplainsOneMore(m, ops, replies, m', reply, next, l);
      replies, m' := replies + [reply], next;
    }
  }

  /** One call of a run. */
  method Serve(s: Store, op: Op, ghost m: Table, ghost l: Limits) returns (lost: bool, reply: Reply, ghost m': Table)
    requires s.Mounted() && Clean(s.log) && Reads(s.log, m) && s.regionSize == l.size && (l.dense ==> Dense(s.log))
    modifies s
    ensures s.Mounted() && Clean(s.log) && s.regionSize == l.size && (l.dense ==> Dense(s.log))
    ensures if lost then
              && Reads(s.log, m) && op.Set? && op.value != []
              && Loses(s.log, KeyName(op.key), |op.value|, s.regionSize)
            else Reads(s.log, m') && Step(m, op, reply, m', l)
  {
    lost, m', reply := false, m, Reply(NotFound, Value([], false));
    s.Running();
    match op
    case Read(key) =>
      var status, value := s.GetData(key);
      reply := Reply(status, value);
    case Set(key, value, binary) =>
      lost := s.WouldLose(KeyName(key), value);
      if !lost {
        ghost var pre, imgs, compacted := s.log, [], false;
        var status;
        status, imgs, compacted := s.SetData(key, value, binary);
        m' := SetStep(pre, s.log, m, key, value, binary, l, status, compacted);
        reply := Reply(status, Value([], false));
      }
  }

  /** From a new area on: every run agrees with a finite map that starts out empty, and a set is refused
      exactly when the new table would not fit into a region or there is no id for a new key. */
  method RunFromNew(f: Image, base: nat, numSectors: nat, ops: seq<Op>)
    returns (s: Store, replies: seq<Reply>, ghost m': Table)
    requires numSectors % 2 == 0 && Layout(f, base, numSectors / 2)
    ensures |replies| <= |ops| && Explains(map[], ops, replies, m', Limits(numSectors / 2 * SECTOR, true))
    ensures s.Mounted() && Clean(s.log) && Reads(s.log, m') && s.regionSize == numSectors / 2 * SECTOR
    ensures |replies| < |ops| ==>
              var op := ops[|replies|];
              op.Set? && op.value != [] && Loses(s.log, KeyName(op.key), |op.value|, s.regionSize)
  {
    s := NewArea(f, base, numSectors);
    assert Reads([], map[]);
    replies, m' := Run(s, ops, map[]);
  }
}
