/** The two regions of a sysparam area in flash: which one a reader mounts, and
    what every single flash operation of a write or a compaction leaves behind. */
module SysparamRegion {
  import opened Flash
  import opened SysparamLog
  import opened SysparamTable

  // --------------------------------------------------------- region headers

  /** "EORp", flags and size, and a reserved zero word, all little-endian. */
  function EncodeRegion(second: bool, active: bool, sectors: nat): (r: Image)
    requires sectors <= 0xfff
    ensures |r| == 8
  {
    [0x45, 0x4f, 0x52, 0x70, ByteOf(sectors % 256), RegionFlags(second, active, ByteOf(sectors / 256)), 0, 0]
  }

  function RegionFlags0(level: nat, second: bool, active: bool, high: bv8): bv8 {
    if level > 0 then RegionFlags0(level - 1, second, active, high)
    else Flag(second, 0x80) | Flag(active, 0x40) | high
  }

  function RegionFlags(second: bool, active: bool, high: bv8): bv8 {
    RegionFlags0(2, second, active, high)
  }

  predicate HasMagic(f: Image, a: nat)
    requires a + 8 <= |f|
  {
    f[a] == 0x45 && f[a + 1] == 0x4f && f[a + 2] == 0x52 && f[a + 3] == 0x70
  }

  predicate IsSecond(f: Image, a: nat)
    requires a + 8 <= |f|
  {
    Has(f[a + 5], 0x80)
  }

  predicate IsActive(f: Image, a: nat)
    requires a + 8 <= |f|
  {
    Has(f[a + 5], 0x40)
  }

  function SectorsOf(f: Image, a: nat): nat
    requires a + 8 <= |f|
  {
    NatOf(f[a + 4]) + 256 * NatOf(Nibble(f[a + 5]))
  }

  predicate HeaderIs(f: Image, a: nat, second: bool, active: bool, sectors: nat) {
    sectors <= 0xfff && a + 8 <= |f| && f[a..a + 8] == EncodeRegion(second, active, sectors)
  }

  lemma {:induction false} RegionFlagBits(second: bool, active: bool, high: bv8)
    requires high <= 15
    ensures var x := RegionFlags(second, active, high);
            (Has(x, 0x80) <==> second) && (Has(x, 0x40) <==> active) && Nibble(x) == high
  {
    var x := RegionFlags(second, active, high);
    HasIs(x, 0x80);
    HasIs(x, 0x40);
    NibbleIs(x);
    assert RegionFlags0(1, second, active, high) == RegionFlags0(0, second, active, high);
  }

  /** A written header reads back as what was written. */
  lemma {:induction false} HeaderReads(f: Image, a: nat, second: bool, active: bool, sectors: nat)
    requires HeaderIs(f, a, second, active, sectors)
    ensures HasMagic(f, a) && (IsSecond(f, a) <==> second) && (IsActive(f, a) <==> active) && SectorsOf(f, a) == sectors
  {
    var h := EncodeRegion(second, active, sectors);
    assert forall k :: 0 <= k < 8 ==> f[a + k] == f[a..a + 8][k] == h[k];
    ByteOfNat(sectors % 256);
    ByteOfNat(sectors / 256);
    RegionFlagBits(second, active, ByteOf(sectors / 256));
  }

  lemma {:induction false} RetireFlags(second: bool, active: bool, high: bv8)
    ensures Clears(RegionFlags(second, active, high), RegionFlags(second, false, high))
  {
    ClearsIs(RegionFlags(second, active, high), RegionFlags(second, false, high));
    assert RegionFlags0(1, second, active, high) == RegionFlags0(0, second, active, high);
    assert RegionFlags0(1, second, false, high) == RegionFlags0(0, second, false, high);
  }

  /** Re-programming a header without the active flag retires the region. */
  lemma {:induction false} RetireHeader(f: Image, a: nat, second: bool, active: bool, sectors: nat)
    requires HeaderIs(f, a, second, active, sectors)
    ensures HeaderIs(Program(f, a, EncodeRegion(second, false, sectors)), a, second, false, sectors)
  {
    var h, h' := EncodeRegion(second, active, sectors), EncodeRegion(second, false, sectors);
    RetireFlags(second, active, ByteOf(sectors / 256));
    forall k | 0 <= k < 8 ensures Clears(h[k], h'[k]) {
      if k != 5 {
        ClearsSelf(h[k]);
      }
    }
    ProgramOver(f, a, h, h');
  }

  // ------------------------------------------------------------------ areas

  predicate Layout(f: Image, base: nat, sectors: nat) {
    0 < base && base % SECTOR == 0 && 1 <= sectors <= 0xfff && base + 2 * sectors * SECTOR <= |f|
  }

  function RegionBase(base: nat, sectors: nat, second: bool): nat {
    if second then base + sectors * SECTOR else base
  }

  function Body(f: Image, b: nat, sectors: nat): Image
    requires 1 <= sectors && b + sectors * SECTOR <= |f|
  {
    f[b + 8..b + sectors * SECTOR]
  }

  lemma {:induction false} BodySlice(f: Image, b: nat, sectors: nat, lo: nat, hi: nat)
    requires 1 <= sectors && b + sectors * SECTOR <= |f| && lo <= hi <= sectors * SECTOR - 8
    ensures Body(f, b, sectors)[lo..hi] == f[b + 8 + lo..b + 8 + hi]
  {
    var s, t := Body(f, b, sectors)[lo..hi], f[b + 8 + lo..b + 8 + hi];
    assert |s| == |t|;
    assert forall i :: 0 <= i < |s| ==> s[i] == t[i];
  }

  predicate ErasedAt(f: Image, lo: nat, hi: nat) {
    hi <= |f| && forall i :: lo <= i < hi ==> f[i] == 0xff
  }

  predicate AgreeOn(f: Image, g: Image, lo: nat, hi: nat) {
    hi <= |f| == |g| && forall i :: lo <= i < hi ==> f[i] == g[i]
  }

  /** `g` is `f` edited inside [lo, hi) only. */
  predicate SameOutside(f: Image, g: Image, lo: nat, hi: nat) {
    |f| == |g| && forall i :: 0 <= i < |f| && !(lo <= i < hi) ==> f[i] == g[i]
  }

  /** The region that holds `log` and is marked active. */
  predicate ActiveRegion(f: Image, base: nat, sectors: nat, second: bool, log: Log) {
    && Layout(f, base, sectors)
    && HeaderIs(f, RegionBase(base, sectors, second), second, true, sectors)
    && Holds(Body(f, RegionBase(base, sectors, second), sectors), log)
  }

  /** What init needs of the other region to choose this one. */
  predicate Yields(f: Image, base: nat, sectors: nat, second: bool)
    requires Layout(f, base, sectors)
  {
    var alt := RegionBase(base, sectors, !second);
    || HeaderIs(f, alt, !second, false, sectors)
    || !HasMagic(f, alt)
    || (!second && HeaderIs(f, alt, !second, true, sectors))
  }

  /** A flash image from which init mounts region `second` with contents `log`. */
  predicate Mounts(f: Image, base: nat, sectors: nat, second: bool, log: Log) {
    ActiveRegion(f, base, sectors, second, log) && Yields(f, base, sectors, second)
  }

  lemma {:induction false} RegionFrame(f: Image, g: Image, base: nat, sectors: nat, second: bool, log: Log)
    requires ActiveRegion(f, base, sectors, second, log)
    requires var b := RegionBase(base, sectors, second); AgreeOn(f, g, b, b + sectors * SECTOR)
    ensures ActiveRegion(g, base, sectors, second, log)
  {
    var b := RegionBase(base, sectors, second);
    assert f[b..b + 8] == g[b..b + 8];
    assert Body(f, b, sectors) == Body(g, b, sectors);
  }

  // -------------------------------------------- the steps of one entry write

  function Begun(e: Entry): Entry { e.(alive := true, invalid := true, data := Erased(|e.data|)) }
  function Filled(e: Entry): Entry { e.(alive := true, invalid := true) }

  /** The flash after each of the three programming operations of _write_entry. */
  function Write1(f: Image, addr: nat, e: Entry): (g: Image)
    requires e.Encodable() && addr + e.Space() <= |f|
    ensures |g| == |f|
  {
    Program(f, addr, EncodeHeader(Filled(e).Head()))
  }

  function Write2(f: Image, addr: nat, e: Entry): (g: Image)
    requires e.Encodable() && addr + e.Space() <= |f|
    ensures |g| == |f|
  {
    Program(Write1(f, addr, e), addr + 4, e.data)
  }

  function Write3(f: Image, addr: nat, e: Entry): (g: Image)
    requires e.Encodable() && addr + e.Space() <= |f|
    ensures |g| == |f|
  {
    Program(Write2(f, addr, e), addr, EncodeHeader(e.Head()))
  }

  lemma {:induction false} ProgramBody(f: Image, b: nat, sectors: nat, o: nat, data: Image)
    requires 1 <= sectors && b + sectors * SECTOR <= |f| && o + |data| <= sectors * SECTOR - 8
    ensures Body(Program(f, b + 8 + o, data), b, sectors) == Program(Body(f, b, sectors), o, data)
  {
    var g, h := Body(Program(f, b + 8 + o, data), b, sectors), Program(Body(f, b, sectors), o, data);
    assert |g| == |h|;
    assert forall i :: 0 <= i < |g| ==> g[i] == h[i];
  }

  /** Each step of a write leaves a well-formed log one entry longer. */
  lemma {:induction false} WriteSteps(f: Image, b: nat, sectors: nat, log: Log, e: Entry)
    requires 1 <= sectors && b + sectors * SECTOR <= |f|
    requires Holds(Body(f, b, sectors), log) && e.Encodable() && e.Live()
    requires Used(log) + e.Space() <= sectors * SECTOR - 8
    ensures var a := b + 8 + Used(log);
            && Holds(Body(Write1(f, a, e), b, sectors), log + [Begun(e)])
            && Holds(Body(Write2(f, a, e), b, sectors), log + [Filled(e)])
            && Holds(Body(Write3(f, a, e), b, sectors), log + [e])
  {
    BeginWrite(f, b, sectors, log, e);
    FillWrite(f, b, sectors, log, e);
    FinishWrite(f, b, sectors, log, e);
  }

  lemma {:induction false} BeginWrite(f: Image, b: nat, sectors: nat, log: Log, e: Entry)
    requires 1 <= sectors && b + sectors * SECTOR <= |f| && e.Encodable() && e.Live()
    requires Holds(Body(f, b, sectors), log) && Used(log) + e.Space() <= sectors * SECTOR - 8
    ensures Holds(Body(Write1(f, b + 8 + Used(log), e), b, sectors), log + [Begun(e)])
  {
    HoldsBegin(Body(f, b, sectors), log, Begun(e));
    assert Begun(e).Head() == Filled(e).Head();
    ProgramBody(f, b, sectors, Used(log), EncodeHeader(Filled(e).Head()));
  }

  lemma {:induction false} FillWrite(f: Image, b: nat, sectors: nat, log: Log, e: Entry)
    requires 1 <= sectors && b + sectors * SECTOR <= |f| && e.Encodable() && e.Live()
    requires Used(log) + e.Space() <= sectors * SECTOR - 8
    requires Holds(Body(Write1(f, b + 8 + Used(log), e), b, sectors), log + [Begun(e)])
    ensures Holds(Body(Write2(f, b + 8 + Used(log), e), b, sectors), log + [Filled(e)])
  {
    var g := Write1(f, b + 8 + Used(log), e);
    HoldsFill(Body(g, b, sectors), log, Begun(e), e.data);
    assert Begun(e).(data := e.data) == Filled(e);
    ProgramBody(g, b, sectors, Used(log) + 4, e.data);
  }

  lemma {:induction false} FinishWrite(f: Image, b: nat, sectors: nat, log: Log, e: Entry)
    requires 1 <= sectors && b + sectors * SECTOR <= |f| && e.Encodable() && e.Live()
    requires Used(log) + e.Space() <= sectors * SECTOR - 8
    requires Holds(Body(Write2(f, b + 8 + Used(log), e), b, sectors), log + [Filled(e)])
    ensures Holds(Body(Write3(f, b + 8 + Used(log), e), b, sectors), log + [e])
  {
    var g := Write2(f, b + 8 + Used(log), e);
    HoldsFinish(Body(g, b, sectors), log, Filled(e), e);
    ProgramBody(g, b, sectors, Used(log), EncodeHeader(e.Head()));
  }

  /** A write touches only its own slot. */
  lemma {:induction false} WriteFrame(f: Image, addr: nat, e: Entry)
    requires e.Encodable() && addr + e.Space() <= |f|
    ensures SameOutside(f, Write1(f, addr, e), addr, addr + e.Space())
    ensures SameOutside(f, Write2(f, addr, e), addr, addr + e.Space())
    ensures SameOutside(f, Write3(f, addr, e), addr, addr + e.Space())
  {
  }

  /** What _write_and_verify reads back at each step is what it wrote. */
  lemma {:induction false} WriteVerifies(f: Image, b: nat, sectors: nat, log: Log, e: Entry)
    requires 1 <= sectors && b + sectors * SECTOR <= |f|
    requires Holds(Body(f, b, sectors), log) && e.Encodable() && e.Live()
    requires Used(log) + e.Space() <= sectors * SECTOR - 8
    ensures var a := b + 8 + Used(log);
            && Write1(f, a, e)[a..a + 4] == EncodeHeader(Filled(e).Head())
            && Write2(f, a, e)[a + 4..a + 4 + |e.data|] == e.data
            && Write3(f, a, e)[a..a + 4] == EncodeHeader(e.Head())
  {
    var a := b + 8 + Used(log);
    WriteSteps(f, b, sectors, log, e);
    ReadBack(Write1(f, a, e), b, sectors, log, Begun(e));
    ReadBack(Write2(f, a, e), b, sectors, log, Filled(e));
    ReadBack(Write3(f, a, e), b, sectors, log, e);
  }

  lemma {:induction false} ReadBack(f: Image, b: nat, sectors: nat, log: Log, e: Entry)
    requires 1 <= sectors && b + sectors * SECTOR <= |f| && Holds(Body(f, b, sectors), log + [e])
    ensures var a := b + 8 + Used(log);
            && e.Encodable() && a + 4 + |e.data| <= |f|
            && f[a..a + 4] == EncodeHeader(e.Head()) && f[a + 4..a + 4 + |e.data|] == e.data
  {
    var log', body, o := log + [e], Body(f, b, sectors), Used(log);
    assert StoredAt(body, log', |log|);
    OffSame(log, log', |log|);
    BodySlice(f, b, sectors, o, o + 4);
    BodySlice(f, b, sectors, o + 4, o + 4 + |e.data|);
  }

  /** Reading entry `i` of a mounted region. */
  lemma {:induction false} ReadEntry(f: Image, b: nat, sectors: nat, log: Log, i: nat)
    requires 1 <= sectors && b + sectors * SECTOR <= |f| && Holds(Body(f, b, sectors), log) && i < |log|
    ensures var a := b + 8 + Off(log, i);
            && a + log[i].Space() == b + 8 + Off(log, i + 1) <= b + sectors * SECTOR
            && log[i].Encodable()
            && a + 4 + |log[i].data| <= |f|
            && !Unwritten(f[a..a + 4]) && DecodeHeader(f[a..a + 4]) == log[i].Head()
            && f[a + 4..a + 4 + |log[i].data|] == log[i].data
  {
    var o := Off(log, i);
    SlotHolds(Body(f, b, sectors), log, i);
    BodySlice(f, b, sectors, o, o + 4);
    BodySlice(f, b, sectors, o + 4, o + 4 + |log[i].data|);
    HeaderRoundTrip(log[i].Head());
  }

  lemma {:induction false} SlotHolds(body: Image, log: Log, i: nat)
    requires Holds(body, log) && i < |log|
    ensures Off(log, i) + log[i].Space() == Off(log, i + 1) <= |body| && Stored(body, Off(log, i), log[i])
  {
    assert StoredAt(body, log, i);
    OffMonotone(log, i + 1, |log|);
  }

  lemma {:induction false} ReadEnd(f: Image, b: nat, sectors: nat, log: Log, skip: bool)
    requires 1 <= sectors && b + sectors * SECTOR <= |f| && Holds(Body(f, b, sectors), log)
    requires var o := Used(log) + (if skip then 4 else 0); o < sectors * SECTOR - 8
    ensures var a := b + 8 + Used(log) + (if skip then 4 else 0); a + 4 <= |f| && Unwritten(f[a..a + 4])
  {
    var o := Used(log) + (if skip then 4 else 0);
    HoldsEnd(Body(f, b, sectors), log, skip);
    BodySlice(f, b, sectors, o, o + 4);
  }

  // ------------------------------------------------------- mounted regions

  /** An edit inside the body of the mounted region that leaves a well-formed log. */
  lemma {:induction false} Remount(f: Image, g: Image, base: nat, sectors: nat, second: bool, log: Log, log': Log,
                                   lo: nat, hi: nat)
    requires Mounts(f, base, sectors, second, log) && SameOutside(f, g, lo, hi)
    requires var b := RegionBase(base, sectors, second);
             b + 8 <= lo && hi <= b + sectors * SECTOR && Holds(Body(g, b, sectors), log')
    ensures Mounts(g, base, sectors, second, log')
  {
    var b, alt := RegionBase(base, sectors, second), RegionBase(base, sectors, !second);
    assert f[b..b + 8] == g[b..b + 8];
    assert f[alt..alt + 8] == g[alt..alt + 8];
  }

  /** Deleting entry `i` of the mounted region is one recoverable step. */
  lemma {:induction false} DeleteStep(f: Image, g: Image, base: nat, sectors: nat, second: bool, log: Log, i: nat)
    requires Mounts(f, base, sectors, second, log) && i < |log| && log[i].Encodable()
    requires var a := RegionBase(base, sectors, second) + 8 + Off(log, i);
             a + 4 <= |f| && g == Program(f, a, EncodeHeader(log[i].(alive := false).Head()))
    ensures Mounts(g, base, sectors, second, Kill(log, i))
  {
    var b := RegionBase(base, sectors, second);
    var a := b + 8 + Off(log, i);
    DeleteInBody(f, b, sectors, log, i);
    Remount(f, g, base, sectors, second, log, Kill(log, i), a, a + 4);
  }

  lemma {:induction false} DeleteInBody(f: Image, b: nat, sectors: nat, log: Log, i: nat)
    requires 1 <= sectors && b + sectors * SECTOR <= |f| && Holds(Body(f, b, sectors), log)
    requires i < |log| && log[i].Encodable()
    ensures var a := b + 8 + Off(log, i);
            && a + 4 <= b + sectors * SECTOR
            && Holds(Body(Program(f, a, EncodeHeader(log[i].(alive := false).Head())), b, sectors), Kill(log, i))
  {
    var o, e := Off(log, i), log[i].(alive := false);
    HoldsClear(Body(f, b, sectors), log, i, e);
    ProgramBody(f, b, sectors, o, EncodeHeader(e.Head()));
  }

  // ------------------------------------------------------------- compaction

  predicate Copying0(level: nat, f: Image, base: nat, sectors: nat, second: bool, log: Log, out: Log) {
    if level > 0 then Copying0(level - 1, f, base, sectors, second, log, out)
    else
      && ActiveRegion(f, base, sectors, second, log)
      && ErasedAt(f, RegionBase(base, sectors, !second), RegionBase(base, sectors, !second) + 8)
      && Holds(Body(f, RegionBase(base, sectors, !second), sectors), out)
  }

  /** Mid-compaction: the mounted region is intact, the other one carries no header
      and holds `out`. */
  predicate Copying(f: Image, base: nat, sectors: nat, second: bool, log: Log, out: Log) {
    Copying0(2, f, base, sectors, second, log, out) && Layout(f, base, sectors)
  }

  lemma {:induction false} CopyingIs(f: Image, base: nat, sectors: nat, second: bool, log: Log, out: Log)
    ensures Copying(f, base, sectors, second, log, out) <==>
              && ActiveRegion(f, base, sectors, second, log)
              && ErasedAt(f, RegionBase(base, sectors, !second), RegionBase(base, sectors, !second) + 8)
              && Holds(Body(f, RegionBase(base, sectors, !second), sectors), out)
  {
    assert Copying0(1, f, base, sectors, second, log, out) == Copying0(0, f, base, sectors, second, log, out);
  }

  /** Any change confined to a region without its header keeps the mounted one recoverable. */
  lemma {:induction false} ErasingMounts(f: Image, g: Image, base: nat, sectors: nat, second: bool, log: Log)
    requires ActiveRegion(f, base, sectors, second, log)
    requires var b := RegionBase(base, sectors, second); AgreeOn(f, g, b, b + sectors * SECTOR)
    requires var b := RegionBase(base, sectors, !second); ErasedAt(g, b, b + 8)
    ensures Mounts(g, base, sectors, second, log)
  {
    RegionFrame(f, g, base, sectors, second, log);
    var b := RegionBase(base, sectors, !second);
    assert g[b] == 0xff;
  }

  lemma {:induction false} CopyStart(f: Image, g: Image, base: nat, sectors: nat, second: bool, log: Log)
    requires ActiveRegion(f, base, sectors, second, log)
    requires var b := RegionBase(base, sectors, second); AgreeOn(f, g, b, b + sectors * SECTOR)
    requires var b := RegionBase(base, sectors, !second); ErasedAt(g, b, b + sectors * SECTOR)
    ensures Copying(g, base, sectors, second, log, [])
  {
    CopyingIs(g, base, sectors, second, log, []);
    RegionFrame(f, g, base, sectors, second, log);
  }

  /** An edit behind the header of the copy keeps the mounted region recoverable. */
  lemma {:induction false} CopyKeeps(f: Image, g: Image, base: nat, sectors: nat, second: bool, log: Log, out: Log,
                                     lo: nat, hi: nat, out': Log)
    requires Copying(f, base, sectors, second, log, out) && SameOutside(f, g, lo, hi)
    requires var alt := RegionBase(base, sectors, !second); alt + 8 <= lo && hi <= alt + sectors * SECTOR
    ensures Mounts(g, base, sectors, second, log)
    ensures Holds(Body(g, RegionBase(base, sectors, !second), sectors), out') ==>
              Copying(g, base, sectors, second, log, out')
  {
    CopyingIs(f, base, sectors, second, log, out);
    CopyingIs(g, base, sectors, second, log, out');
    var b := RegionBase(base, sectors, second);
    assert AgreeOn(f, g, b, b + sectors * SECTOR);
    ErasingMounts(f, g, base, sectors, second, log);
  }

  /** Activating the copy: now both headers are active, and init takes the first region. */
  lemma {:induction false} ActivateStep(f: Image, base: nat, sectors: nat, second: bool, log: Log, out: Log)
    requires Copying(f, base, sectors, second, log, out)
    ensures var alt := RegionBase(base, sectors, !second);
            var g := Program(f, alt, EncodeRegion(!second, true, sectors));
            && g[alt..alt + 8] == EncodeRegion(!second, true, sectors)
            && ActiveRegion(g, base, sectors, !second, out)
            && ActiveRegion(g, base, sectors, second, log)
            && Mounts(g, base, sectors, false, if second then out else log)
  {
    CopyingIs(f, base, sectors, second, log, out);
    var b, alt := RegionBase(base, sectors, second), RegionBase(base, sectors, !second);
    var h := EncodeRegion(!second, true, sectors);
    var g := Program(f, alt, h);
    ProgramErased(f, alt, h);
    RegionFrame(f, g, base, sectors, second, log);
    assert Body(f, alt, sectors) == Body(g, alt, sectors);
  }

  /** Retiring the old region completes the switch. */
  lemma {:induction false} RetireStep(f: Image, base: nat, sectors: nat, second: bool, log: Log, out: Log)
    requires ActiveRegion(f, base, sectors, second, log) && ActiveRegion(f, base, sectors, !second, out)
    ensures var b := RegionBase(base, sectors, second);
            var g := Program(f, b, EncodeRegion(second, false, sectors));
            && g[b..b + 8] == EncodeRegion(second, false, sectors)
            && HeaderIs(g, b, second, false, sectors)
            && Mounts(g, base, sectors, !second, out)
  {
    var b, alt := RegionBase(base, sectors, second), RegionBase(base, sectors, !second);
    RetireHeader(f, b, second, true, sectors);
    RegionFrame(f, Program(f, b, EncodeRegion(second, false, sectors)), base, sectors, !second, out);
  }

  // -------------------------------------------------- Mounts, kept folded

  predicate Mounts0(level: nat, f: Image, base: nat, sectors: nat, second: bool, log: Log) {
    if level == 0 then Mounts(f, base, sectors, second, log) else Mounts0(level - 1, f, base, sectors, second, log)
  }

  /** Mounts by another name. The two levels of Mounts0 keep it folded in the proofs about
      whole operations, where only the name matters. */
  predicate Recoverable(f: Image, base: nat, sectors: nat, second: bool, log: Log) {
    Mounts0(2, f, base, sectors, second, log)
  }

  lemma {:induction false} Unseal(f: Image, base: nat, sectors: nat, second: bool, log: Log)
    ensures Recoverable(f, base, sectors, second, log) <==> Mounts(f, base, sectors, second, log)
  {
    assert Mounts0(1, f, base, sectors, second, log) == Mounts0(0, f, base, sectors, second, log);
  }
}
