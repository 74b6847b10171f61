/** Finding a sysparam area again at boot: the sector scan, the judgement of the two
    region headers, and the emptiness scan made before an area is created. */
module SysparamBoot {
  import opened Flash
  import opened SysparamLog
  import opened SysparamTable
  import opened SysparamRegion
  import opened SysparamScan

  /** A whole number of sectors from `base`. */
  predicate SectorFrom(base: nat, a: nat) {
    base <= a && (a - base) % SECTOR == 0
  }

  /** The header scan of sysparam_init over [base, top). */
  method FindHeader(f: Image, base: nat, top: nat) returns (status: Status, addr: nat)
    ensures status == Ok || status == NotFound || status == ErrIo
    ensures SectorFrom(base, addr)
    ensures status == Ok <==> addr < top && addr + 8 <= |f| && HasMagic(f, addr)
    ensures status == ErrIo ==> addr < top && addr + 8 > |f|
    ensures status == NotFound ==> addr >= top
    ensures forall a: nat :: SectorFrom(base, a) && a < addr ==> a < top && a + 8 <= |f| && !HasMagic(f, a)
  {
    addr := base;
    while addr < top
      invariant SectorFrom(base, addr)
      invariant forall a: nat :: SectorFrom(base, a) && a < addr ==> a < top && a + 8 <= |f| && !HasMagic(f, a)
    {
      if addr + 8 > |f| {
        return ErrIo, addr;
      }
      if HasMagic(f, addr) {
        return Ok, addr;
      }
      forall a: nat | SectorFrom(base, a) && addr < a < addr + SECTOR ensures false {
        NoneBetween(base, addr, a);
      }
      addr := addr + SECTOR;
    }
    return NotFound, addr;
  }

  lemma {:induction false} NoneBetween(base: nat, a: nat, b: nat)
    requires SectorFrom(base, a) && SectorFrom(base, b) && a < b
    ensures a + SECTOR <= b
  {
  }

  /** What sysparam_init makes of the headers: give up, or use region `cur` with `alt` as the
      other one, which must be recreated when its header is gone. */
  datatype Plan = GiveUp(status: Status) | Use(cur: nat, alt: nat, sectors: nat, rebuild: bool)

  /** The judgement of sysparam_init on the header found at `addr0`. An address outside the flash
      cannot be read; an underflowing one lies outside it too. */
  function Judge(f: Image, addr0: nat): Plan
    requires addr0 + 8 <= |f|
  {
    var n := SectorsOf(f, addr0);
    var addr1 := if IsSecond(f, addr0) then addr0 - n * SECTOR else addr0 + n * SECTOR;
    if addr1 < 0 || addr1 + 8 > |f| then GiveUp(ErrIo)
    else if HasMagic(f, addr1) then
      if IsSecond(f, addr0) == IsSecond(f, addr1) then GiveUp(ErrCorrupt)
      else if IsActive(f, addr0) then Use(addr0, addr1, n, false) else Use(addr1, addr0, n, false)
    else if IsActive(f, addr0) then Use(addr0, addr1, n, true)
    else GiveUp(ErrCorrupt)
  }

  /** No sector inside the first region begins with bytes that look like a region header. */
  predicate NoFalseMagic(f: Image, base: nat, sectors: nat) {
    forall k :: 1 <= k < sectors && base + k * SECTOR + 8 <= |f| ==> !HasMagic(f, base + k * SECTOR)
  }

  /** The scan starts at the area and reaches the first header still standing. */
  predicate Reaches(f: Image, base: nat, sectors: nat, start: nat, top: nat)
    requires Layout(f, base, sectors)
  {
    start == base && top > if HasMagic(f, base) then base else base + sectors * SECTOR
  }

  lemma {:induction false} SectorSteps(base: nat, a: nat, k: nat)
    ensures SectorFrom(base, base + k * SECTOR)
    ensures SectorFrom(base, a) ==> a == base + (a - base) / SECTOR * SECTOR
  {
  }

  /** What the header of a region says. */
  predicate Says(f: Image, a: nat, second: bool, active: bool, sectors: nat) {
    a + 8 <= |f| && HasMagic(f, a) && IsSecond(f, a) == second && IsActive(f, a) == active && SectorsOf(f, a) == sectors
  }

  /** The two headers of a mountable area: the mounted region says it is active, and the other
      one yields or says nothing. */
  predicate Decided(f: Image, base: nat, sectors: nat, second: bool) {
    var b, alt := RegionBase(base, sectors, second), RegionBase(base, sectors, !second);
    && 1 <= sectors && alt + 8 <= |f|
    && Says(f, b, second, true, sectors)
    && (HasMagic(f, alt) ==> Says(f, alt, !second, false, sectors) || (!second && Says(f, alt, true, true, sectors)))
  }

  lemma {:induction false} MountsDecided(f: Image, base: nat, sectors: nat, second: bool, log: Log)
    requires Mounts(f, base, sectors, second, log)
    ensures Decided(f, base, sectors, second)
  {
    var b, alt := RegionBase(base, sectors, second), RegionBase(base, sectors, !second);
    HeaderReads(f, b, second, true, sectors);
    if HeaderIs(f, alt, !second, false, sectors) {
      HeaderReads(f, alt, !second, false, sectors);
    } else if HeaderIs(f, alt, !second, true, sectors) {
      HeaderReads(f, alt, !second, true, sectors);
    }
  }

  /** From either header of a decided area the plan is to use the mounted region, recreating the
      other one exactly when its header is gone. */
  lemma {:induction false} Judged(f: Image, base: nat, sectors: nat, second: bool, addr: nat)
    requires Decided(f, base, sectors, second)
    requires base + 8 <= |f| && addr == if HasMagic(f, base) then base else base + sectors * SECTOR
    ensures addr + 8 <= |f|
    ensures Judge(f, addr) == Use(RegionBase(base, sectors, second), RegionBase(base, sectors, !second), sectors,
                                  !HasMagic(f, RegionBase(base, sectors, !second)))
  {
  }

  /** The scan stops at the first region if its header stands, else at the second. */
  lemma {:induction false} StopsAt(f: Image, base: nat, sectors: nat, top: nat, addr: nat)
    requires 1 <= sectors && base + sectors * SECTOR + 8 <= |f| && NoFalseMagic(f, base, sectors)
    requires HasMagic(f, base) || HasMagic(f, base + sectors * SECTOR)
    requires top > if HasMagic(f, base) then base else base + sectors * SECTOR
    requires SectorFrom(base, addr)
    requires forall a: nat :: SectorFrom(base, a) && a < addr ==> a < top && a + 8 <= |f| && !HasMagic(f, a)
    requires addr >= top || addr + 8 > |f| || HasMagic(f, addr)
    ensures addr < top && addr == if HasMagic(f, base) then base else base + sectors * SECTOR
  {
    SectorSteps(base, addr, sectors);
    if HasMagic(f, base) {
      assert SectorFrom(base, base);
    } else {
      assert SectorFrom(base, base + sectors * SECTOR);
      var k := (addr - base) / SECTOR;
      assert addr == base + k * SECTOR;
    }
  }

  /** Writing a stale header into a freshly erased region keeps the other one mounted. */
  lemma {:induction false} StaleHeader(f: Image, base: nat, sectors: nat, second: bool, log: Log)
    requires ActiveRegion(f, base, sectors, second, log)
    requires var alt := RegionBase(base, sectors, !second); ErasedAt(f, alt, alt + 8)
    ensures var alt := RegionBase(base, sectors, !second);
            var g := Program(f, alt, EncodeRegion(!second, false, sectors));
            && g[alt..alt + 8] == EncodeRegion(!second, false, sectors)
            && Mounts(g, base, sectors, second, log)
  {
    var alt, h := RegionBase(base, sectors, !second), EncodeRegion(!second, false, sectors);
    ProgramErased(f, alt, h);
    RegionFrame(f, Program(f, alt, h), base, sectors, second, log);
  }

  predicate BlankArea(f: Image, base: nat, sectors: nat) {
    Layout(f, base, sectors) && ErasedAt(f, base, base + 2 * sectors * SECTOR)
  }

  /** An active header on an erased region is an empty log. */
  lemma {:induction false} EmptyArea(f: Image, base: nat, sectors: nat)
    requires BlankArea(f, base, sectors)
    ensures var g := Program(f, base, EncodeRegion(false, true, sectors));
            && g[base..base + 8] == EncodeRegion(false, true, sectors)
            && ActiveRegion(g, base, sectors, false, [])
            && ErasedAt(g, base + sectors * SECTOR, base + 2 * sectors * SECTOR)
  {
    var h := EncodeRegion(false, true, sectors);
    ProgramErased(f, base, h);
    EmptyBody(Program(f, base, h), base, sectors);
  }

  lemma {:induction false} WholeWords(sectors: nat)
    requires 1 <= sectors
    ensures (sectors * SECTOR - 8) % 4 == 0
  {
    assert sectors * SECTOR - 8 == 4 * (sectors * 1024 - 2);
  }

  lemma {:induction false} EmptyBody(g: Image, b: nat, sectors: nat)
    requires 1 <= sectors && b + sectors * SECTOR <= |g| && ErasedAt(g, b + 8, b + sectors * SECTOR)
    ensures Holds(Body(g, b, sectors), [])
  {
    var body := Body(g, b, sectors);
    WholeWords(sectors);
    forall k | 0 <= k < |body| ensures body[k] == 0xff {
      assert body[k] == g[b + 8 + k];
    }
  }

  /** The emptiness scan of sysparam_create_area: windows of 32 bytes, 8 bytes apart. It also
      looks at the 24 bytes behind the area. */
  method ScanEmpty(f: Image, base: nat, sectors: nat) returns (status: Status)
    requires sectors >= 1
    ensures status == Ok || status == NotFound || status == ErrIo
    ensures status == Ok <==> ErasedAt(f, base, base + sectors * SECTOR + 24)
    ensures status == NotFound ==> exists i :: base <= i < base + sectors * SECTOR + 24 && i < |f| && f[i] != 0xff
    ensures status == ErrIo ==> base + sectors * SECTOR + 24 > |f|
  {
    var addr, end := base, base + sectors * SECTOR;
    ghost var k := sectors * 512;
    while addr < end
      invariant base <= addr <= end && end - addr == 8 * k
      invariant addr > base ==> addr + 24 <= |f|
      invariant forall i :: base <= i < addr + 24 && addr > base ==> f[i] == 0xff
    {
      if addr + 32 > |f| {
        return ErrIo;
      }
      var i := 0;
      while i < 32
        invariant 0 <= i <= 32
        invariant forall k :: addr <= k < addr + i ==> f[k] == 0xff
      {
        if f[addr + i] != 0xff {
          return NotFound;
        }
        i := i + 1;
      }
      addr, k := addr + 8, k - 1;
    }
    return Ok;
  }

  /** The emptiness scan is stricter than its documentation: an empty area is refused exactly when
      something lies in the 24 bytes behind it. */
  method EmptyAreaRefused(f: Image, base: nat, sectors: nat) returns (status: Status)
    requires sectors >= 1 && ErasedAt(f, base, base + sectors * SECTOR) && base + sectors * SECTOR + 24 <= |f|
    ensures var end := base + sectors * SECTOR;
            status == if forall i :: end <= i < end + 24 ==> f[i] == 0xff then Ok else NotFound
  {
    status := ScanEmpty(f, base, sectors);
  }
}
