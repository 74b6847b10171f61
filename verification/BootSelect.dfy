/** find_image, the first stage of the boot loader: which of the configured slots is booted. The build
    is the default one: no configuration checksum, no big flash, no RTC data, no GPIO. */
module BootSelect {
  import opened Flash
  import opened RomImage

  const MAX_ROMS: nat := 4
  const CONFIG_MAGIC: bv8 := 0xe1
  const CONFIG_VERSION: bv8 := 0x01

  /** The configuration sector, a copy of which the loader edits: magic, version, mode, current ROM, GPIO ROM,
      count, two bytes of padding and the slot addresses. */
  type Config = c: Image | |c| == SECTOR witness Erased(SECTOR)

  function Count(c: Config): nat { Byte(c[5]) }

  function Slot(c: Config, i: nat): nat
    requires i < MAX_ROMS
  {
    Word(c, 8 + 4 * i)
  }

  /** The slot to begin with: the current one, or the first if there is no such slot. */
  function Current(c: Config): nat {
    if Byte(c[3]) < Count(c) then Byte(c[3]) else 0
  }

  function RomByte0(level: nat, n: nat): bv8
    requires n < MAX_ROMS
  {
    if level > 0 then RomByte0(level - 1, n)
    else if n == 0 then 0 else if n == 1 then 1 else if n == 2 then 2 else 3
  }

  function RomByte(n: nat): bv8
    requires n < MAX_ROMS
  {
    RomByte0(2, n)
  }

  lemma {:induction false} RomByteIs(n: nat)
    requires n < MAX_ROMS
    ensures Byte(RomByte(n)) == n
  {
    assert RomByte0(1, n) == RomByte0(0, n);
    assert Byte0(1, RomByte(n)) == Byte0(0, RomByte(n));
  }

  /** The third byte of the second slot's address, from the flash size nibble of the header at address 0: half of
      512 KB, of 256 KB, of 1 MB (which larger chips count as), or of 512 KB if unknown; then 8 KB. */
  function HalfSize(flags: bv8): bv8 {
    if flags >> 4 == 0 then 0x04 else if flags >> 4 == 1 then 0x02
    else if flags >> 4 == 2 || flags >> 4 == 3 || flags >> 4 == 4 then 0x08 else 0x04
  }

  /** The configuration a loader without one writes: two slots, the first current. */
  function Default(c: Config, flags: bv8): Config {
    [CONFIG_MAGIC, CONFIG_VERSION, 0, 0, 0, 2, 0, 0, 0x00, 0x20, 0x00, 0x00, 0x00, 0x20, HalfSize(flags), 0x00,
     0, 0, 0, 0, 0, 0, 0, 0] + c[24..]
  }

  predicate Configured(c: Config) {
    c[0] == CONFIG_MAGIC && c[1] == CONFIG_VERSION
  }

  lemma {:induction false} ByteIs(b: bv8)
    ensures Byte(b) == b as nat
  {
    assert Byte0(1, b) == Byte0(0, b);
  }

  lemma {:induction false} WordIs(c: Config, a: nat)
    requires a + 4 <= |c|
    ensures Word(c, a) == Byte(c[a]) + 0x100 * Byte(c[a + 1]) + 0x1_0000 * Byte(c[a + 2]) + 0x100_0000 * Byte(c[a + 3])
  {
    assert Word0(1, c, a) == Word0(0, c, a);
  }

  /** The default configuration boots from behind itself, and after that from half of the flash on. */
  lemma {:induction false} DefaultIs(c: Config, flags: bv8)
    ensures var d := Default(c, flags);
            && Configured(d) && Count(d) == 2 && Current(d) == 0 && Slot(d, 0) == 2 * SECTOR
            && Slot(d, 1) == 2 * SECTOR + 0x1_0000 * Byte(HalfSize(flags))
  {
    var d := Default(c, flags);
    ByteIs(0);
    ByteIs(2);
    ByteIs(0x20);
    WordIs(d, 8);
    WordIs(d, 12);
  }

  /** The configuration used at boot. */
  function Effective(f: Image): Config
    requires |f| >= 2 * SECTOR
  {
    var c := f[SECTOR..2 * SECTOR];
    if Configured(c) then c else Default(c, f[3])
  }

  /** The flash with its configuration sector replaced. */
  function WithConfig(f: Image, c: Config): Image
    requires |f| >= 2 * SECTOR
  {
    f[..SECTOR] + c + f[2 * SECTOR..]
  }

  lemma {:induction false} SectorReplaced(f: Image, c: Config)
    requires |f| >= 2 * SECTOR
    ensures Program(EraseSector(f, 1), SECTOR, c) == WithConfig(f, c)
    ensures |WithConfig(f, c)| == |f| && WithConfig(f, c)[SECTOR..2 * SECTOR] == c
  {
    var e := EraseSector(f, 1);
    ProgramErased(e, SECTOR, c);
    var g := Program(e, SECTOR, c);
    forall i | 0 <= i < |f| ensures g[i] == WithConfig(f, c)[i] {
      if SECTOR <= i < 2 * SECTOR {
        assert g[SECTOR..2 * SECTOR][i - SECTOR] == c[i - SECTOR];
      }
    }
  }

  lemma {:induction false} SameConfig(f: Image)
    requires |f| >= 2 * SECTOR
    ensures WithConfig(f, f[SECTOR..2 * SECTOR]) == f
  {
  }

  /** The slots in the order they are tried: down from the current one, and round from the last. */
  function Tried(count: nat, current: nat, k: nat): nat
    requires current < count && k < count
  {
    if k <= current then current - k else current + count - k
  }

  /** Every slot is tried, and none twice. */
  lemma {:induction false} EachTried(count: nat, current: nat, i: nat)
    requires current < count && i < count
    ensures exists k :: 0 <= k < count && Tried(count, current, k) == i
    ensures forall j, k :: 0 <= j < k < count ==> Tried(count, current, j) != Tried(count, current, k)
  {
    var k := if i <= current then current - i else current + count - i;
    assert Tried(count, current, k) == i;
  }

  function Entry0(level: nat, f: Image, p: nat): nat {
    if level > 0 then Entry0(level - 1, f, p) else if Bootable(f, p) then Start(f, p) else 0
  }

  /** What check_image answers for a slot address: where to load from, or 0. */
  function Entry(f: Image, p: nat): nat {
    Entry0(2, f, p)
  }

  lemma {:induction false} EntryIs(f: Image, p: nat)
    ensures Entry(f, p) == if Bootable(f, p) then Start(f, p) else 0
    ensures Entry(f, p) != 0 <==> Bootable(f, p)
  {
    assert Entry0(1, f, p) == Entry0(0, f, p);
  }

  method Check(f: Image, p: nat) returns (address: nat)
    requires p < WORD32
    ensures address == Entry(f, p)
  {
    EntryIs(f, p);
    address := CheckImage(f, p);
  }

  /** No slot boots. */
  predicate NoneGood(f: Image, c: Config)
    requires Count(c) <= MAX_ROMS
  {
    forall i :: 0 <= i < Count(c) ==> Entry(f, Slot(c, i)) == 0
  }

  /** Slot `rom` is the k-th tried and the first that boots. */
  predicate FirstGood(f: Image, c: Config, current: nat, k: nat, rom: nat)
    requires Count(c) <= MAX_ROMS && current < Count(c)
  {
    && k < Count(c) && rom == Tried(Count(c), current, k) && rom < Count(c) && Entry(f, Slot(c, rom)) != 0
    && forall j :: 0 <= j < k ==> Entry(f, Slot(c, Tried(Count(c), current, j))) == 0
  }

  /** The fallback loop: the slot after the current one, going down, until one boots or the current one comes round. */
  method Fallback(f: Image, c: Config, current: nat) returns (address: nat, rom: nat, moved: bool, k: nat)
    requires 1 <= Count(c) <= MAX_ROMS && current < Count(c)
    ensures address != 0 ==> FirstGood(f, c, current, k, rom) && address == Entry(f, Slot(c, rom)) && moved == (k > 0)
    ensures address == 0 <==> NoneGood(f, c)
  {
    var count := Count(c);
    rom, moved, k := current, false, 0;
    address := Check(f, Slot(c, rom));
    while address == 0
      invariant k < count && rom == Tried(count, current, k) && moved == (k > 0) && address == Entry(f, Slot(c, rom))
      invariant forall j :: 0 <= j < k ==> Entry(f, Slot(c, Tried(count, current, j))) == 0
      decreases count - k
    {
      moved := true;
      rom := if rom == 0 then count - 1 else rom - 1;
      k := k + 1;
      if rom == current {
        forall i | 0 <= i < count ensures Entry(f, Slot(c, i)) == 0 {
          EachTried(count, current, i);
        }
        return;
      }
      address := Check(f, Slot(c, rom));
    }
  }

  /** The configuration with another current slot. */
  function Choose(c: Config, rom: nat): Config
    requires rom < MAX_ROMS
  {
    c[3 := RomByte(rom)]
  }

  /** What was chosen is what the next boot begins with. */
  lemma {:induction false} Chosen(f: Image, c: Config, rom: nat)
    requires |f| >= 2 * SECTOR && Configured(c) && rom < Count(c) <= MAX_ROMS
    ensures |WithConfig(f, c)| == |f| && Effective(WithConfig(f, Choose(c, rom))) == Choose(c, rom)
    ensures Current(Choose(c, rom)) == rom && (Byte(c[3]) == rom ==> Choose(c, rom) == c)
    ensures WithConfig(WithConfig(f, c), Choose(c, rom)) == WithConfig(f, Choose(c, rom))
  {
    RomByteIs(rom);
    SectorReplaced(f, Choose(c, rom));
    if Byte(c[3]) == rom {
      SameByte(c[3], RomByte(rom));
      assert c[3 := c[3]] == c;
    }
  }

  lemma {:induction false} SameByte(a: bv8, b: bv8)
    requires Byte(a) == Byte(b)
    ensures a == b
  {
    assert Byte0(1, a) == Byte0(0, a);
    assert Byte0(1, b) == Byte0(0, b);
  }

  class Loader {
    var flash: Image

    /** Erase and rewrite the configuration sector. */
    method SaveConfig(c: Config)
      requires |flash| >= 2 * SECTOR
      modifies this
      ensures flash == WithConfig(old(flash), c) && |flash| == |old(flash)|
    {
      SectorReplaced(flash, c);
      flash := EraseSector(flash, 1);
      flash := Program(flash, SECTOR, c);
    }

    method LoadConfig() returns (c: Config)
      requires |flash| >= 2 * SECTOR
      modifies this
      ensures c == Effective(old(flash)) && Configured(c) && flash == WithConfig(old(flash), c)
      ensures |flash| == |old(flash)|
    {
      c := flash[SECTOR..2 * SECTOR];
      SameConfig(flash);
      if !Configured(c) {
        c := Default(c, flash[3]);
        SaveConfig(c);
      }
    }

    /** find_image: boots the first good slot, counting down from the current one, and makes it the current one. */
    method FindImage() returns (address: nat, rom: nat, ghost k: nat)
      requires |flash| >= 2 * SECTOR && 1 <= Count(Effective(flash)) <= MAX_ROMS
      modifies this
      ensures var c := Effective(old(flash));
              var f := WithConfig(old(flash), c);
              && (address == 0 <==> NoneGood(f, c)) && (address == 0 ==> flash == f)
              && (address != 0 ==>
                    && FirstGood(f, c, Current(c), k, rom) && address == Entry(f, Slot(c, rom))
                    && flash == WithConfig(old(flash), Choose(c, rom)) && Effective(flash) == Choose(c, rom)
                        && Current(Choose(c, rom)) == rom)
    {
      var c := LoadConfig();
      ghost var f0 := old(flash);
      var update := Byte(c[3]) >= Count(c);
      var current := if update then 0 else Byte(c[3]);
      var moved;
      address, rom, moved, k := Fallback(flash, c, current);
      if address != 0 {
        Chosen(f0, c, rom);
        if update || moved {
          SaveConfig(Choose(c, rom));
        }
      }
    }
  }
}
