/** rboot_write_init and rboot_write_flash: an image is handed over in chunks of any size and
    lands in flash word by word, each sector being erased just before it is first needed. */
module RbootWriter {
  import opened Flash

  /** Addresses and sector numbers are computed in 32 bits. */
  const WORD32: nat := 0x1_0000_0000

  /** Chunk lengths are computed in 16 bits. */
  const WORD16: nat := 0x1_0000

  function Whole0(level: nat, n: nat): (r: nat)
    ensures r <= n < r + 4
  {
    if level > 0 then Whole0(level - 1, n) else n - n % 4
  }

  /** How many of `n` bytes fill whole words. */
  function Whole(n: nat): nat {
    Whole0(2, n)
  }

  lemma {:induction false} WholeIs(n: nat)
    ensures Whole(n) == n - n % 4
  {
    assert Whole0(1, n) == Whole0(0, n);
  }

  /** One less, in 32-bit arithmetic. */
  function Before(x: nat): nat {
    if x % WORD32 == 0 then WORD32 - 1 else x % WORD32 - 1
  }

  function LastSector0(level: nat, addr: nat, len: nat): nat {
    if level > 0 then LastSector0(level - 1, addr, len) else Before(addr + len) / SECTOR
  }

  lemma {:induction false} WholeGrows(n: nat, m: nat)
    requires n <= m
    ensures Whole(n) <= Whole(m) && (Whole(n) == 0 <==> n < 4)
  {
    WholeIs(n);
    WholeIs(m);
  }

  /** The sector holding the last of `len` bytes at `addr`; one below zero is the top of the 32-bit range. */
  function LastSector(addr: nat, len: nat): nat {
    LastSector0(2, addr, len)
  }

  function LastErased0(level: nat, base: nat, n: nat, wiped: bool): int {
    if level > 0 then LastErased0(level - 1, base, n, wiped)
    else if n == 0 then base / SECTOR - 1
    else if wiped then WORD32 / SECTOR - 1
    else (base + Whole(n) - 1) / SECTOR
  }

  /** The last sector erased once `n` bytes have been handed over. */
  function LastErased(base: nat, n: nat, wiped: bool): int {
    LastErased0(2, base, n, wiped)
  }

  lemma {:induction false} LastSectorIs(addr: nat, len: nat)
    ensures LastSector(addr, len) == Before(addr + len) / SECTOR
  {
    assert LastSector0(1, addr, len) == LastSector0(0, addr, len);
  }

  lemma {:induction false} LastErasedIs(base: nat, n: nat, wiped: bool)
    ensures LastErased(base, n, wiped) ==
              if n == 0 then base / SECTOR - 1
              else if wiped then WORD32 / SECTOR - 1
              else (base + Whole(n) - 1) / SECTOR
  {
    assert LastErased0(1, base, n, wiped) == LastErased0(0, base, n, wiped);
  }

  function Stored0(level: nat, was: Image, base: nat, data: Image, first: nat, next: int): (r: Image)
    ensures |r| == |was|
  {
    if level > 0 then Stored0(level - 1, was, base, data, first, next)
    else
      seq(|was|, i requires 0 <= i < |was| =>
        if base <= i < base + |data| then data[i - base]
        else if first * SECTOR <= i < next * SECTOR then 0xff else was[i])
  }

  /** `was` with sectors [first, next) erased and `data` at `base`; StoredAt says so byte by byte. */
  function Stored(was: Image, base: nat, data: Image, first: nat, next: int): Image {
    Stored0(2, was, base, data, first, next)
  }

  lemma {:induction false} StoredAt(was: Image, base: nat, data: Image, first: nat, next: int)
    ensures var r := Stored(was, base, data, first, next);
            |r| == |was| && forall i {:trigger r[i]} :: 0 <= i < |was| ==>
              r[i] == if base <= i < base + |data| then data[i - base]
                      else if first * SECTOR <= i < next * SECTOR then 0xff else was[i]
  {
    assert Stored0(1, was, base, data, first, next) == Stored0(0, was, base, data, first, next);
  }

  /** The sectors from `first` up to but not including `next`, each once. */
  function Span(first: nat, next: int): (r: seq<nat>)
    requires first <= next
    ensures |r| == next - first && forall i :: 0 <= i < |r| ==> r[i] == first + i
  {
    seq(next - first, i requires 0 <= i < next - first => first + i)
  }

  /** `n` bytes for address `base` fit a flash of that size. */
  predicate Fits(base: nat, n: nat, size: nat) {
    n == 0 || base + Whole(n) <= size
  }

  lemma {:induction false} FitsLess(base: nat, n: nat, m: nat, size: nat)
    requires Fits(base, m, size) && n <= m
    ensures Fits(base, n, size)
  {
    WholeGrows(n, m);
  }

  function Flat(chunks: seq<Image>): Image {
    if chunks == [] then [] else Flat(chunks[..|chunks| - 1]) + chunks[|chunks| - 1]
  }

  /** The first chunk that is not empty, if any. */
  function Leading(chunks: seq<Image>): Image {
    if chunks == [] then []
    else if Leading(chunks[..|chunks| - 1]) != [] then Leading(chunks[..|chunks| - 1])
    else chunks[|chunks| - 1]
  }

  /** Whether the first bytes to arrive are fewer than a word and meant for address 0: the sector number
      computed for them is then the highest there is. */
  predicate Wipes(base: nat, chunks: seq<Image>) {
    base == 0 && 0 < |Leading(chunks)| < 4
  }

  lemma {:induction false} LeadingFlat(chunks: seq<Image>)
    ensures |Leading(chunks)| <= |Flat(chunks)|
    ensures Leading(chunks) == [] <==> Flat(chunks) == []
  {
    if chunks != [] {
      LeadingFlat(chunks[..|chunks| - 1]);
    }
  }

  /** spi_flash_erase_sector, whose refusal of a sector beyond the end of the flash the writer ignores. */
  function EraseIn(f: Image, s: nat): Image {
    if (s + 1) * SECTOR <= |f| then EraseSector(f, s) else f
  }

  lemma {:induction false} EraseNext(was: Image, base: nat, data: Image, first: nat, next: nat)
    requires first <= next && (data == [] || base + |data| <= next * SECTOR) && |was| % SECTOR == 0
    ensures EraseIn(Stored(was, base, data, first, next), next) == Stored(was, base, data, first, next + 1)
  {
    StoredAt(was, base, data, first, next);
    StoredAt(was, base, data, first, next + 1);
    if (next + 1) * SECTOR > |was| {
      assert |was| <= next * SECTOR;
    }
  }

  /** Sectors [lo, hi) erased one after the other. */
  function EraseAll(f: Image, lo: nat, hi: nat): Image {
    if hi <= lo then f else EraseIn(EraseAll(f, lo, hi - 1), hi - 1)
  }

  lemma {:induction false} EraseAllIs(was: Image, base: nat, data: Image, first: nat, lo: nat, hi: nat)
    requires first <= lo <= hi && (data == [] || base + |data| <= lo * SECTOR) && |was| % SECTOR == 0
    ensures EraseAll(Stored(was, base, data, first, lo), lo, hi) == Stored(was, base, data, first, hi)
    decreases hi
  {
    if lo < hi {
      EraseAllIs(was, base, data, first, lo, hi - 1);
      EraseNext(was, base, data, first, hi - 1);
    }
  }

  lemma {:induction false} ProgramNext(was: Image, base: nat, data: Image, more: Image, first: nat, next: int)
    requires first * SECTOR <= base && (more == [] || base + |data| + |more| <= next * SECTOR)
    requires base + |data| + |more| <= |was|
    ensures Program(Stored(was, base, data, first, next), base + |data|, more) ==
              Stored(was, base, data + more, first, next)
  {
    StoredAt(was, base, data, first, next);
    StoredAt(was, base, data + more, first, next);
    var f := Stored(was, base, data, first, next);
    var g := Program(f, base + |data|, more);
    forall i | 0 <= i < |more| ensures g[base + |data| + i] == more[i] {
      AllOnes(more[i]);
    }
    forall i | 0 <= i < |was| ensures g[i] == Stored(was, base, data + more, first, next)[i] {
      if base + |data| <= i < base + |data| + |more| {
        assert g[base + |data| + (i - base - |data|)] == more[i - base - |data|];
      }
    }
  }

  lemma {:induction false} SpanNext(first: nat, next: nat)
    requires first <= next
    ensures Span(first, next) + [next] == Span(first, next + 1)
  {
  }

  lemma {:induction false} SpanJoins(first: nat, mid: nat, next: nat)
    requires first <= mid <= next
    ensures Span(first, mid) + Span(mid, next) == Span(first, next)
  {
  }

  function Divide0(level: nat, extra: Image, chunk: Image): (r: (Image, Image))
    ensures |r.1| < 4
  {
    if level > 0 then Divide0(level - 1, extra, chunk)
    else
      var buffer := extra + chunk;
      var total := |buffer| % WORD16;
      (buffer[..Whole(total)], buffer[Whole(total)..total])
  }

  /** What a call writes and what it leaves over: the bytes left over before come first, and the length
      is kept in 16 bits. */
  function Divide(extra: Image, chunk: Image): (Image, Image) {
    Divide0(2, extra, chunk)
  }

  lemma {:induction false} Divides(data: Image, chunk: Image)
    requires |data| - Whole(|data|) + |chunk| < WORD16
    ensures var (bytes, rest), all := Divide(data[Whole(|data|)..], chunk), data + chunk;
            && Whole(|all|) == Whole(|data|) + |bytes|
            && all[..Whole(|all|)] == data[..Whole(|data|)] + bytes && all[Whole(|all|)..] == rest
  {
    var extra := data[Whole(|data|)..];
    var buffer := extra + chunk;
    DivideIs(extra, chunk);
    WholeAdds(|data|, |chunk|);
    var w, v := Whole(|data|), Whole(|buffer|);
    assert data + chunk == data[..w] + buffer;
    SliceBehind(data[..w], buffer, v);
  }

  lemma {:induction false} DivideIs(extra: Image, chunk: Image)
    requires |extra| + |chunk| < WORD16
    ensures var buffer := extra + chunk;
            Divide(extra, chunk) == (buffer[..Whole(|buffer|)], buffer[Whole(|buffer|)..])
  {
    assert Divide0(1, extra, chunk) == Divide0(0, extra, chunk);
    var buffer := extra + chunk;
    assert |buffer| % WORD16 == |buffer|;
    assert buffer[Whole(|buffer|)..|buffer|] == buffer[Whole(|buffer|)..];
  }

  lemma {:induction false} WholeAdds(n: nat, m: nat)
    ensures Whole(n + m) == Whole(n) + Whole(n - Whole(n) + m)
  {
    WholeIs(n);
    WholeIs(n + m);
    WholeIs(n - Whole(n) + m);
  }

  lemma {:induction false} SliceBehind(front: Image, back: Image, k: nat)
    requires k <= |back|
    ensures (front + back)[..|front| + k] == front + back[..k] && (front + back)[|front| + k..] == back[k..]
  {
  }

  lemma {:induction false} DividesLost(extra: Image, chunk: Image)
    requires |extra| < 4 && |chunk| < WORD16 <= |extra| + |chunk|
    ensures Divide(extra, chunk).0 == []
  {
    assert Divide0(1, extra, chunk) == Divide0(0, extra, chunk);
  }

  lemma {:induction false} LastHolds(addr: nat, len: nat)
    requires 0 < len && addr + len < WORD32
    ensures addr + len <= (LastSector(addr, len) + 1) * SECTOR
  {
    LastSectorIs(addr, len);
  }

  lemma {:induction false} LastSectorBounds(addr: nat, len: nat)
    requires addr + len < WORD32
    ensures var s := LastSector(addr, len) * SECTOR;
            if addr + len == 0 then s == WORD32 - SECTOR else s < addr + len <= s + SECTOR
  {
    LastSectorIs(addr, len);
  }

  lemma {:induction false} LastErasedBounds(base: nat, n: nat, wiped: bool)
    requires base < WORD32 && base + Whole(n) < WORD32 && (wiped ==> base == 0 < n)
    requires (base == 0 && 0 < n < 4 ==> wiped)
    ensures var s := LastErased(base, n, wiped) * SECTOR;
            if n == 0 then s + SECTOR <= base < s + 2 * SECTOR
            else if wiped then s == WORD32 - SECTOR else s < base + Whole(n) <= s + SECTOR
    ensures base / SECTOR <= LastErased(base, n, wiped) + 1
  {
    LastErasedIs(base, n, wiped);
  }

  /** The sector computed from a chunk's address and length leaves the last sector erased where it should be. */
  lemma {:induction false} LastIs(base: nat, n: nat, more: nat, len: nat, wiped: bool, wipes: bool)
    requires base < WORD32 && 0 < more && Whole(n + more) == Whole(n) + len && base + Whole(n) + len < WORD32
    requires (wiped ==> base == 0 && 0 < n) && (base == 0 && 0 < n < 4 ==> wiped)
    requires wipes == if n == 0 then base == 0 && more < 4 else wiped
    ensures var last, before := LastSector(base + Whole(n), len), LastErased(base, n, wiped);
            LastErased(base, n + more, wipes) == if last > before then last else before
    ensures LastErased(base, n, wiped) <= LastErased(base, n + more, wipes)
    ensures base / SECTOR <= LastErased(base, n, wiped) + 1
    ensures Whole(n) == 0 || base + Whole(n) <= (LastErased(base, n, wiped) + 1) * SECTOR
    ensures base + Whole(n + more) <= (LastErased(base, n + more, wipes) + 1) * SECTOR
  {
    WholeGrows(n, n + more);
    WholeGrows(n + more, n + more);
    LastSectorBounds(base + Whole(n), len);
    LastErasedBounds(base, n, wiped);
    LastErasedBounds(base, n + more, wipes);
  }

  /** What the flash holds: the whole words of `data`, in sectors erased once each. */
  predicate Lies(base: nat, was: Image, data: Image, erases: seq<nat>, flash: Image, last: int) {
    && |was| % SECTOR == 0 && |was| + WORD16 < WORD32 && base < WORD32 && base / SECTOR <= last + 1
    && (Whole(|data|) == 0 || base + Whole(|data|) <= (last + 1) * SECTOR)
    && erases == Span(base / SECTOR, last + 1)
    && flash == Stored(was, base, data[..Whole(|data|)], base / SECTOR, last + 1)
  }

  predicate Follows0(level: nat, base: nat, was: Image, data: Image, wiped: bool, erases: seq<nat>,
                     flash: Image, start: nat, last: int, extra: Image)
  {
    if level > 0 then Follows0(level - 1, base, was, data, wiped, erases, flash, start, last, extra)
    else
      && Lies(base, was, data, erases, flash, last) && last == LastErased(base, |data|, wiped)
      && (data == [] || base + Whole(|data|) <= |was|)
      && (wiped ==> base == 0 && data != []) && (base == 0 && 0 < |data| < 4 ==> wiped)
      && start == base + Whole(|data|) && extra == data[Whole(|data|)..]
  }

  /** The state after `data` has been handed over for address `base` of a flash that was `was`. */
  predicate Follows(base: nat, was: Image, data: Image, wiped: bool, erases: seq<nat>,
                    flash: Image, start: nat, last: int, extra: Image)
  {
    Follows0(2, base, was, data, wiped, erases, flash, start, last, extra)
  }

  lemma {:induction false} Unfold(base: nat, was: Image, data: Image, wiped: bool, erases: seq<nat>,
                                  flash: Image, start: nat, last: int, extra: Image)
    ensures Follows(base, was, data, wiped, erases, flash, start, last, extra) <==>
              && Lies(base, was, data, erases, flash, last) && last == LastErased(base, |data|, wiped)
              && (data == [] || base + Whole(|data|) <= |was|)
              && (wiped ==> base == 0 && data != []) && (base == 0 && 0 < |data| < 4 ==> wiped)
              && start == base + Whole(|data|) && extra == data[Whole(|data|)..]
  {
    assert Follows0(1, base, was, data, wiped, erases, flash, start, last, extra)
        == Follows0(0, base, was, data, wiped, erases, flash, start, last, extra);
  }

  lemma {:induction false} Took(base: nat, was: Image, data: Image, wiped: bool, erases: seq<nat>, flash: Image,
                                start: nat, last: int, extra: Image,
                                chunk: Image, bytes: Image, erases': seq<nat>, flash': Image, last': int)
    requires Follows(base, was, data, wiped, erases, flash, start, last, extra)
    requires chunk != [] && |extra| + |chunk| < WORD16 && bytes == Divide(extra, chunk).0 && start + |bytes| <= |was|
    requires last' == if LastSector(start, |bytes|) > last then LastSector(start, |bytes|) else last
    requires base / SECTOR <= last' + 1 && erases' == Span(base / SECTOR, last' + 1)
    requires flash' == Stored(was, base, data[..Whole(|data|)] + bytes, base / SECTOR, last' + 1)
    ensures Follows(base, was, data + chunk, if data == [] then base == 0 && |chunk| < 4 else wiped, erases',
                    flash', start + |bytes|, last', Divide(extra, chunk).1)
  {
    Unfold(base, was, data, wiped, erases, flash, start, last, extra);
    Divides(data, chunk);
    var wipes := if data == [] then base == 0 && |chunk| < 4 else wiped;
    LastIs(base, |data|, |chunk|, |bytes|, wiped, wipes);
    Unfold(base, was, data + chunk, wipes, erases', flash', start + |bytes|, last', Divide(extra, chunk).1);
  }

  /** How much a chunk adds to what is in flash. */
  lemma {:induction false} Adds(base: nat, was: Image, data: Image, wiped: bool, erases: seq<nat>,
                                flash: Image, start: nat, last: int, extra: Image, chunk: Image)
    requires Follows(base, was, data, wiped, erases, flash, start, last, extra)
    ensures Lies(base, was, data, erases, flash, last) && start == base + Whole(|data|) && |extra| < 4
    ensures |extra| + |chunk| < WORD16 ==> base + Whole(|data + chunk|) == start + |Divide(extra, chunk).0|
  {
    Unfold(base, was, data, wiped, erases, flash, start, last, extra);
    if |extra| + |chunk| < WORD16 {
      Divides(data, chunk);
    }
  }

  /** rboot_write_status together with the flash it writes. */
  class Writer {
    var flash: Image
    var startAddr: nat
    var lastErased: int
    var extra: Image

    /** The address given at first, the flash as it was then, the bytes handed over since,
        whether they began below a word at address 0, and the sectors erased, in order. */
    ghost const base: nat
    ghost const was: Image
    ghost var data: Image
    ghost var wiped: bool
    ghost var erases: seq<nat>

    ghost predicate Laid()
      reads this
    {
      Lies(base, was, data, erases, flash, lastErased)
    }

    ghost predicate Valid()
      reads this
    {
      && Follows(base, was, data, wiped, erases, flash, startAddr, lastErased, extra)
      && |flash| == |was| && |was| % SECTOR == 0 && |was| + WORD16 < WORD32 && |extra| < 4
    }

    /** rboot_write_init. */
    constructor (f: Image, addr: nat)
      requires |f| % SECTOR == 0 && |f| + WORD16 < WORD32 && addr < WORD32
      ensures Valid() && flash == f && was == f && base == addr && data == [] && !wiped && erases == []
    {
      flash, startAddr, lastErased, extra := f, addr, addr / SECTOR - 1, [];
      base, was, data, wiped, erases := addr, f, [], false, [];
      new;
      LastErasedIs(addr, 0, false);
      Unfold(base, was, data, wiped, erases, flash, startAddr, lastErased, extra);
      StoredAt(f, addr, [], addr / SECTOR, addr / SECTOR);
      assert Stored(f, addr, [], addr / SECTOR, addr / SECTOR) == f;
    }

    /** The erase loop: every sector after the last one erased, up to `last`. */
    method EraseUpTo(last: nat)
      requires -1 <= lastErased
      modifies this`flash, this`lastErased, this`erases
      ensures lastErased == if last > old(lastErased) then last else old(lastErased)
      ensures flash == EraseAll(old(flash), old(lastErased) + 1, lastErased + 1)
      ensures erases == old(erases) + Span(old(lastErased) + 1, lastErased + 1)
    {
      while last > lastErased
        invariant old(lastErased) <= lastErased && (lastErased <= last || lastErased == old(lastErased))
        invariant flash == EraseAll(old(flash), old(lastErased) + 1, lastErased + 1)
        invariant erases == old(erases) + Span(old(lastErased) + 1, lastErased + 1)
      {
        SpanNext(old(lastErased) + 1, lastErased + 1);
        lastErased := lastErased + 1;
        erases := erases + [lastErased];
        flash := EraseIn(flash, lastErased);
      }
    }

    /** The same, in terms of what the flash then holds. */
    method Reserve(last: nat)
      requires Laid()
      modifies this`flash, this`lastErased, this`erases
      ensures Laid() && lastErased == if last > old(lastErased) then last else old(lastErased)
    {
      ghost var d, first, before := data[..Whole(|data|)], base / SECTOR, lastErased;
      EraseUpTo(last);
      EraseAllIs(was, base, d, first, before + 1, lastErased + 1);
      SpanJoins(first, before + 1, lastErased + 1);
    }

    /** spi_flash_write at the current address. */
    method Append(bytes: Image)
      requires Laid() && startAddr == base + Whole(|data|) && startAddr + |bytes| <= |flash|
      requires (bytes == [] || startAddr + |bytes| <= (lastErased + 1) * SECTOR)
      modifies this`flash, this`startAddr
      ensures startAddr == old(startAddr) + |bytes|
      ensures flash == Stored(was, base, data[..Whole(|data|)] + bytes, base / SECTOR, lastErased + 1)
    {
      ProgramNext(was, base, data[..Whole(|data|)], bytes, base / SECTOR, lastErased + 1);
      flash := Program(flash, startAddr, bytes);
      startAddr := (startAddr + |bytes|) % WORD32;
    }

    /** Erase ahead, write, and keep what is left over. */
    method Pass(bytes: Image, rest: Image) returns (ok: bool)
      requires Laid() && startAddr == base + Whole(|data|)
      modifies this`flash, this`lastErased, this`erases, this`startAddr, this`extra
      ensures extra == rest && |flash| == |was| && ok == (old(startAddr) + |bytes| <= |was|)
      ensures var last := LastSector(old(startAddr), |bytes|);
              lastErased == if last > old(lastErased) then last else old(lastErased)
      ensures base / SECTOR <= lastErased + 1
      ensures !ok ==> Laid() && startAddr == old(startAddr)
      ensures ok ==> startAddr == old(startAddr) + |bytes| && erases == Span(base / SECTOR, lastErased + 1)
                     && flash == Stored(was, base, data[..Whole(|data|)] + bytes, base / SECTOR, lastErased + 1)
    {
      extra := rest;
      Reserve(LastSector(startAddr, |bytes|));
      ok := startAddr + |bytes| <= |flash|;
      if ok {
        if bytes != [] {
          LastHolds(startAddr, |bytes|);
        }
        Append(bytes);
      }
    }

    /** rboot_write_flash: a chunk whose length fits 16 bits together with what was left over is taken whole or,
        if it would run past the end of the flash, not at all; a longer one wraps the length and is lost. */
    method Write(chunk: Image) returns (ok: bool)
      requires Valid() && |chunk| < WORD16
      modifies this
      ensures chunk == [] ==> ok && data == old(data) && wiped == old(wiped) && Valid()
      ensures chunk != [] && |old(extra)| + |chunk| < WORD16 ==>
                && ok == (base + Whole(|old(data) + chunk|) <= |was|)
                && (ok ==> Valid() && data == old(data) + chunk
                           && wiped == if old(data) == [] then base == 0 && |chunk| < 4 else old(wiped))
      ensures !ok || |old(extra)| + |chunk| >= WORD16 ==>
                Laid() && data == old(data) && startAddr == old(startAddr) && lastErased >= old(lastErased)
    {
      if chunk == [] {
        return true;
      }
      Adds(base, was, data, wiped, erases, flash, startAddr, lastErased, extra, chunk);
      var (bytes, rest) := Divide(extra, chunk);
      ok := Pass(bytes, rest);
      if |old(extra)| + |chunk| >= WORD16 {
        DividesLost(old(extra), chunk);
        assert data[..Whole(|data|)] + [] == data[..Whole(|data|)];
      } else if ok {
        Took(base, was, data, wiped, old(erases), old(flash), old(startAddr), old(lastErased), old(extra), chunk, bytes,
            erases, flash, lastErased);
        wiped, data := if data == [] then base == 0 && |chunk| < 4 else wiped, data + chunk;
      }
    }

    /** The documented use: chunks of at most a sector. */
    method Feed(chunk: Image) returns (ok: bool)
      requires Valid() && |chunk| <= SECTOR
      modifies this
      ensures chunk != [] ==> ok == Fits(base, |old(data) + chunk|, |was|)
      ensures chunk == [] ==> ok
      ensures ok ==> Valid() && data == old(data) + chunk
      ensures ok ==> wiped == if old(data) == [] && chunk != [] then base == 0 && |chunk| < 4 else old(wiped)
    {
      assert chunk == [] ==> data + chunk == data;
      ok := Write(chunk);
    }

    /** A whole image. */
    method Stream(chunks: seq<Image>) returns (ok: bool)
      requires Valid() && data == [] && !wiped && forall c :: c in chunks ==> |c| <= SECTOR
      modifies this
      ensures ok == Fits(base, |Flat(chunks)|, |was|)
      ensures ok ==> Valid() && data == Flat(chunks) && wiped == Wipes(base, chunks)
    {
      ok := true;
      var i := 0;
      while i < |chunks|
        invariant i <= |chunks| && ok && Valid()
        invariant data == Flat(chunks[..i]) && wiped == Wipes(base, chunks[..i])
        invariant Fits(base, |data|, |was|)
      {
        FlatStep(base, chunks, i);
        ghost var all := data + chunks[i];
        assert chunks[i] == [] ==> all == data;
        ok := Feed(chunks[i]);
        if !ok {
          FlatGrows(chunks, i + 1);
          if Fits(base, |Flat(chunks)|, |was|) {
            FitsLess(base, |all|, |Flat(chunks)|, |was|);
          }
          return;
        }
        i := i + 1;
      }
      assert chunks[..i] == chunks;
    }
  }

  lemma {:induction false} FlatStep(base: nat, chunks: seq<Image>, i: nat)
    requires i < |chunks|
    ensures Flat(chunks[..i + 1]) == Flat(chunks[..i]) + chunks[i] && chunks[i] in chunks
    ensures Wipes(base, chunks[..i + 1]) ==
              if Flat(chunks[..i]) == [] && chunks[i] != [] then base == 0 && |chunks[i]| < 4
                  else Wipes(base, chunks[..i])
  {
    assert chunks[..i + 1][..i] == chunks[..i];
    LeadingFlat(chunks[..i]);
  }

  lemma {:induction false} FlatGrows(chunks: seq<Image>, i: nat)
    requires i <= |chunks|
    ensures |Flat(chunks[..i])| <= |Flat(chunks)|
    decreases |chunks| - i
  {
    if i < |chunks| {
      assert chunks[..i + 1][..i] == chunks[..i];
      FlatGrows(chunks, i + 1);
    } else {
      assert chunks[..i] == chunks;
    }
  }

  /** rboot_write_init and rboot_write_flash over a whole image: what the flash holds in the end. */
  method WriteImage(f: Image, addr: nat, chunks: seq<Image>) returns (ok: bool, flash: Image, left: Image)
    requires |f| % SECTOR == 0 && |f| + WORD16 < WORD32 && addr < WORD32 && forall c :: c in chunks ==> |c| <= SECTOR
    ensures var all := Flat(chunks);
            && ok == Fits(addr, |all|, |f|)
            && (ok ==> left == all[Whole(|all|)..]
                       && flash == Stored(f, addr, all[..Whole(|all|)], addr / SECTOR,
                           LastErased(addr, |all|, Wipes(addr, chunks)) + 1))
  {
    var w := new Writer(f, addr);
    ok := w.Stream(chunks);
    Unfold(w.base, w.was, w.data, w.wiped, w.erases, w.flash, w.startAddr, w.lastErased, w.extra);
    flash, left := w.flash, w.extra;
  }

  /** However an image is cut into chunks, the same flash results, except for address 0 when one way of
      cutting it begins with less than a word and the other does not: then exactly if the sectors above the
      image were blank. */
  method ChunkingIndependent(f: Image, addr: nat, xs: seq<Image>, ys: seq<Image>)
    returns (ok: bool, flash: Image, left: Image, ok': bool, flash': Image, left': Image)
    requires |f| % SECTOR == 0 && |f| + WORD16 < WORD32 && addr < WORD32
    requires (forall c :: c in xs ==> |c| <= SECTOR) && (forall c :: c in ys ==> |c| <= SECTOR)
    requires Flat(xs) == Flat(ys)
    ensures ok == ok' == Fits(addr, |Flat(xs)|, |f|) && (ok ==> left == left')
    ensures ok ==> (flash == flash' <==> Wipes(addr, xs) == Wipes(addr, ys) || BlankAbove(f, |Flat(xs)|))
  {
    ok, flash, left := WriteImage(f, addr, xs);
    ok', flash', left' := WriteImage(f, addr, ys);
    if ok && Wipes(addr, xs) != Wipes(addr, ys) {
      LeadingFlat(xs);
      LeadingFlat(ys);
      WipeShows(f, Flat(xs));
    }
  }

  /** The sectors above the first `n` bytes are blank. */
  predicate BlankAbove(f: Image, n: nat) {
    forall i :: 0 <= i < |f| && (LastErased(0, n, false) + 1) * SECTOR <= i ==> f[i] == 0xff
  }

  lemma {:induction false} OnePiece(a: Image)
    ensures Flat([a]) == a && Leading([a]) == a
  {
    assert [a][..0] == [];
  }

  lemma {:induction false} TwoPieces(a: Image, b: Image)
    requires a != []
    ensures Flat([a, b]) == a + b && Leading([a, b]) == a
  {
    assert [a, b][..1] == [a];
    OnePiece(a);
  }

  /** Four bytes for address 0, once as one chunk and once as one byte and three: with anything in the
      second sector the two writes leave different flashes. */
  method WipeMatters(f: Image, word: Image) returns (flash: Image, flash': Image)
    requires |f| % SECTOR == 0 && |f| + WORD16 < WORD32 && |word| == 4
    requires SECTOR < |f| && f[SECTOR] != 0xff
    ensures flash != flash'
  {
    var one, two := [word], [word[..1], word[1..]];
    OnePiece(word);
    TwoPieces(word[..1], word[1..]);
    assert word[..1] + word[1..] == word;
    WholeIs(4);
    LastErasedIs(0, 4, false);
    assert !BlankAbove(f, 4);
    var ok, left, ok', left';
    ok, flash, left, ok', flash', left' := ChunkingIndependent(f, 0, one, two);
  }

  /** In that one case every sector above is erased too, which shows unless the flash there was blank. */
  lemma {:induction false} WipeShows(f: Image, data: Image)
    requires |f| % SECTOR == 0 && |f| < WORD32 && 4 <= |data| && Whole(|data|) <= |f|
    ensures var whole := data[..Whole(|data|)];
            var some, all := LastErased(0, |data|, false) + 1, LastErased(0, |data|, true) + 1;
            Stored(f, 0, whole, 0, some) == Stored(f, 0, whole, 0, all) <==> BlankAbove(f, |data|)
  {
    var whole, some, all := data[..Whole(|data|)], LastErased(0, |data|, false) + 1, LastErased(0, |data|, true) + 1;
    LastErasedIs(0, |data|, false);
    LastErasedIs(0, |data|, true);
    StoredAt(f, 0, whole, 0, some);
    StoredAt(f, 0, whole, 0, all);
    var g, h := Stored(f, 0, whole, 0, some), Stored(f, 0, whole, 0, all);
    if g == h {
      forall i | some * SECTOR <= i < |f| ensures f[i] == 0xff {
        assert g[i] == f[i] && h[i] == 0xff;
      }
    }
    if BlankAbove(f, |data|) {
      assert forall i :: 0 <= i < |f| ==> g[i] == h[i];
    }
  }
}
