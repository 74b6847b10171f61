/** NOR flash as the SPI driver presents it: programming can only clear bits,
    and bits come back to one only by erasing a whole sector. */
module Flash {

  type Image = seq<bv8>

  const SECTOR: nat := 4096

  /** `n` erased bytes. */
  function Erased(n: nat): (r: Image)
    ensures |r| == n
    ensures forall i :: 0 <= i < n ==> r[i] == 0xff
  {
    seq(n, i => 0xff)
  }

  /** sdk_spi_flash_write: a zero bit of `data` clears a flash bit, a one bit leaves it. */
  function Program(f: Image, addr: nat, data: Image): (r: Image)
    requires addr + |data| <= |f|
    ensures |r| == |f|
    ensures forall i :: 0 <= i < |f| ==>
              r[i] == if addr <= i < addr + |data| then f[i] & data[i - addr] else f[i]
  {
    seq(|f|, i requires 0 <= i < |f| => if addr <= i < addr + |data| then f[i] & data[i - addr] else f[i])
  }

  /** sdk_spi_flash_erase_sector. */
  function EraseSector(f: Image, s: nat): (r: Image)
    requires (s + 1) * SECTOR <= |f|
    ensures |r| == |f|
    ensures forall i :: 0 <= i < |f| ==> r[i] == if s * SECTOR <= i < (s + 1) * SECTOR then 0xff else f[i]
  {
    seq(|f|, i requires 0 <= i < |f| => if s * SECTOR <= i < (s + 1) * SECTOR then 0xff else f[i])
  }

  /** A slice outside the programmed range is untouched. */
  lemma {:induction false} ProgramElsewhere(f: Image, addr: nat, data: Image, lo: nat, hi: nat)
    requires addr + |data| <= |f| && lo <= hi <= |f|
    requires hi <= addr || addr + |data| <= lo
    ensures Program(f, addr, data)[lo..hi] == f[lo..hi]
  {
  }

  lemma {:induction false} AllOnes(b: bv8)
    ensures 0xff & b == b
  {
  }

  /** Erased flash takes any data verbatim. */
  lemma {:induction false} ProgramErased(f: Image, addr: nat, data: Image)
    requires addr + |data| <= |f|
    requires forall i :: addr <= i < addr + |data| ==> f[i] == 0xff
    ensures Program(f, addr, data)[addr..addr + |data|] == data
  {
    var g := Program(f, addr, data);
    forall i | 0 <= i < |data| ensures g[addr + i] == data[i] {
      AllOnes(data[i]);
    }
  }
}
