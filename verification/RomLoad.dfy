/** load_rom, the second stage of the boot loader: copies the sections of a checked image into memory. */
module RomLoad {
  import opened Flash
  import opened RomImage
  import opened RomVerify

  type Memory = map<nat, bv8>

  /** The address of byte `k` of a block stored from `a` on; addresses are 32 bits wide. */
  function Cell(a: nat, k: nat): nat {
    Wrap(a + k)
  }

  /** Memory after `bytes` have been stored from address `a` on. */
  function Poke(m: Memory, a: nat, bytes: Image): Memory {
    if bytes == [] then m
    else Poke(m, a, bytes[..|bytes| - 1])[Cell(a, |bytes| - 1) := bytes[|bytes| - 1]]
  }

  /** Memory after the sections have been stored one after the other. */
  function Loaded(f: Image, ss: seq<Section>, m: Memory): Memory
    requires Inside(f, ss)
  {
    if ss == [] then m
    else Poke(Loaded(f, ss[..|ss| - 1], m), ss[|ss| - 1].address, Bytes(f, ss[|ss| - 1]))
  }

  lemma {:induction false} WrapAdds(a: nat, x: nat)
    ensures Wrap(Wrap(a) + x) == Wrap(a + x)
  {
    assert Wrap0(1, a) == Wrap0(0, a);
    assert Wrap0(1, a + x) == Wrap0(0, a + x);
    assert Wrap0(1, Wrap(a) + x) == Wrap0(0, Wrap(a) + x);
  }

  lemma {:induction false} PokeCat(m: Memory, a: nat, x: Image, y: Image)
    ensures Poke(m, a, x + y) == Poke(Poke(m, a, x), Wrap(a + |x|), y)
  {
    if y == [] {
      assert x + y == x;
    } else {
      var z := x + y;
      assert z[..|z| - 1] == x + y[..|y| - 1];
      PokeCat(m, a, x, y[..|y| - 1]);
      WrapAdds(a + |x|, |y| - 1);
    }
  }

  predicate Covers(s: Section, a: nat) {
    exists k :: 0 <= k < s.len && Cell(s.address, k) == a
  }

  lemma {:induction false} PokeAt(m: Memory, a: nat, bytes: Image, x: nat)
    requires forall k :: 0 <= k < |bytes| ==> Cell(a, k) != x
    ensures (x in Poke(m, a, bytes) <==> x in m) && (x in m ==> Poke(m, a, bytes)[x] == m[x])
  {
    if bytes != [] {
      PokeAt(m, a, bytes[..|bytes| - 1], x);
    }
  }

  lemma {:induction false} LoadedOver(f: Image, m: Memory, s: Section, x: nat)
    requires s.start + s.len <= |f| && !Covers(s, x)
    ensures var m' := Poke(m, s.address, Bytes(f, s)); (x in m' <==> x in m) && (x in m ==> m'[x] == m[x])
  {
    PokeAt(m, s.address, Bytes(f, s), x);
  }

  lemma {:induction false} WrapDistinct(a: nat, j: nat, k: nat)
    requires j < k < j + WORD32
    ensures Cell(a, j) != Cell(a, k)
  {
    assert Wrap0(1, a + j) == Wrap0(0, a + j);
    assert Wrap0(1, a + k) == Wrap0(0, a + k);
  }

  lemma {:induction false} PokeHere(m: Memory, a: nat, bytes: Image, k: nat)
    requires k < |bytes| <= WORD32
    ensures Cell(a, k) in Poke(m, a, bytes) && Poke(m, a, bytes)[Cell(a, k)] == bytes[k]
  {
    if k < |bytes| - 1 {
      PokeHere(m, a, bytes[..|bytes| - 1], k);
      WrapDistinct(a, k, |bytes| - 1);
    }
  }

  /** Every byte of a section is in memory at its address, unless a later section overwrites it there. */
  lemma {:induction false} LoadedAt(f: Image, ss: seq<Section>, m: Memory, j: nat, k: nat)
    requires Inside(f, ss) && |f| <= WORD32 && j < |ss| && k < ss[j].len
    requires forall i :: j < i < |ss| ==> !Covers(ss[i], Cell(ss[j].address, k))
    ensures var a := Cell(ss[j].address, k); a in Loaded(f, ss, m) && Loaded(f, ss, m)[a] == f[ss[j].start + k]
  {
    var n, a := |ss| - 1, Cell(ss[j].address, k);
    var before := Loaded(f, ss[..n], m);
    if j == n {
      PokeHere(before, ss[n].address, Bytes(f, ss[n]), k);
    } else {
      assert forall i :: j < i < n ==> ss[..n][i] == ss[i];
      LoadedAt(f, ss[..n], m, j, k);
      assert !Covers(ss[n], a);
      LoadedOver(f, before, ss[n], a);
    }
  }

  /** Memory that no section covers is left alone. */
  lemma {:induction false} LoadedElsewhere(f: Image, ss: seq<Section>, m: Memory, a: nat)
    requires Inside(f, ss) && forall i :: 0 <= i < |ss| ==> !Covers(ss[i], a)
    ensures (a in Loaded(f, ss, m) <==> a in m) && (a in m ==> Loaded(f, ss, m)[a] == m[a])
  {
    if ss != [] {
      var n := |ss| - 1;
      assert forall i :: 0 <= i < n ==> ss[..n][i] == ss[i];
      LoadedElsewhere(f, ss[..n], m, a);
      assert !Covers(ss[n], a);
      LoadedOver(f, Loaded(f, ss[..n], m), ss[n], a);
    }
  }

  /** The block loop of load_rom. */
  method LoadSection(f: Image, s: Section, m: Memory) returns (pos: nat, mem: Memory)
    requires s.start + s.len <= |f| && s.address < WORD32
    ensures pos == s.start + s.len && mem == Poke(m, s.address, Bytes(f, s))
  {
    pos, mem := s.start, m;
    var writepos: nat, remaining: nat := s.address, s.len;
    WrapIs(s.address);
    while remaining > 0
      invariant pos + remaining == s.start + s.len && s.start <= pos
      invariant writepos == Wrap(s.address + (pos - s.start)) && mem == Poke(m, s.address, f[s.start..pos])
    {
      var readlen := if remaining < BLOCK then remaining else BLOCK;
      LoadBlock(f, s, m, pos, readlen);
      mem := Poke(mem, writepos, f[pos..pos + readlen]);
      pos, writepos, remaining := pos + readlen, Wrap(writepos + readlen), remaining - readlen;
    }
  }

  lemma {:induction false} LoadBlock(f: Image, s: Section, m: Memory, pos: nat, len: nat)
    requires s.start <= pos && pos + len <= |f|
    ensures Poke(Poke(m, s.address, f[s.start..pos]), Wrap(s.address + (pos - s.start)), f[pos..pos + len]) ==
              Poke(m, s.address, f[s.start..pos + len])
    ensures Wrap(Wrap(s.address + (pos - s.start)) + len) == Wrap(s.address + (pos + len - s.start))
  {
    PokeCat(m, s.address, f[s.start..pos], f[pos..pos + len]);
    assert f[s.start..pos] + f[pos..pos + len] == f[s.start..pos + len];
    WrapAdds(s.address + (pos - s.start), len);
  }

  /** load_rom, called with what check_image returned. */
  method LoadRom(f: Image, p: nat, m: Memory) returns (entry: nat, mem: Memory)
    requires BootSections(f, p).Parsed?
    ensures p + 8 <= |f| && entry == Word(f, p + 4) && mem == Loaded(f, BootSections(f, p).sections, m)
  {
    entry, mem := Word(f, p + 4), m;
    var pos: nat, count: nat := p + 8, Byte(f[p + 1]);
    ghost var w := BootSections(f, p);
    ghost var done: seq<Section> := [];
    AppendNone([], w, 0);
    while count > 0
      invariant Inside(f, done) && mem == Loaded(f, done, m)
      invariant Sections(f, pos, count).Parsed? && w == Append(done, Sections(f, pos, count))
    {
      LoadNext(f, done, pos, count, m);
      var s := HeaderAt(f, pos);
      pos, mem := LoadSection(f, s, mem);
      done := done + [s];
      count := count - 1;
    }
    AppendNone(done, w, pos);
  }

  lemma {:induction false} LoadNext(f: Image, done: seq<Section>, pos: nat, count: nat, m: Memory)
    requires 0 < count && Sections(f, pos, count).Parsed? && Inside(f, done)
    ensures pos + 8 <= |f|
    ensures var s := HeaderAt(f, pos);
            && s.start + s.len <= |f| && s.address < WORD32 && Inside(f, done + [s])
                && Sections(f, s.start + s.len, count - 1).Parsed?
            && Append(done, Sections(f, pos, count)) == Append(done + [s], Sections(f, s.start + s.len, count - 1))
            && Loaded(f, done + [s], m) == Poke(Loaded(f, done, m), s.address, Bytes(f, s))
  {
    SectionsNext(f, pos, count);
    var s := HeaderAt(f, pos);
    var rest := Sections(f, pos + 8 + s.len, count - 1);
    assert done + ([s] + rest.sections) == done + [s] + rest.sections;
    assert (done + [s])[..|done|] == done;
  }

  /** From the check after an update to the memory of the booted program. The check accepts exactly the
      images of its specification; an accepted image that meets the boot loader's own conditions boots, and
      what is loaded is what was summed. */
  method UpdateThenBoot(f: Image, p: nat, stale: Image, byte: bv8, m: Memory)
    returns (verified: bool, address: nat, mem: Memory)
    requires |stale| == 16 && 0 < p && p + 16 <= |f| && |f| + MAX_IMAGE < WORD32 && !Verdict(f, p).Unchecked?
    ensures verified <==> Verdict(f, p).Parsed?
    ensures address == if Bootable(f, p) then Start(f, p) else 0
    ensures mem == if address == 0 then m else Loaded(f, BootSections(f, address).sections, m)
    ensures verified && (f[p] == MAGIC_NEW ==> f[p + 1] == MAGIC_NEW2 && (p + Word(f, p + 12)) % 16 == 0) ==>
              address != 0 && mem == Loaded(f, Verdict(f, p).sections, m)
  {
    mem := m;
    var length;
    verified, length := VerifyImage(f, p, stale, byte);
    address := CheckImage(f, p);
    if verified {
      VerifiedBoots(f, p);
    }
    if address != 0 {
      var entry;
      entry, mem := LoadRom(f, address, m);
    }
  }
}
