/** The on-flash format of a sysparam region: what a log of entries means,
    byte for byte and as a key/value table. */
module SysparamLog {
  import opened Flash

  const REGION_HEADER_SIZE: nat := 8
  const MAX_KEY_LEN: nat := 0xffff
  const MAX_VALUE_LEN: nat := 0xffff
  const MAX_KEY_ID: nat := 0xffe
  const ENTRY_ID_END: nat := 0xfff
  const ENTRY_ID_ANY: nat := 0x1000

  datatype Option<+T> = None | Some(value: T)

  /** One log entry. `data` is the payload area as it stands in flash. */
  datatype Entry = Entry(alive: bool, invalid: bool, isValue: bool, binary: bool, id: nat, data: Image)
  {
    predicate Live() { alive && !invalid }
    predicate IsKey() { Live() && !isValue }
    predicate IsVal() { Live() && isValue }
    predicate Encodable() { 1 <= id <= MAX_KEY_ID && |data| <= 0xffff }
    function Space(): (r: nat) { EntrySize(|data|) }
    function Head(): Header { Header(alive, invalid, isValue, binary, id, |data|) }
  }

  datatype Header = Header(alive: bool, invalid: bool, isValue: bool, binary: bool, id: nat, len: nat)
  {
    predicate Encodable() { id <= 0xfff && len <= 0xffff }
    predicate Live() { alive && !invalid }
  }

  /** ENTRY_SIZE: header plus payload rounded up to a word. */
  function EntrySize(len: nat): (r: nat)
    ensures len + 4 <= r <= len + 7
  {
    4 + (len + 3) / 4 * 4
  }

  // ----------------------------------------------------------- entry headers

  function Flag(b: bool, mask: bv8): bv8 { if b then mask else 0 }

  function FlagByte0(level: nat, alive: bool, invalid: bool, isValue: bool, binary: bool, high: bv8): bv8 {
    if level > 0 then FlagByte0(level - 1, alive, invalid, isValue, binary, high)
    else Flag(alive, 0x80) | Flag(invalid, 0x40) | Flag(isValue, 0x20) | Flag(binary, 0x10) | high
  }

  function FlagByte(alive: bool, invalid: bool, isValue: bool, binary: bool, high: bv8): bv8 {
    FlagByte0(2, alive, invalid, isValue, binary, high)
  }

  /** Counting up in a byte. */
  function UpTo(n: nat): bv8 {
    if n == 0 then 0 else UpTo(n - 1) + 1
  }

  function ByteOf0(level: nat, n: nat): bv8 {
    if level > 0 then ByteOf0(level - 1, n) else UpTo(n)
  }

  /** The low byte of a number. */
  function ByteOf(n: nat): bv8 {
    ByteOf0(2, n)
  }

  function NatOf0(level: nat, b: bv8): nat {
    if level > 0 then NatOf0(level - 1, b) else b as nat
  }

  /** The number a byte stands for. */
  function NatOf(b: bv8): nat {
    NatOf0(2, b)
  }

  predicate Has0(level: nat, b: bv8, mask: bv8) {
    if level > 0 then Has0(level - 1, b, mask) else b & mask != 0
  }

  /** A flag bit is set. */
  predicate Has(b: bv8, mask: bv8) {
    Has0(2, b, mask)
  }

  function Nibble0(level: nat, b: bv8): bv8 {
    if level > 0 then Nibble0(level - 1, b) else b & 0x0f
  }

  function Nibble(b: bv8): bv8 {
    Nibble0(2, b)
  }

  /** idflags and len, both little-endian 16-bit. */
  function EncodeHeader(h: Header): (r: Image)
    requires h.Encodable()
    ensures |r| == 4
  {
    [ByteOf(h.id % 256), FlagByte(h.alive, h.invalid, h.isValue, h.binary, ByteOf(h.id / 256)),
     ByteOf(h.len % 256), ByteOf(h.len / 256)]
  }

  function DecodeHeader(b: Image): (h: Header)
    requires |b| == 4
  {
    Header(Has(b[1], 0x80), Has(b[1], 0x40), Has(b[1], 0x20), Has(b[1], 0x10),
           NatOf(b[0]) + 256 * NatOf(Nibble(b[1])), NatOf(b[2]) + 256 * NatOf(b[3]))
  }

  /** idflags == 0xffff: unwritten space. */
  predicate Unwritten(b: Image)
    requires |b| == 4
  {
    b[0] == 0xff && b[1] == 0xff
  }

  lemma {:induction false} NatOfIs(b: bv8)
    ensures NatOf(b) == b as nat
  {
    assert NatOf0(1, b) == NatOf0(0, b);
  }

  lemma {:induction false} NextByte(b: bv8)
    requires b as nat < 255
    ensures (b + 1) as nat == b as nat + 1
  {
  }

  lemma {:induction false} UpToIs(n: nat)
    requires n < 256
    ensures UpTo(n) as nat == n
  {
    if n > 0 {
      UpToIs(n - 1);
      NextByte(UpTo(n - 1));
    }
  }

  lemma {:induction false} ByteOfNat(n: nat)
    requires n < 256
    ensures NatOf(ByteOf(n)) == n
    ensures n < 16 ==> ByteOf(n) <= 15
  {
    UpToIs(n);
    assert ByteOf0(1, n) == ByteOf0(0, n);
    NatOfIs(ByteOf(n));
  }

  lemma {:induction false} HasIs(b: bv8, mask: bv8)
    ensures Has(b, mask) <==> b & mask != 0
  {
    assert Has0(1, b, mask) == Has0(0, b, mask);
  }

  lemma {:induction false} NibbleIs(b: bv8)
    ensures Nibble(b) == b & 0x0f
  {
    assert Nibble0(1, b) == Nibble0(0, b);
  }

  lemma {:induction false} FlagBits(a: bool, i: bool, v: bool, b: bool, h: bv8)
    requires h <= 15
    ensures var x := FlagByte(a, i, v, b, h);
            && (Has(x, 0x80) <==> a) && (Has(x, 0x40) <==> i) && (Has(x, 0x20) <==> v) && (Has(x, 0x10) <==> b)
            && Nibble(x) == h && (x == 0xff <==> a && i && v && b && h == 15)
  {
    var x := FlagByte(a, i, v, b, h);
    assert FlagByte0(1, a, i, v, b, h) == FlagByte0(0, a, i, v, b, h);
    HasIs(x, 0x80);
    HasIs(x, 0x40);
    HasIs(x, 0x20);
    HasIs(x, 0x10);
    NibbleIs(x);
  }

  /** Header round trip; an encodable id below 0xfff never reads as unwritten. */
  lemma {:induction false} HeaderRoundTrip(h: Header)
    requires h.Encodable()
    ensures DecodeHeader(EncodeHeader(h)) == h
    ensures h.id < 0xfff ==> !Unwritten(EncodeHeader(h))
  {
    ByteOfNat(h.id % 256);
    ByteOfNat(h.id / 256);
    ByteOfNat(h.len % 256);
    ByteOfNat(h.len / 256);
    FlagBits(h.alive, h.invalid, h.isValue, h.binary, ByteOf(h.id / 256));
  }

  lemma {:induction false} ClearFlags(a: bool, i: bool, v: bool, b: bool, h: bv8, a': bool, i': bool)
    requires (a' ==> a) && (i' ==> i)
    ensures Clears(FlagByte(a, i, v, b, h), FlagByte(a', i', v, b, h))
  {
    ClearsIs(FlagByte(a, i, v, b, h), FlagByte(a', i', v, b, h));
    assert FlagByte0(1, a, i, v, b, h) == FlagByte0(0, a, i, v, b, h);
    assert FlagByte0(1, a', i', v, b, h) == FlagByte0(0, a', i', v, b, h);
  }

  predicate Clears0(level: nat, b: bv8, b': bv8) {
    if level > 0 then Clears0(level - 1, b, b') else b & b' == b'
  }

  /** Programming `b'` over `b` gives `b'`. */
  predicate Clears(b: bv8, b': bv8) {
    Clears0(2, b, b')
  }

  lemma {:induction false} ClearsIs(b: bv8, b': bv8)
    ensures Clears(b, b') <==> b & b' == b'
  {
    assert Clears0(1, b, b') == Clears0(0, b, b');
  }

  lemma {:induction false} ClearsSelf(x: bv8)
    ensures Clears(x, x)
  {
    ClearsIs(x, x);
  }

  /** Data that clears bits of what is there, and sets none, is what is there afterwards. */
  lemma {:induction false} ProgramOver(f: Image, o: nat, b: Image, b': Image)
    requires |b| == |b'| && o + |b| <= |f| && f[o..o + |b|] == b
    requires forall k :: 0 <= k < |b| ==> Clears(b[k], b'[k])
    ensures Program(f, o, b')[o..o + |b|] == b'
  {
    var g := Program(f, o, b');
    forall k | 0 <= k < |b| ensures g[o + k] == b'[k] {
      assert f[o + k] == f[o..o + |b|][k];
      ClearsIs(b[k], b'[k]);
    }
  }

  lemma {:induction false} HeaderClears(h: Header, h': Header)
    requires h.Encodable() && h' == h.(alive := h'.alive, invalid := h'.invalid)
    requires (h'.alive ==> h.alive) && (h'.invalid ==> h.invalid)
    ensures forall k :: 0 <= k < 4 ==> Clears(EncodeHeader(h)[k], EncodeHeader(h')[k])
  {
    ClearsSelf(ByteOf(h.id % 256));
    ClearsSelf(ByteOf(h.len % 256));
    ClearsSelf(ByteOf(h.len / 256));
    ClearFlags(h.alive, h.invalid, h.isValue, h.binary, ByteOf(h.id / 256), h'.alive, h'.invalid);
  }

  /** Re-programming a header with flags cleared leaves exactly the new header. */
  lemma {:induction false} ClearHeader(f: Image, o: nat, h: Header, h': Header)
    requires h.Encodable() && h' == h.(alive := h'.alive, invalid := h'.invalid)
    requires (h'.alive ==> h.alive) && (h'.invalid ==> h.invalid)
    requires o + 4 <= |f| && f[o..o + 4] == EncodeHeader(h)
    ensures Program(f, o, EncodeHeader(h'))[o..o + 4] == EncodeHeader(h')
  {
    HeaderClears(h, h');
    ProgramOver(f, o, EncodeHeader(h), EncodeHeader(h'));
  }

  // ------------------------------------------------------- a log laid out in flash

  predicate WellFormed(log: seq<Entry>) {
    forall i :: 0 <= i < |log| ==> log[i].Encodable()
  }

  /** Offset of entry `i` (or of the end, for i == |log|) from the first entry. */
  function Off(log: seq<Entry>, i: nat): (r: nat)
    requires i <= |log|
  {
    if i == 0 then 0 else Off(log, i - 1) + log[i - 1].Space()
  }

  function Used(log: seq<Entry>): nat { Off(log, |log|) }

  lemma {:induction false} OffAligned(log: seq<Entry>, i: nat)
    requires i <= |log|
    ensures Off(log, i) % 4 == 0
  {
    if i > 0 {
      OffAligned(log, i - 1);
      Words(Off(log, i - 1), (|log[i - 1].data| + 3) / 4);
    }
  }

  lemma {:induction false} Words(o: nat, n: nat)
    requires o % 4 == 0
    ensures (o + (4 + n * 4)) % 4 == 0
  {
  }

  lemma {:induction false} OffMonotone(log: seq<Entry>, i: nat, j: nat)
    requires i <= j <= |log|
    ensures Off(log, i) + 4 * (j - i) <= Off(log, j)
  {
    if i < j {
      OffMonotone(log, i, j - 1);
    }
  }

  /** Offsets depend only on the space of the entries before. */
  lemma {:induction false} OffSame(a: seq<Entry>, b: seq<Entry>, i: nat)
    requires i <= |a| && i <= |b|
    requires forall k :: 0 <= k < i ==> a[k].Space() == b[k].Space()
    ensures Off(a, i) == Off(b, i)
  {
    if i > 0 {
      OffSame(a, b, i - 1);
    }
  }

  /** Entry `e` is stored at offset `o`: header and payload. */
  predicate Stored(body: Image, o: nat, e: Entry) {
    && e.Encodable()
    && o + 4 + |e.data| <= |body|
    && body[o..o + 4] == EncodeHeader(e.Head())
    && body[o + 4..o + 4 + |e.data|] == e.data
  }

  predicate StoredAt(body: Image, log: seq<Entry>, i: nat)
    requires i < |log|
  {
    Stored(body, Off(log, i), log[i])
  }

  /** A region body holds `log` and nothing but erased flash behind it. */
  predicate Holds(body: Image, log: seq<Entry>) {
    && |body| % 4 == 0
    && Used(log) <= |body|
    && (forall i {:trigger StoredAt(body, log, i)} :: 0 <= i < |log| ==> StoredAt(body, log, i))
    && (forall k :: Used(log) <= k < |body| ==> body[k] == 0xff)
  }

  lemma {:induction false} WordRoom(o: nat, n: nat)
    requires o % 4 == 0 && n % 4 == 0 && o < n
    ensures o + 4 <= n && (o + 4) % 4 == 0
  {
  }

  /** Behind the log, at its end or one word further, there is only unwritten space. */
  lemma {:induction false} HoldsEnd(body: Image, log: seq<Entry>, skip: bool)
    requires Holds(body, log)
    requires var o := Used(log) + (if skip then 4 else 0); o < |body|
    ensures var o := Used(log) + (if skip then 4 else 0); o + 4 <= |body| && Unwritten(body[o..o + 4])
  {
    OffAligned(log, |log|);
    WordRoom(Used(log), |body|);
    if skip {
      WordRoom(Used(log) + 4, |body|);
    }
  }

  lemma {:induction false} StoredElsewhere(body: Image, o: nat, e: Entry, addr: nat, data: Image)
    requires Stored(body, o, e) && addr + |data| <= |body|
    requires o + 4 + |e.data| <= addr || addr + |data| <= o
    ensures Stored(Program(body, addr, data), o, e)
  {
    ProgramElsewhere(body, addr, data, o, o + 4);
    ProgramElsewhere(body, addr, data, o + 4, o + 4 + |e.data|);
  }

  /** Programming inside entry `i`'s slot leaves every other stored entry alone. */
  lemma {:induction false} OtherStored(body: Image, log: seq<Entry>, i: nat, addr: nat, data: Image, k: nat)
    requires i < |log| && addr + |data| <= |body|
    requires Off(log, i) <= addr && addr + |data| <= Off(log, i + 1)
    requires k < |log| && k != i && StoredAt(body, log, k)
    ensures Stored(Program(body, addr, data), Off(log, k), log[k])
  {
    if k < i {
      OffMonotone(log, k + 1, i);
    } else {
      OffMonotone(log, i + 1, k);
    }
    StoredElsewhere(body, Off(log, k), log[k], addr, data);
  }

  /** An edit inside the slot of entry `i` that turns it into `e` changes no other entry. */
  lemma {:induction false} HoldsEdit(body: Image, log: seq<Entry>, i: nat, e: Entry, addr: nat, data: Image)
    requires Holds(body, log) && i < |log| && |e.data| == |log[i].data|
    requires Off(log, i) <= addr && addr + |data| <= Off(log, i + 1) <= |body|
    requires Stored(Program(body, addr, data), Off(log, i), e)
    ensures Holds(Program(body, addr, data), log[i := e])
  {
    var g, log' := Program(body, addr, data), log[i := e];
    OffSame(log, log', |log|);
    OffMonotone(log, i + 1, |log|);
    forall k | 0 <= k < |log'| ensures StoredAt(g, log', k) {
      OffSame(log, log', k);
      if k != i {
        assert StoredAt(body, log, k);
        OtherStored(body, log, i, addr, data, k);
      }
    }
  }

  lemma {:induction false} SlotInside(body: Image, log: seq<Entry>, i: nat)
    requires Holds(body, log) && i < |log|
    ensures Stored(body, Off(log, i), log[i])
    ensures Off(log, i) + log[i].Space() == Off(log, i + 1) <= |body|
  {
    assert StoredAt(body, log, i);
    OffMonotone(log, i + 1, |log|);
  }

  /** First step of _write_entry: the header, alive but still invalid. */
  lemma {:induction false} HoldsBegin(body: Image, log: seq<Entry>, e: Entry)
    requires Holds(body, log) && e.Encodable() && e.data == Erased(|e.data|)
    requires Used(log) + e.Space() <= |body|
    ensures Holds(Program(body, Used(log), EncodeHeader(e.Head())), log + [e])
  {
    var o, h, log' := Used(log), EncodeHeader(e.Head()), log + [e];
    var g := Program(body, o, h);
    OffSame(log, log', |log|);
    StoredBegun(body, o, e);
    forall k | 0 <= k < |log'| ensures StoredAt(g, log', k) {
      OffSame(log, log', k);
      if k < |log| {
        assert StoredAt(body, log, k);
        OffMonotone(log, k + 1, |log|);
        StoredElsewhere(body, Off(log, k), log[k], o, h);
      }
    }
  }

  lemma {:induction false} StoredBegun(body: Image, o: nat, e: Entry)
    requires e.Encodable() && e.data == Erased(|e.data|) && o + 4 + |e.data| <= |body|
    requires forall k :: o <= k < |body| ==> body[k] == 0xff
    ensures Stored(Program(body, o, EncodeHeader(e.Head())), o, e)
  {
    var h := EncodeHeader(e.Head());
    ProgramErased(body, o, h);
    assert Program(body, o, h)[o + 4..o + 4 + |e.data|] == e.data;
  }

  lemma {:induction false} FilledStored(body: Image, o: nat, e: Entry, data: Image)
    requires Stored(body, o, e) && |data| == |e.data| && e.data == Erased(|data|)
    ensures Stored(Program(body, o + 4, data), o, e.(data := data))
  {
    forall i | o + 4 <= i < o + 4 + |data| ensures body[i] == 0xff {
      assert body[o + 4..o + 4 + |data|][i - o - 4] == e.data[i - o - 4];
    }
    ProgramErased(body, o + 4, data);
    ProgramElsewhere(body, o + 4, data, o, o + 4);
  }

  lemma {:induction false} HoldsFillAt(body: Image, log: seq<Entry>, i: nat, data: Image)
    requires Holds(body, log) && i < |log| && |data| == |log[i].data| && log[i].data == Erased(|data|)
    ensures Off(log, i) + log[i].Space() <= |body|
    ensures Holds(Program(body, Off(log, i) + 4, data), log[i := log[i].(data := data)])
  {
    SlotInside(body, log, i);
    FilledStored(body, Off(log, i), log[i], data);
    HoldsEdit(body, log, i, log[i].(data := data), Off(log, i) + 4, data);
  }

  /** Second step of _write_entry: the payload into the erased payload area. */
  lemma {:induction false} HoldsFill(body: Image, log: seq<Entry>, e: Entry, data: Image)
    requires Holds(body, log + [e]) && |data| == |e.data| && e.data == Erased(|data|)
    ensures Used(log) + e.Space() <= |body|
    ensures Holds(Program(body, Used(log) + 4, data), log + [e.(data := data)])
  {
    OffSame(log, log + [e], |log|);
    HoldsFillAt(body, log + [e], |log|, data);
    assert (log + [e])[|log| := e.(data := data)] == log + [e.(data := data)];
  }

  lemma {:induction false} ClearedStored(body: Image, o: nat, e: Entry, e': Entry)
    requires Stored(body, o, e)
    requires e' == e.(alive := e'.alive, invalid := e'.invalid)
    requires (e'.alive ==> e.alive) && (e'.invalid ==> e.invalid)
    ensures Stored(Program(body, o, EncodeHeader(e'.Head())), o, e')
  {
    ClearHeader(body, o, e.Head(), e'.Head());
    ProgramElsewhere(body, o, EncodeHeader(e'.Head()), o + 4, o + 4 + |e.data|);
  }

  /** Third step of _write_entry, and _delete_entry: clearing a flag in place. */
  lemma {:induction false} HoldsClear(body: Image, log: seq<Entry>, i: nat, e: Entry)
    requires Holds(body, log) && i < |log| && log[i].Encodable()
    requires e == log[i].(alive := e.alive, invalid := e.invalid)
    requires (e.alive ==> log[i].alive) && (e.invalid ==> log[i].invalid)
    ensures Off(log, i) + 4 <= |body|
    ensures Holds(Program(body, Off(log, i), EncodeHeader(e.Head())), log[i := e])
  {
    SlotInside(body, log, i);
    ClearedStored(body, Off(log, i), log[i], e);
    HoldsEdit(body, log, i, e, Off(log, i), EncodeHeader(e.Head()));
  }

  /** Clearing a flag of the last entry. */
  lemma {:induction false} HoldsFinish(body: Image, log: seq<Entry>, d: Entry, e: Entry)
    requires Holds(body, log + [d]) && d.Encodable()
    requires e == d.(alive := e.alive, invalid := e.invalid)
    requires (e.alive ==> d.alive) && (e.invalid ==> d.invalid)
    ensures Used(log) + 4 <= |body|
    ensures Holds(Program(body, Used(log), EncodeHeader(e.Head())), log + [e])
  {
    OffSame(log, log + [d], |log|);
    HoldsClear(body, log + [d], |log|, e);
    assert (log + [d])[|log| := e] == log + [e];
  }
}
