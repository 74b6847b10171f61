/** Reading a sysparam region: _find_entry and the searches built on it, over a plain
    flash image. Every contract is in terms of the log the region holds. */
module SysparamScan {
  import opened Flash
  import opened SysparamLog
  import opened SysparamTable
  import opened SysparamCompact
  import opened SysparamRegion

  datatype Status = Ok | NotFound | ErrNoInit | ErrBadValue | ErrFull | ErrIo | ErrCorrupt

  /** struct sysparam_context. */
  datatype Context = Context(addr: nat, entry: Header, unusedKeys: int, compactable: nat, maxKeyId: nat)

  const NO_ENTRY := Header(false, false, false, false, 0, 0)

  /** strlen(key) is kept in 16 bits, so only this much of a key is ever looked at. */
  function KeyName(key: Image): Image { key[..|key| % 0x10000] }

  /** What a context accumulates over log[p..q]. */
  predicate Counted(log: Log, from: Context, to: Context, p: nat, q: nat) {
    && p <= q <= |log|
    && to.compactable == from.compactable + DeadWeight(log, p, q, false)
    && to.unusedKeys == from.unusedKeys + KeyWeight(log, p, q, true) - ValWeight(log, p, q, true)
    && to.maxKeyId == LastKeyId(log, p, q, from.maxKeyId)
  }

  lemma {:induction false} CountedTrans(log: Log, a: Context, b: Context, c: Context, p: nat, m: nat, q: nat)
    requires Counted(log, a, b, p, m) && Counted(log, b, c, m, q)
    ensures Counted(log, a, c, p, q)
    decreases q
  {
    if m < q {
      var c' := c.(compactable := b.compactable + DeadWeight(log, m, q - 1, false),
                   unusedKeys := b.unusedKeys + KeyWeight(log, m, q - 1, true) - ValWeight(log, m, q - 1, true),
                   maxKeyId := LastKeyId(log, m, q - 1, b.maxKeyId));
      CountedTrans(log, a, b, c', p, m, q - 1);
    }
  }

  // ------------------------------------------------------------- scanning

  predicate Region0(level: nat, f: Image, b: nat, sectors: nat, log: Log) {
    if level > 0 then Region0(level - 1, f, b, sectors, log)
    else 1 <= sectors && b + sectors * SECTOR <= |f| && Holds(Body(f, b, sectors), log)
  }

  /** The region body at `b` holds `log`. */
  predicate Region(f: Image, b: nat, sectors: nat, log: Log) {
    Region0(2, f, b, sectors, log) && 1 <= sectors && b + sectors * SECTOR <= |f| && Used(log) <= sectors * SECTOR - 8
  }

  lemma {:induction false} RegionIs(f: Image, b: nat, sectors: nat, log: Log)
    ensures Region(f, b, sectors, log) <==>
              1 <= sectors && b + sectors * SECTOR <= |f| && Holds(Body(f, b, sectors), log)
  {
    assert Region0(1, f, b, sectors, log) == Region0(0, f, b, sectors, log);
  }

  /** `ctx` has consumed `p` entries; |log| + 1 stands for a context that ran off the end. */
  predicate At(b: nat, log: Log, ctx: Context, p: nat)
    requires p <= |log| + 1
  {
    if p == 0 then ctx.addr == b
    else if p <= |log| then ctx.addr == b + 8 + Off(log, p - 1) && ctx.entry.len == |log[p - 1].data|
    else ctx.addr == b + 8 + Used(log) && ctx.entry.len == 0
  }

  /** A scan that stopped at entry `q`, or ran off the end for q == |log|. */
  predicate StoppedAt(b: nat, log: Log, c: Context, q: nat)
    requires q <= |log|
  {
    c.addr == b + 8 + Off(log, q) && (q < |log| ==> c.entry == log[q].Head())
  }

  /** What reading the next entry header gives: an entry, the end of the entries
      (`truncated` when the length of the current one is impossible), or a read error. */
  datatype Probed = Seen(c: Context) | Past(c: Context, truncated: bool) | Fault(c: Context)

  function ReadNext(f: Image, b: nat, size: nat, ctx: Context): Probed {
    var a := ctx.addr + (if ctx.addr == b then REGION_HEADER_SIZE else EntrySize(ctx.entry.len));
    if ctx.addr != b && a > b + size then Past(ctx, true)
    else if ctx.addr != b && a == b + size then Past(ctx.(addr := a), false)
    else if a + 4 > |f| then Fault(ctx.(addr := a))
    else
      var c := ctx.(addr := a, entry := DecodeHeader(f[a..a + 4]));
      if Unwritten(f[a..a + 4]) then Past(c, false) else Seen(c)
  }

  /** The effect of one entry header on the scan counters. */
  function Tally(c: Context): Context {
    var h := c.entry;
    if h.Live() then
      if h.isValue then c.(unusedKeys := c.unusedKeys - 1) else c.(maxKeyId := h.id, unusedKeys := c.unusedKeys + 1)
    else c.(compactable := c.compactable + EntrySize(h.len))
  }

  lemma {:induction false} ReadNextEntry(f: Image, b: nat, sectors: nat, log: Log, ctx: Context, k: nat)
    requires Region(f, b, sectors, log) && k < |log| && At(b, log, ctx, k)
    ensures ReadNext(f, b, sectors * SECTOR, ctx) ==
            Seen(ctx.(addr := b + 8 + Off(log, k), entry := log[k].Head()))
  {
    RegionIs(f, b, sectors, log);
    ReadEntry(f, b, sectors, log, k);
  }

  /** At the end of the log there is nothing more; a context already past the end looks one
      word further and reports truncation only when the region is exactly full. */
  lemma {:induction false} ReadNextEnd(f: Image, b: nat, sectors: nat, log: Log, ctx: Context, k: nat)
    requires Region(f, b, sectors, log) && |log| <= k <= |log| + 1 && At(b, log, ctx, k)
    ensures var r := ReadNext(f, b, sectors * SECTOR, ctx);
            && r.Past?
            && r.c == ctx.(addr := r.c.addr, entry := r.c.entry)
            && (k == |log| ==> r.c.addr == b + 8 + Used(log) && !r.truncated)
            && (r.truncated ==> Used(log) == sectors * SECTOR - 8)
  {
    if k == |log| {
      ReadAtEnd(f, b, sectors, log, ctx);
    } else {
      ReadPastEnd(f, b, sectors, log, ctx);
    }
  }

  lemma {:induction false} ReadAtEnd(f: Image, b: nat, sectors: nat, log: Log, ctx: Context)
    requires Region(f, b, sectors, log) && At(b, log, ctx, |log|)
    ensures var r := ReadNext(f, b, sectors * SECTOR, ctx);
            r.Past? && r.c == ctx.(addr := b + 8 + Used(log), entry := r.c.entry) && !r.truncated
  {
    RegionIs(f, b, sectors, log);
    if Used(log) < sectors * SECTOR - 8 {
      ReadEnd(f, b, sectors, log, false);
    }
  }

  lemma {:induction false} ReadPastEnd(f: Image, b: nat, sectors: nat, log: Log, ctx: Context)
    requires Region(f, b, sectors, log) && At(b, log, ctx, |log| + 1)
    ensures var r := ReadNext(f, b, sectors * SECTOR, ctx);
            && r.Past? && r.c == ctx.(addr := r.c.addr, entry := r.c.entry)
            && (r.truncated ==> Used(log) == sectors * SECTOR - 8)
  {
    RegionIs(f, b, sectors, log);
    OffAligned(log, |log|);
    var size := sectors * SECTOR - 8;
    BodyAligned(sectors);
    if Used(log) < size {
      WordRoom(Used(log), size);
      if Used(log) + 4 < size {
        ReadEnd(f, b, sectors, log, true);
      }
    }
  }

  lemma {:induction false} BodyAligned(sectors: nat)
    requires 1 <= sectors
    ensures (sectors * SECTOR - 8) % 4 == 0
  {
  }

  lemma {:induction false} CountEntry(log: Log, from: Context, c: Context, p: nat, k: nat)
    requires p <= k < |log| && Counted(log, from, c, p, k) && c.entry == log[k].Head()
    ensures Counted(log, from, Tally(c), p, k + 1)
  {
  }

  /** One step of _find_entry: move to the next entry header and read it. */
  method Probe(f: Image, b: nat, size: nat, ctx: Context, ghost sectors: nat, ghost log: Log, ghost k: nat)
    returns (r: Probed)
    requires b <= ctx.addr && size == sectors * SECTOR
    requires Region(f, b, sectors, log) ==> k <= |log| + 1 && At(b, log, ctx, k)
    ensures r.Seen? ==> ctx.addr < r.c.addr <= b + size + 8
    ensures Region(f, b, sectors, log) && k < |log| ==>
              r == Seen(ctx.(addr := b + 8 + Off(log, k), entry := log[k].Head()))
    ensures Region(f, b, sectors, log) && k >= |log| ==>
              && r.Past?
              && r.c == ctx.(addr := r.c.addr, entry := r.c.entry)
              && (k == |log| ==> r.c.addr == b + 8 + Used(log) && !r.truncated)
              && (r.truncated ==> Used(log) == size - 8)
  {
    if Region(f, b, sectors, log) {
      if k < |log| {
        ReadNextEntry(f, b, sectors, log, ctx, k);
      } else {
        ReadNextEnd(f, b, sectors, log, ctx, k);
      }
    }
    r := ReadNext(f, b, size, ctx);
  }

  /** Part of the way through a scan from entry `p`: the entries up to `k` are counted, and none of them matches. */
  predicate Midway(f: Image, b: nat, sectors: nat, log: Log, from: Context, c: Context, matchId: nat, findValue: bool,
                   p: nat, k: nat) {
    Region(f, b, sectors, log) ==>
      && p <= k <= |log| + 1 && At(b, log, c, k)
      && (p <= |log| ==> k <= |log| && Counted(log, from, c, p, k) && NoneIn(log, matchId, findValue, p, k))
      && (p == |log| + 1 ==> k == p && c == from)
  }

  /** How a scan from entry `p` ends; `truncated` is the force_compact signal. */
  predicate ScanEnds(f: Image, b: nat, sectors: nat, log: Log, from: Context, matchId: nat, findValue: bool, p: nat,
                     status: Status, c: Context, truncated: bool)
  {
    && (status == Ok || status == ErrIo || (status == NotFound && matchId != ENTRY_ID_END))
    && (Region(f, b, sectors, log) && p <= |log| ==>
          !truncated && Scanned(b, log, from, matchId, findValue, p, status, c))
    && (Region(f, b, sectors, log) && p == |log| + 1 ==>
          && status == (if matchId == ENTRY_ID_END then Ok else NotFound)
          && c.compactable == from.compactable && c.unusedKeys == from.unusedKeys && c.maxKeyId == from.maxKeyId
          && (truncated ==> Used(log) == sectors * SECTOR - 8))
  }

  /** The end of the entries has been reached. */
  lemma {:induction false} EndsPast(f: Image, b: nat, sectors: nat, log: Log, from: Context, c: Context, c': Context,
                                    matchId: nat, findValue: bool, p: nat, k: nat, truncated: bool)
    requires Midway(f, b, sectors, log, from, c, matchId, findValue, p, k)
    requires Region(f, b, sectors, log) ==>
               && k >= |log| && c' == c.(addr := c'.addr, entry := c'.entry)
               && (k == |log| ==> c'.addr == b + 8 + Used(log) && !truncated)
               && (truncated ==> Used(log) == sectors * SECTOR - 8)
    ensures var status := if matchId == ENTRY_ID_END then Ok else NotFound;
            ScanEnds(f, b, sectors, log, from, matchId, findValue, p, status,
                     if status == Ok then c' else c'.(entry := NO_ENTRY), truncated)
  {
    if Region(f, b, sectors, log) && p <= |log| {
      NoneLeft(log, matchId, findValue, p);
    }
  }

  /** One more entry has been read and counted. */
  lemma {:induction false} EntryPassed(f: Image, b: nat, sectors: nat, log: Log, from: Context, c: Context, c': Context,
                                       matchId: nat, findValue: bool, p: nat, k: nat)
    requires Midway(f, b, sectors, log, from, c, matchId, findValue, p, k)
    requires Region(f, b, sectors, log) ==> k < |log| && c' == c.(addr := b + 8 + Off(log, k), entry := log[k].Head())
    ensures var t := Tally(c');
            if t.entry.Live() && t.entry.isValue == findValue && (t.entry.id == matchId || matchId == ENTRY_ID_ANY)
            then ScanEnds(f, b, sectors, log, from, matchId, findValue, p, Ok, t, false)
            else Midway(f, b, sectors, log, from, t, matchId, findValue, p, k + 1)
  {
    if Region(f, b, sectors, log) {
      CountEntry(log, from, c', p, k);
      var t := Tally(c');
      if t.entry.Live() && t.entry.isValue == findValue && (t.entry.id == matchId || matchId == ENTRY_ID_ANY) {
        FirstFound(log, matchId, findValue, p, k);
      }
    }
  }

  /** _find_entry over an arbitrary flash image. The contract speaks of every log the region may hold. */
  method ScanFor(f: Image, b: nat, size: nat, ctx: Context, matchId: nat, findValue: bool,
                 ghost sectors: nat, ghost log: Log, ghost p: nat)
    returns (status: Status, c: Context, truncated: bool)
    requires b <= ctx.addr <= b + size + 8 && size == sectors * SECTOR
    requires Region(f, b, sectors, log) ==> p <= |log| + 1 && At(b, log, ctx, p)
    ensures ScanEnds(f, b, sectors, log, ctx, matchId, findValue, p, status, c, truncated)
  {
    c := ctx;
    ghost var k: nat := p;
    while true
      invariant b <= c.addr <= b + size + 8 && Midway(f, b, sectors, log, ctx, c, matchId, findValue, p, k)
      decreases b + size + 8 - c.addr
    {
      var r := Probe(f, b, size, c, sectors, log, k);
      if r.Fault? {
        return ErrIo, r.c, false;
      }
      if r.Past? {
        EndsPast(f, b, sectors, log, ctx, c, r.c, matchId, findValue, p, k, r.truncated);
        if matchId == ENTRY_ID_END {
          return Ok, r.c, r.truncated;
        }
        return NotFound, r.c.(entry := NO_ENTRY), r.truncated;
      }
      EntryPassed(f, b, sectors, log, ctx, c, r.c, matchId, findValue, p, k);
      c := Tally(r.c);
      if c.entry.Live() && c.entry.isValue == findValue && (c.entry.id == matchId || matchId == ENTRY_ID_ANY) {
        return Ok, c, false;
      }
      k := k + 1;
    }
  }

  predicate NoneIn(log: Log, matchId: nat, findValue: bool, p: nat, k: nat) {
    forall i :: p <= i < k && i < |log| ==> !Matches(log[i], matchId, findValue)
  }

  lemma {:induction false} NoneLeft(log: Log, matchId: nat, findValue: bool, p: nat)
    requires p <= |log| && NoneIn(log, matchId, findValue, p, |log|)
    ensures Next(log, matchId, findValue, p) == |log|
  {
  }

  lemma {:induction false} FirstFound(log: Log, matchId: nat, findValue: bool, p: nat, k: nat)
    requires p <= k < |log| && NoneIn(log, matchId, findValue, p, k) && Matches(log[k], matchId, findValue)
    ensures Next(log, matchId, findValue, p) == k
  {
  }

  /** The outcome of _find_entry from entry `p` on. */
  predicate Scanned(b: nat, log: Log, ctx: Context, matchId: nat, findValue: bool, p: nat, status: Status, c: Context)
    requires p <= |log|
  {
    var q := Next(log, matchId, findValue, p);
    && StoppedAt(b, log, c, q)
    && Counted(log, ctx, c, p, if q < |log| then q + 1 else q)
    && status == (if q < |log| || matchId == ENTRY_ID_END then Ok else NotFound)
    && (status == NotFound ==> c.entry.len == 0)
  }

  /** The outcome of a search for a named or used key from entry `p` on: it stopped at entry `i`,
      or ran off the end for i == |log|. */
  predicate Found(b: nat, log: Log, ctx: Context, p: nat, i: nat, status: Status, c: Context) {
    && p <= i <= |log|
    && StoppedAt(b, log, c, i)
    && Counted(log, ctx, c, p, if i < |log| then i + 1 else i)
    && status == (if i < |log| then Ok else NotFound)
    && (status == NotFound ==> c.entry.len == 0)
  }

  /** _read_payload. */
  method ReadPayload(f: Image, c: Context, ghost b: nat, ghost sectors: nat, ghost log: Log, ghost i: nat)
    returns (data: Image)
    requires Region(f, b, sectors, log) && i < |log| && StoppedAt(b, log, c, i)
    ensures data == log[i].data
  {
    RegionIs(f, b, sectors, log);
    ReadEntry(f, b, sectors, log, i);
    data := f[c.addr + 4..c.addr + 4 + c.entry.len];
  }

  /** The key search goes on from a key that is not the one wanted. */
  lemma {:induction false} SkipKey(log: Log, key: Image, p: nat, q: nat)
    requires p <= q <= |log| && q == Next(log, ENTRY_ID_ANY, false, p)
    ensures q == |log| ==> KeyAt(log, key, p) == |log|
    ensures q < |log| && log[q].data == key ==> KeyAt(log, key, p) == q
    ensures q < |log| && log[q].data != key ==> KeyAt(log, key, p) == KeyAt(log, key, q + 1)
  {
    assert forall k :: p <= k < q && NamedKey(log[k], key) ==> Matches(log[k], ENTRY_ID_ANY, false);
    var r := KeyAt(log, key, p);
    assert r < |log| ==> Matches(log[r], ENTRY_ID_ANY, false);
    if q < |log| && log[q].data != key {
      var r' := KeyAt(log, key, q + 1);
      assert !NamedKey(log[q], key);
      assert r' < |log| ==> NamedKey(log[r'], key);
    }
  }

  /** _find_key without a name: the next key entry from entry `p` on. */
  method NextKey(f: Image, b: nat, size: nat, ctx: Context, ghost sectors: nat, ghost log: Log, ghost p: nat)
    returns (status: Status, c: Context)
    requires Region(f, b, sectors, log) && size == sectors * SECTOR
    requires p <= |log| && At(b, log, ctx, p) && b <= ctx.addr <= b + size + 8
    ensures Found(b, log, ctx, p, Next(log, ENTRY_ID_ANY, false, p), status, c)
    ensures b <= c.addr <= b + size + 8
  {
    var t;
    status, c, t := ScanFor(f, b, size, ctx, ENTRY_ID_ANY, false, sectors, log, p);
    OffMonotone(log, Next(log, ENTRY_ID_ANY, false, p), |log|);
  }

  /** Part of the way through the search for a key: none among the first `p` entries has that name. */
  predicate Seeking(b: nat, log: Log, from: Context, c: Context, key: Image, p: nat) {
    p <= |log| && At(b, log, c, p) && Counted(log, from, c, 0, p) && KeyAt(log, key, 0) == KeyAt(log, key, p)
  }

  /** What the next key found says about the search. */
  lemma {:induction false} SeekStep(b: nat, log: Log, from: Context, c: Context, c': Context, key: Image, p: nat,
                                    status: Status)
    requires Seeking(b, log, from, c, key, p) && Found(b, log, c, p, Next(log, ENTRY_ID_ANY, false, p), status, c')
    ensures var q := Next(log, ENTRY_ID_ANY, false, p);
            if q == |log| || log[q].data == key then Found(b, log, from, 0, KeyAt(log, key, 0), status, c')
            else Seeking(b, log, from, c', key, q + 1)
  {
    var q := Next(log, ENTRY_ID_ANY, false, p);
    SkipKey(log, key, p, q);
    CountedTrans(log, from, c, c', 0, p, if q < |log| then q + 1 else q);
  }

  /** _find_key for a given name. */
  method FindKey(f: Image, b: nat, size: nat, ctx: Context, key: Image, ghost sectors: nat, ghost log: Log)
    returns (status: Status, c: Context)
    requires Region(f, b, sectors, log) && size == sectors * SECTOR && ctx.addr == b
    ensures Found(b, log, ctx, 0, KeyAt(log, key, 0), status, c)
  {
    c := ctx;
    ghost var p: nat := 0;
    while true
      invariant Seeking(b, log, ctx, c, key, p) && b <= c.addr <= b + size + 8
      decreases |log| - p
    {
      ghost var before, q := c, Next(log, ENTRY_ID_ANY, false, p);
      status, c := NextKey(f, b, size, c, sectors, log, p);
      SeekStep(b, log, ctx, before, c, key, p, status);
      if status != Ok {
        return;
      }
      if c.entry.len == |key| {
        var payload := ReadPayload(f, c, b, sectors, log, q);
        if payload == key {
          return;
        }
      }
      p := q + 1;
    }
  }

  lemma {:induction false} InRegion(f: Image, b: nat, sectors: nat, log: Log, i: nat)
    requires Region(f, b, sectors, log) && i < |log|
    ensures b + 8 + Off(log, i) <= b + sectors * SECTOR
  {
    RegionIs(f, b, sectors, log);
    OffMonotone(log, i, |log|);
  }

  /** _find_value from the key at entry `i`. */
  method FindValue(f: Image, b: nat, size: nat, ctx: Context, id: nat, ghost sectors: nat, ghost log: Log, ghost i: nat)
    returns (status: Status, c: Context)
    requires Region(f, b, sectors, log) && size == sectors * SECTOR && id <= MAX_KEY_ID
    requires i < |log| && StoppedAt(b, log, ctx, i)
    ensures Found(b, log, ctx, i + 1, ValAt(log, id, i + 1), status, c)
  {
    InRegion(f, b, sectors, log, i);
    var t;
    status, c, t := ScanFor(f, b, size, ctx, id, true, sectors, log, i + 1);
  }

  /** sysparam_get_data on a mounted region: the table lookup. */
  method Lookup(f: Image, b: nat, size: nat, key: Image, ghost sectors: nat, ghost log: Log)
    returns (status: Status, value: Value)
    requires Region(f, b, sectors, log) && size == sectors * SECTOR && IdsInRange(log)
    ensures status == Ok || status == NotFound
    ensures Get(log, key) == if status == Ok then Some(value) else None
  {
    var c;
    value := Value([], false);
    status, c := FindKey(f, b, size, Context(b, NO_ENTRY, 0, 0, 0), key, sectors, log);
    if status != Ok {
      return;
    }
    ghost var i := KeyAt(log, key, 0);
    status, c := FindValue(f, b, size, c, c.entry.id, sectors, log, i);
    if status != Ok {
      return;
    }
    ghost var j := ValAt(log, log[i].id, i + 1);
    var data := ReadPayload(f, c, b, sectors, log, j);
    value := Value(data, c.entry.binary);
  }

  /** The first key at or after `p` that has a value, or |log|. */
  function NextUsed(log: Log, p: nat): (r: nat)
    requires p <= |log|
    ensures p <= r <= |log|
    ensures r < |log| ==> Used?(log, r)
    ensures forall k :: p <= k < r ==> !Used?(log, k)
    decreases |log| - p
  {
    if p == |log| || Used?(log, p) then p else NextUsed(log, p + 1)
  }

  lemma {:induction false} SkipUnused(log: Log, p: nat, q: nat)
    requires p <= q <= |log| && q == Next(log, ENTRY_ID_ANY, false, p)
    ensures q == |log| ==> NextUsed(log, p) == |log|
    ensures q < |log| && Used?(log, q) ==> NextUsed(log, p) == q
    ensures q < |log| && !Used?(log, q) ==> NextUsed(log, p) == NextUsed(log, q + 1)
  {
    assert forall k :: p <= k < q ==> !Matches(log[k], ENTRY_ID_ANY, false);
    assert forall k :: p <= k < q ==> !Used?(log, k);
    var r := NextUsed(log, p);
    if q < |log| && !Used?(log, q) {
      var r' := NextUsed(log, q + 1);
      assert r' < |log| ==> Used?(log, r');
      assert r < |log| ==> Used?(log, r);
    }
  }

  /** Part of the way to the next used key: none from entry `p` up to `n`. */
  predicate Iterating(b: nat, log: Log, c: Context, p: nat, n: nat) {
    p <= n <= |log| && At(b, log, c, n) && NextUsed(log, p) == NextUsed(log, n)
  }

  lemma {:induction false} IterStep(b: nat, log: Log, c: Context, c': Context, p: nat, n: nat, status: Status)
    requires Iterating(b, log, c, p, n) && Found(b, log, c, n, Next(log, ENTRY_ID_ANY, false, n), status, c')
    ensures var q := Next(log, ENTRY_ID_ANY, false, n);
            if q == |log| then NextUsed(log, p) == |log|
            else
              && log[q].IsKey() && At(b, log, c', q + 1)
              && if Used?(log, q) then NextUsed(log, p) == q else Iterating(b, log, c', p, q + 1)
  {
    SkipUnused(log, n, Next(log, ENTRY_ID_ANY, false, n));
  }

  /** sysparam_iter_next: the next key that has a value, and that value. */
  method IterNext(f: Image, b: nat, size: nat, ctx: Context, ghost sectors: nat, ghost log: Log, ghost p: nat)
    returns (status: Status, c: Context, key: Image, value: Value)
    requires Region(f, b, sectors, log) && size == sectors * SECTOR && IdsInRange(log)
    requires p <= |log| && At(b, log, ctx, p) && b <= ctx.addr <= b + size + 8
    ensures var i := NextUsed(log, p);
            && status == (if i < |log| then Ok else NotFound)
            && (i < |log| ==>
                Pair(key, c.entry.id, value) == PairAt(log, i) && At(b, log, c, i + 1) && b <= c.addr <= b + size + 8)
  {
    c := ctx;
    ghost var n: nat := p;
    while true
      invariant Iterating(b, log, c, p, n) && b <= c.addr <= b + size + 8
      decreases |log| - n
    {
      ghost var before, q := c, Next(log, ENTRY_ID_ANY, false, n);
      status, c := NextKey(f, b, size, c, sectors, log, n);
      IterStep(b, log, before, c, p, n, status);
      if status != Ok {
        key, value := [], Value([], false);
        return;
      }
      var found;
      found, key, value := ReadPair(f, b, size, c, sectors, log, q);
      if found {
        return;
      }
      n := q + 1;
    }
  }

  /** The value search and the two payload reads of sysparam_iter_next for the key at entry `q`. */
  method ReadPair(f: Image, b: nat, size: nat, c: Context, ghost sectors: nat, ghost log: Log, ghost q: nat)
    returns (found: bool, key: Image, value: Value)
    requires Region(f, b, sectors, log) && size == sectors * SECTOR && IdsInRange(log)
    requires q < |log| && log[q].IsKey() && StoppedAt(b, log, c, q)
    ensures found == Used?(log, q)
    ensures found ==> Pair(key, log[q].id, value) == PairAt(log, q)
  {
    key, value := [], Value([], false);
    var status, v := FindValue(f, b, size, c, c.entry.id, sectors, log, q);
    found := status == Ok;
    if found {
      key := ReadPayload(f, c, b, sectors, log, q);
      var data := ReadPayload(f, v, b, sectors, log, ValAt(log, log[q].id, q + 1));
      value := Value(data, v.entry.binary);
    }
  }

  // ----------------------------------------------------- preparing a change

  const START := Context(0, NO_ENTRY, 0, 0, 0)

  /** No entry id is the end marker, so a scan for it runs through the whole log. */
  lemma {:induction false} NoEndMarker(log: Log, findValue: bool, p: nat)
    requires IdsInRange(log) && p <= |log|
    ensures Next(log, ENTRY_ID_END, findValue, p) == |log|
  {
    var q := Next(log, ENTRY_ID_END, findValue, p);
    assert q < |log| ==> Matches(log[q], ENTRY_ID_END, findValue);
  }

  /** Where the key, and the value found after it, sit in the log; |log| for absent. */
  function KeyIndex(log: Log, key: Image): nat { KeyAt(log, key, 0) }

  function ValueIndex(log: Log, key: Image): (j: nat)
    ensures j <= |log|
  {
    var i := KeyIndex(log, key);
    if i < |log| then ValAt(log, log[i].id, i + 1) else |log|
  }

  /** How many entries the search for a key and its value has consumed. */
  function Consumed(log: Log, key: Image): (p: nat)
    ensures p <= |log| + 1
  {
    if ValueIndex(log, key) < |log| then ValueIndex(log, key) + 1 else |log| + 1
  }

  /** The two searches at the start of sysparam_set_data. */
  method Locate(f: Image, b: nat, size: nat, key: Image, ghost sectors: nat, ghost log: Log)
    returns (keyId: int, oldAddr: nat, c: Context)
    requires Region(f, b, sectors, log) && size == sectors * SECTOR && IdsInRange(log)
    ensures keyId == (if KeyIndex(log, key) < |log| then log[KeyIndex(log, key)].id else -1)
    ensures var j := ValueIndex(log, key);
            && (if j < |log| then StoppedAt(b, log, c, j) && oldAddr == c.addr else oldAddr == 0)
            && At(b, log, c, Consumed(log, key)) && b <= c.addr <= b + size + 8
            && Counted(log, START, c, 0, if j < |log| then j + 1 else |log|)
  {
    keyId, oldAddr := -1, 0;
    var status;
    ghost var i, j := KeyIndex(log, key), ValueIndex(log, key);
    status, c := FindKey(f, b, size, START.(addr := b), key, sectors, log);
    if status == Ok {
      keyId := c.entry.id;
      ghost var c1 := c;
      status, c := FindValue(f, b, size, c, c.entry.id, sectors, log, i);
      CountedTrans(log, START, c1, c, 0, i + 1, if j < |log| then j + 1 else |log|);
      if status == Ok {
        oldAddr := c.addr;
      }
    }
    OffMonotone(log, j, |log|);
  }

  /** The scan to the end that makes the counters complete. */
  method Rescan(f: Image, b: nat, size: nat, ctx: Context, ghost sectors: nat, ghost log: Log, ghost p: nat)
    returns (c: Context, truncated: bool)
    requires Region(f, b, sectors, log) && size == sectors * SECTOR && IdsInRange(log)
    requires p <= |log| + 1 && At(b, log, ctx, p) && b <= ctx.addr <= b + size + 8
    ensures if p <= |log| then Counted(log, ctx, c, p, |log|) && !truncated
            else c.compactable == ctx.compactable && c.unusedKeys == ctx.unusedKeys && c.maxKeyId == ctx.maxKeyId
    ensures truncated ==> Used(log) == size - 8
  {
    var status;
    status, c, truncated := ScanFor(f, b, size, ctx, ENTRY_ID_END, false, sectors, log, p);
    if p <= |log| {
      NoEndMarker(log, false, p);
    }
  }
}
