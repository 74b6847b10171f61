/** tftp_receive_data: an image received block by block over TFTP (RFC 1350, sections 2 and 4 to 6) straight into
    a flash slot. Packets may be lost, repeated and delayed; only their contents are trusted. */
module TftpReceive {
  import opened Flash
  import W = RbootWriter
  import opened RomImage
  import opened RomVerify

  const BLOCK_SIZE: nat := 512
  const OP_DATA: nat := 3
  const RETRANSMITS: int := 10

  /** A piece of a network buffer, and whether it happens to lie on a word boundary. */
  datatype Segment = Segment(bytes: Image, aligned: bool)

  /** What a receive call brings. Of a packet: its opcode and block number, the pieces after the four-byte header,
      and whether acknowledging it will work. */
  datatype Event =
    | Timeout
    | Failed
    | Packet(opcode: nat, number: nat, segments: seq<Segment>, ackSent: bool)

  datatype Message = Ack(number: nat) | Error

  datatype Status = Waiting | Finished | TimedOut | BadReceive | BadValue | BadAck

  function Flat(ss: seq<Segment>): Image {
    if ss == [] then [] else Flat(ss[..|ss| - 1]) + ss[|ss| - 1].bytes
  }

  /** The writer's own assumption: a piece that must be realigned holds at least one word. */
  predicate Wordy(ss: seq<Segment>) {
    forall k :: 0 <= k < |ss| && !ss[k].aligned ==> ss[k].bytes == [] || |ss[k].bytes| >= 4
  }

  /** sdk_spi_flash_write, whose refusal to write past the end of the flash the receiver ignores. */
  function ProgramIn(f: Image, a: nat, data: Image): (r: Image)
    ensures |r| == |f|
  {
    if a + |data| <= |f| then Program(f, a, data) else f
  }

  lemma {:induction false} ProgramCat(f: Image, a: nat, x: Image, y: Image)
    requires a + |x| + |y| <= |f|
    ensures Program(Program(f, a, x), a + |x|, y) == Program(f, a, x + y)
  {
    var g := Program(f, a, x);
    var h, k := Program(g, a + |x|, y), Program(f, a, x + y);
    forall i | 0 <= i < |f| ensures h[i] == k[i] {
      if a <= i < a + |x| {
        assert (x + y)[i - a] == x[i - a] && h[i] == g[i];
      } else if a + |x| <= i < a + |x| + |y| {
        assert (x + y)[i - a] == y[i - (a + |x|)] && g[i] == f[i];
      } else {
        assert h[i] == g[i] == f[i];
      }
    }
  }

  predicate Wrote0(level: nat, f: Image, g: Image, a: nat, data: Image, hi: nat) {
    if level > 0 then Wrote0(level - 1, f, g, a, data, hi)
    else
      && |g| == |f| && a + |data| <= hi && (a + |data| <= |f| ==> g == Program(f, a, data))
      && forall i :: 0 <= i < |f| && !(a <= i < hi) ==> g[i] == f[i]
  }

  /** From `f` to `g` the data was programmed at `a`, if it fits the chip, and nothing outside [a, hi) changed. */
  predicate Wrote(f: Image, g: Image, a: nat, data: Image, hi: nat) {
    Wrote0(2, f, g, a, data, hi)
  }

  lemma {:induction false} WroteIs(f: Image, g: Image, a: nat, data: Image, hi: nat)
    ensures Wrote(f, g, a, data, hi) <==>
              && |g| == |f| && a + |data| <= hi && (a + |data| <= |f| ==> g == Program(f, a, data))
              && forall i :: 0 <= i < |f| && !(a <= i < hi) ==> g[i] == f[i]
  {
    assert Wrote0(1, f, g, a, data, hi) == Wrote0(0, f, g, a, data, hi);
  }

  lemma {:induction false} WroteIn(f: Image, a: nat, data: Image, hi: nat)
    requires a + |data| <= hi
    ensures Wrote(f, ProgramIn(f, a, data), a, data, hi)
  {
    WroteIs(f, ProgramIn(f, a, data), a, data, hi);
  }

  lemma {:induction false} WroteNothing(f: Image, a: nat, hi: nat)
    requires a <= hi
    ensures Wrote(f, f, a, [], hi)
  {
    WroteIs(f, f, a, [], hi);
    assert a <= |f| ==> Program(f, a, []) == f;
  }

  lemma {:induction false} WroteBoth(f: Image, g: Image, h: Image, a: nat, x: Image, y: Image, hi: nat)
    requires Wrote(f, g, a, x, hi) && Wrote(g, h, a + |x|, y, hi)
    ensures Wrote(f, h, a, x + y, hi)
  {
    WroteIs(f, g, a, x, hi);
    WroteIs(g, h, a + |x|, y, hi);
    WroteIs(f, h, a, x + y, hi);
    if a + |x| + |y| <= |f| {
      ProgramCat(f, a, x, y);
    }
  }

  /** One piece of a packet: an unaligned one goes out as its first word and then the rest. */
  method WriteSegment(f: Image, a: nat, s: Segment, ghost hi: nat) returns (g: Image)
    requires !s.aligned ==> s.bytes == [] || |s.bytes| >= 4
    requires a + |s.bytes| <= hi
    ensures Wrote(f, g, a, s.bytes, hi)
  {
    if s.bytes != [] && !s.aligned {
      WroteIn(f, a, s.bytes[..4], hi);
      g := ProgramIn(f, a, s.bytes[..4]);
      WroteIn(g, a + 4, s.bytes[4..], hi);
      WroteBoth(f, g, ProgramIn(g, a + 4, s.bytes[4..]), a, s.bytes[..4], s.bytes[4..], hi);
      assert s.bytes[..4] + s.bytes[4..] == s.bytes;
      g := ProgramIn(g, a + 4, s.bytes[4..]);
    } else {
      WroteIn(f, a, s.bytes, hi);
      g := ProgramIn(f, a, s.bytes);
    }
  }

  /** The segment loop. */
  method WriteSegments(f: Image, a: nat, ss: seq<Segment>) returns (g: Image)
    requires Wordy(ss)
    ensures Wrote(f, g, a, Flat(ss), a + |Flat(ss)|)
  {
    g := f;
    var offset, k := 0, 0;
    ghost var hi := a + |Flat(ss)|;
    WroteNothing(f, a, hi);
    while k < |ss|
      invariant k <= |ss| && offset == |Flat(ss[..k])| && Wrote(f, g, a, Flat(ss[..k]), hi)
    {
      assert ss[..k + 1][..k] == ss[..k];
      FlatGrows(ss, k + 1);
      ghost var before := g;
      g := WriteSegment(g, a + offset, ss[k], hi);
      WroteBoth(f, before, g, a, Flat(ss[..k]), ss[k].bytes, hi);
      offset := offset + |ss[k].bytes|;
      k := k + 1;
    }
    assert ss[..k] == ss;
  }

  lemma {:induction false} FlatGrows(ss: seq<Segment>, k: nat)
    requires k <= |ss|
    ensures |Flat(ss[..k])| <= |Flat(ss)|
    decreases |ss| - k
  {
    if k < |ss| {
      assert ss[..k + 1][..k] == ss[..k];
      FlatGrows(ss, k + 1);
    } else {
      assert ss[..k] == ss;
    }
  }

  function Blocks(file: Image): nat { |file| / BLOCK_SIZE + 1 }

  /** The contents of block `k`, counted from one: the last block is the one that is not full. */
  function Block(file: Image, k: nat): (r: Image)
    requires 1 <= k <= Blocks(file)
    ensures |r| <= BLOCK_SIZE && (|r| < BLOCK_SIZE <==> k == Blocks(file))
    ensures BLOCK_SIZE * (k - 1) + |r| <= |file|
    ensures file[..BLOCK_SIZE * (k - 1)] + r == file[..BLOCK_SIZE * (k - 1) + |r|]
    ensures k == Blocks(file) ==> BLOCK_SIZE * (k - 1) + |r| == |file|
  {
    file[BLOCK_SIZE * (k - 1)..if k == Blocks(file) then |file| else BLOCK_SIZE * k]
  }

  /** What is assumed of the sender: a data packet with number `k` carries block `k` of the file. */
  predicate Honest(file: Image, e: Event) {
    e.Packet? && e.opcode == OP_DATA ==>
      Wordy(e.segments) && (e.number == 0 || (e.number <= Blocks(file) && Flat(e.segments) == Block(file, e.number)))
  }

  predicate Kept0(level: nat, was: Image, start: nat, file: Image, n: nat, next: nat, flash: Image) {
    if level > 0 then Kept0(level - 1, was, start, file, n, next, flash)
    else
      && |flash| == |was| && |was| % SECTOR == 0 && start % SECTOR == 0 && n <= |file|
      && (start + n <= |was| ==> flash == W.Stored(was, start, file[..n], start / SECTOR, next))
      && forall i :: 0 <= i < |was| && !(start <= i < start + MAX_IMAGE) ==> flash[i] == was[i]
  }

  /** The flash holds the first `n` bytes of the file, if they fit the chip, in sectors erased up to `next`;
      nothing outside the slot has changed. */
  predicate Kept(was: Image, start: nat, file: Image, n: nat, next: nat, flash: Image) {
    Kept0(2, was, start, file, n, next, flash)
  }

  lemma {:induction false} KeptIs(was: Image, start: nat, file: Image, n: nat, next: nat, flash: Image)
    ensures Kept(was, start, file, n, next, flash) <==>
              && |flash| == |was| && |was| % SECTOR == 0 && start % SECTOR == 0 && n <= |file|
              && (start + n <= |was| ==> flash == W.Stored(was, start, file[..n], start / SECTOR, next))
              && forall i :: 0 <= i < |was| && !(start <= i < start + MAX_IMAGE) ==> flash[i] == was[i]
  {
    assert Kept0(1, was, start, file, n, next, flash) == Kept0(0, was, start, file, n, next, flash);
  }

  /** What that means: a prefix of the file in the slot, and the rest of the flash as it was. */
  lemma {:induction false} KeptMeans(was: Image, start: nat, file: Image, n: nat, next: nat, flash: Image)
    requires Kept(was, start, file, n, next, flash)
    ensures |flash| == |was| && n <= |file| && (start + n <= |was| ==> flash[start..start + n] == file[..n])
    ensures forall i :: 0 <= i < |was| && !(start <= i < start + MAX_IMAGE) ==> flash[i] == was[i]
  {
    KeptIs(was, start, file, n, next, flash);
    if start + n <= |was| {
      W.StoredAt(was, start, file[..n], start / SECTOR, next);
    }
  }

  lemma {:induction false} KeptErase(was: Image, start: nat, file: Image, n: nat, next: nat, f: Image)
    requires Kept(was, start, file, n, next, f) && start / SECTOR <= next && start + n == next * SECTOR && n < MAX_IMAGE
    ensures Kept(was, start, file, n, next + 1, W.EraseIn(f, next))
  {
    KeptIs(was, start, file, n, next, f);
    KeptIs(was, start, file, n, next + 1, W.EraseIn(f, next));
    if start + n <= |was| {
      W.EraseNext(was, start, file[..n], start / SECTOR, next);
    }
    assert start <= next * SECTOR && (next + 1) * SECTOR <= start + MAX_IMAGE;
  }

  lemma {:induction false} KeptProgram(was: Image, start: nat, file: Image, n: nat, more: Image, next: nat, f: Image,
                                       g: Image)
    requires Kept(was, start, file, n, next, f) && start / SECTOR * SECTOR == start
    requires start + n + |more| <= next * SECTOR
    requires n + |more| <= |file| && file[..n] + more == file[..n + |more|] && n + |more| <= MAX_IMAGE
    requires Wrote(f, g, start + n, more, start + n + |more|)
    ensures Kept(was, start, file, n + |more|, next, g)
  {
    KeptIs(was, start, file, n, next, f);
    KeptIs(was, start, file, n + |more|, next, g);
    WroteIs(f, g, start + n, more, start + n + |more|);
    if start + n + |more| <= |was| {
      W.ProgramNext(was, start, file[..n], more, start / SECTOR, next);
    }
  }

  function NextErased(start: nat, n: nat, next: nat): nat {
    if (start + n) % SECTOR == 0 then next + 1 else next
  }

  /** Erasing on a sector boundary, then the size check, then the segments of block `k`. */
  method StorePacket(f: Image, a: nat, limit: nat, ss: seq<Segment>,
                     ghost was: Image, ghost start: nat, ghost file: Image, ghost k: nat, ghost next: nat)
    returns (ok: bool, g: Image)
    requires Wordy(ss) && 1 <= k <= Blocks(file) && Flat(ss) == Block(file, k)
    requires start % SECTOR == 0 && a == start + BLOCK_SIZE * (k - 1) && a < limit == start + MAX_IMAGE
    requires a <= next * SECTOR < a + SECTOR
    requires Kept(was, start, file, BLOCK_SIZE * (k - 1), next, f)
    ensures ok == (a + |Flat(ss)| + 4 < limit) && |g| == |was|
    ensures Kept(was, start, file, BLOCK_SIZE * (k - 1) + if ok then |Flat(ss)| else 0,
                 NextErased(start, BLOCK_SIZE * (k - 1), next), g)
  {
    g := f;
    NextSector(start, k, next);
    if a % SECTOR == 0 {
      KeptErase(was, start, file, BLOCK_SIZE * (k - 1), next, f);
      g := W.EraseIn(f, a / SECTOR);
    }
    ok := a + |Flat(ss)| + 4 < limit;
    if ok {
      ghost var e := g;
      g := WriteSegments(g, a, ss);
      KeptProgram(was, start, file, BLOCK_SIZE * (k - 1), Flat(ss), NextErased(start, BLOCK_SIZE * (k - 1), next),
                  e, g);
    }
    KeptMeans(was, start, file, BLOCK_SIZE * (k - 1) + if ok then |Flat(ss)| else 0,
              NextErased(start, BLOCK_SIZE * (k - 1), next), g);
  }

  lemma {:induction false} NextSector(start: nat, k: nat, next: nat)
    requires start % SECTOR == 0 && 1 <= k
    requires var a := start + BLOCK_SIZE * (k - 1); a <= next * SECTOR < a + SECTOR
    ensures var a := start + BLOCK_SIZE * (k - 1);
            && start / SECTOR * SECTOR == start && start / SECTOR <= next
            && (a % SECTOR == 0 ==> a / SECTOR == next && a == next * SECTOR)
            && (a % SECTOR != 0 ==> a + BLOCK_SIZE <= next * SECTOR)
    ensures var a := start + BLOCK_SIZE * k;
            var next' := if (start + BLOCK_SIZE * (k - 1)) % SECTOR == 0 then next + 1 else next;
            a <= next' * SECTOR < a + SECTOR
  {
  }

  /** How much of the file the first `k` blocks hold. */
  function Through(file: Image, k: nat): nat {
    if BLOCK_SIZE * k <= |file| then BLOCK_SIZE * k else |file|
  }

  /** Only what is stored has been acknowledged. */
  predicate AcksStored(sent: seq<Message>, file: Image, n: nat) {
    forall i :: 0 <= i < |sent| && sent[i].Ack? ==> Through(file, sent[i].number) <= n
  }

  lemma {:induction false} AckNext(sent: seq<Message>, file: Image, n: nat, m: nat, message: Message)
    requires AcksStored(sent, file, n) && n <= m && (message.Ack? ==> Through(file, message.number) <= m)
    ensures AcksStored(sent + [message], file, m)
  {
  }

  /** No block from `b` on has been acknowledged. */
  predicate AcksBelow(sent: seq<Message>, b: nat) {
    forall i :: 0 <= i < |sent| && sent[i].Ack? ==> sent[i].number < b
  }

  lemma {:induction false} BelowNext(sent: seq<Message>, b: nat, c: nat, message: Message)
    requires AcksBelow(sent, b) && b <= c && (message.Ack? ==> message.number < c)
    ensures AcksBelow(sent + [message], c)
  {
  }

  /** The image at `start` passed the update check with the file's own length, as far as the check could see. */
  predicate Approved(f: Image, start: nat, file: Image) {
    var v := Verdict(f, start);
    v.Unchecked? || (v.Parsed? && LineEnd(v.end) + 1 == start + |file|)
  }

  /** With a sender that repeats what is lost, blocks `b` to the last arrive: duplicates of the block before and no more
      timeouts in a row than are allowed in between, and every acknowledgement gets out. */
  predicate Delivered(events: seq<Event>, file: Image, b: nat, retries: int) {
    events != [] && var e := events[0];
    if e.Timeout? then b > 1 && retries > 0 && Delivered(events[1..], file, b, retries - 1)
    else if e.Failed? || e.opcode != OP_DATA then false
    else if e.number == b then e.ackSent && (b == Blocks(file) || Delivered(events[1..], file, b + 1, RETRANSMITS))
    else e.number + 1 == b && Delivered(events[1..], file, b, retries)
  }

  class Receiver {
    var flash: Image
    const start: nat
    const limit: nat
    var writeOffs: nat
    var block: nat
    var retries: int
    var received: nat
    var sent: seq<Message>

    /** The file being sent, the flash before the transfer, and the sectors erased so far. */
    ghost const file: Image
    ghost const was: Image
    ghost var next: nat

    ghost predicate Valid()
      reads this
    {
      && Stays() && 1 <= block <= Blocks(file)
      && writeOffs == start + received && received == BLOCK_SIZE * (block - 1) && writeOffs < limit
      && writeOffs <= next * SECTOR < writeOffs + SECTOR && AcksBelow(sent, block)
    }

    /** What holds to the end, however it comes. The last block is acknowledged only if the image was approved. */
    ghost predicate Stays()
      reads this
    {
      && start % SECTOR == 0 && limit == start + MAX_IMAGE && start < WORD32 && |was| + MAX_IMAGE < WORD32
      && |flash| == |was| && Kept(was, start, file, received, next, flash) && AcksStored(sent, file, received)
      && (AcksBelow(sent, Blocks(file)) || Approved(flash, start, file))
    }

    constructor (f: Image, offset: nat, ghost image: Image)
      requires |f| % SECTOR == 0 && |f| + MAX_IMAGE < WORD32 && offset < WORD32 && offset % SECTOR == 0
      ensures Valid() && file == image && was == f && start == offset && block == 1 && retries == RETRANSMITS
      ensures sent == []
    {
      flash, start, limit, writeOffs, block, retries, received, sent :=
          f, offset, offset + MAX_IMAGE, offset, 1, RETRANSMITS, 0, [];
      file, was, next := image, f, offset / SECTOR;
      new;
      KeptIs(f, offset, image, 0, offset / SECTOR, f);
      W.StoredAt(f, offset, [], offset / SECTOR, offset / SECTOR);
      assert W.Stored(f, offset, [], offset / SECTOR, offset / SECTOR) == f;
    }

    method Send(message: Message)
      requires Stays() && AcksBelow(sent, block) && 1 <= block <= Blocks(file)
      requires message.Ack? ==> Through(file, message.number) <= received && message.number <= block
                                && (message.number < Blocks(file) || Approved(flash, start, file))
      modifies this`sent
      ensures Stays() && sent == old(sent) + [message] && AcksBelow(sent, block + 1)
      ensures (message.Ack? && message.number == block) || AcksBelow(sent, block)
    {
      AckNext(sent, file, received, received, message);
      BelowNext(sent, block, block + 1, message);
      if !message.Ack? || message.number < block {
        BelowNext(sent, block, block, message);
      }
      if !message.Ack? || message.number < Blocks(file) {
        BelowNext(sent, block, Blocks(file), message);
      }
      sent := sent + [message];
    }

    /** A data packet with the block waited for goes to flash. */
    method Store(ss: seq<Segment>) returns (ok: bool)
      requires Valid() && Wordy(ss) && Flat(ss) == Block(file, block)
      modifies this`flash, this`next, this`received, this`retries
      ensures Stays() && retries == RETRANSMITS && ok == (writeOffs + |Flat(ss)| + 4 < limit)
      ensures received == old(received) + if ok then |Flat(ss)| else 0
      ensures var a := start + BLOCK_SIZE * block; a <= next * SECTOR < a + SECTOR
    {
      retries := RETRANSMITS;
      NextSector(start, block, next);
      BelowMore(sent, block, Blocks(file));
      ok, flash := StorePacket(flash, writeOffs, limit, ss, was, start, file, block, next);
      next := NextErased(start, received, next);
      if ok {
        AcksGrow(sent, file, received, received + |Flat(ss)|);
        received := received + |Flat(ss)|;
      }
    }

    /** The last block is acknowledged only once the image has been verified. */
    method Conclude(short: bool, ackSent: bool, stale: Image, byte: bv8) returns (status: Status)
      requires Stays() && |stale| == 16 && 1 <= block <= Blocks(file) && short == (block == Blocks(file))
      requires received == BLOCK_SIZE * (block - 1) + |Block(file, block)| && AcksBelow(sent, block)
      modifies this`sent
      ensures Stays() && (status == Waiting ==> AcksBelow(sent, block + 1))
      ensures status == Finished ==> short && received == |file| && Approved(flash, start, file)
      ensures status == Waiting ==> !short
      ensures status == Waiting || status == Finished || status == BadValue || status == BadAck
      ensures ackSent && !short ==> status == Waiting
      ensures ackSent && short ==>
                Verdict(flash, start).Unchecked? || (status == Finished <==> Approved(flash, start, file))
    {
      if short {
        var good, length := VerifyImage(flash, start, stale, byte);
        if !good || length != received {
          Send(Error);
          return BadValue;
        }
      }
      if !ackSent {
        return BadAck;
      }
      Send(Ack(block));
      return if short then Finished else Waiting;
    }

    method Accept(ss: seq<Segment>, ackSent: bool, stale: Image, byte: bv8) returns (status: Status)
      requires Valid() && Wordy(ss) && Flat(ss) == Block(file, block) && |stale| == 16
      modifies this
      ensures Stays() && (status == Waiting ==> Valid() && block == old(block) + 1 && retries == RETRANSMITS)
      ensures status == Finished ==> received == |file| && Approved(flash, start, file)
      ensures status == Waiting || status == Finished || status == BadValue || status == BadAck
      ensures var fits := old(writeOffs) + |Flat(ss)| + 4 < limit;
              && (fits && ackSent && old(block) < Blocks(file) ==> status == Waiting)
              && (fits && ackSent && old(block) == Blocks(file) ==>
                    received == |file|
                        && (Verdict(flash, start).Unchecked? || (status == Finished <==> Approved(flash, start, file))))
    {
      var ok := Store(ss);
      if !ok {
        Send(Error);
        return BadValue;
      }
      status := Conclude(|Flat(ss)| < BLOCK_SIZE, ackSent, stale, byte);
      if status == Waiting {
        block := block + 1;
        writeOffs := writeOffs + BLOCK_SIZE;
      }
    }

    /** One turn of the receive loop. */
    method Step(e: Event, stale: Image, byte: bv8) returns (status: Status)
      requires Valid() && Honest(file, e) && |stale| == 16
      modifies this
      ensures Stays() && (status == Waiting ==> Valid())
      ensures status == Finished ==> received == |file| && Approved(flash, start, file)
      ensures e.Timeout? && old(retries) > 0 && old(block) > 1 ==>
                status == Waiting && block == old(block) && retries == old(retries) - 1
      ensures e.Packet? && e.opcode == OP_DATA && e.number + 1 == old(block) ==>
                status == Waiting && block == old(block) && retries == old(retries)
      ensures e.Packet? && e.opcode == OP_DATA && e.number == old(block) && e.ackSent && |file| + 4 < MAX_IMAGE ==>
                if old(block) < Blocks(file) then status == Waiting && block == old(block) + 1 && retries == RETRANSMITS
                else status != Waiting && received == |file|
                     && (Verdict(flash, start).Unchecked? || (status == Finished <==> Approved(flash, start, file)))
    {
      match e
      case Timeout => status := OnTimeout();
      case Failed =>
        Send(Error);
        status := BadReceive;
      case Packet(opcode, number, segments, ackSent) =>
        if opcode == OP_DATA && number == block {
          status := Accept(segments, ackSent, stale, byte);
        } else if opcode == OP_DATA && number + 1 == block {
          Repeat();
          status := Waiting;
        } else {
          Send(Error);
          status := BadValue;
        }
    }

    /** The block before is acknowledged once more. */
    method Repeat()
      requires Valid()
      modifies this`sent
      ensures Valid() && sent == old(sent) + [Ack(block - 1)]
    {
      Send(Ack(block - 1));
    }

    /** A receive call that timed out: ask again for the block waited for, or give up. */
    method OnTimeout() returns (status: Status)
      requires Valid()
      modifies this`retries, this`sent
      ensures Valid() && retries == old(retries) - 1
      ensures status == if old(retries) > 0 && block > 1 then Waiting else TimedOut
      ensures sent == old(sent) + [if status == Waiting then Ack(block - 1) else Error]
    {
      var left := retries;
      retries := retries - 1;
      if left > 0 && block > 1 {
        Repeat();
        return Waiting;
      }
      Send(Error);
      return TimedOut;
    }

    /** The receive loop over what the network brings. Whenever it ends, and whenever it waits, a prefix of the file is
        in the slot and nothing outside the slot has changed; it reports success only for the whole file, verified. */
    method Receive(events: seq<Event>, stale: Image, byte: bv8) returns (status: Status)
      requires Valid() && |stale| == 16 && block == 1 && retries == RETRANSMITS
      requires forall i :: 0 <= i < |events| ==> Honest(file, events[i])
      modifies this
      ensures Stays() && (status == Waiting ==> Valid())
      ensures status == Finished ==> received == |file| && Approved(flash, start, file)
      ensures Delivered(events, file, 1, RETRANSMITS) && |file| + 4 < MAX_IMAGE ==>
                received == |file|
                    && (Verdict(flash, start).Unchecked? || (status == Finished <==> Approved(flash, start, file)))
    {
      status := Waiting;
      var i := 0;
      ghost var sure := Delivered(events, file, 1, RETRANSMITS) && |file| + 4 < MAX_IMAGE;
      assert events[0..] == events;
      while i < |events|
        invariant i <= |events| && Valid() && status == Waiting
        invariant sure ==> Delivered(events[i..], file, block, retries)
      {
        assert events[i..][1..] == events[i + 1..];
        status := Step(events[i], stale, byte);
        if status != Waiting {
          return;
        }
        i := i + 1;
      }
    }
  }

  lemma {:induction false} BelowMore(sent: seq<Message>, b: nat, c: nat)
    requires AcksBelow(sent, b) && b <= c
    ensures AcksBelow(sent, c)
  {
  }

  lemma {:induction false} AcksGrow(sent: seq<Message>, file: Image, n: nat, m: nat)
    requires AcksStored(sent, file, n) && n <= m
    ensures AcksStored(sent, file, m)
  {
  }

  lemma {:induction false} VerdictSound(f: Image, p: nat)
    requires Verdict(f, p).Parsed?
    ensures Sound(f, Verdict(f, p))
  {
  }

  /** A whole transfer, from an idle receiver on. Success means that the slot holds the whole file and that the file is
      a sound image; a file small enough that is delivered in full is refused only if it is not one. */
  method Transfer(f: Image, start: nat, events: seq<Event>, stale: Image, byte: bv8, ghost file: Image)
    returns (status: Status, flash: Image, received: nat, sent: seq<Message>)
    requires |f| % SECTOR == 0 && |f| + MAX_IMAGE < WORD32 && start < WORD32 && start % SECTOR == 0 && |stale| == 16
    requires forall i :: 0 <= i < |events| ==> Honest(file, events[i])
    ensures |flash| == |f| && received <= |file|
    ensures (start + received <= |f| ==> flash[start..start + received] == file[..received])
    ensures forall i :: 0 <= i < |f| && !(start <= i < start + MAX_IMAGE) ==> flash[i] == f[i]
    ensures AcksStored(sent, file, received) && (AcksBelow(sent, Blocks(file)) || Approved(flash, start, file))
    ensures status == Finished ==> received == |file| && Approved(flash, start, file)
    ensures status == Finished && !Verdict(flash, start).Unchecked? ==>
              start + |file| <= |f| && flash[start..start + |file|] == file && Sound(flash, Verdict(flash, start))
    ensures Delivered(events, file, 1, RETRANSMITS) && |file| + 4 < MAX_IMAGE ==>
              received == |file|
                  && (Verdict(flash, start).Unchecked? || (status == Finished <==> Approved(flash, start, file)))
  {
    var r := new Receiver(f, start, file);
    status := r.Receive(events, stale, byte);
    flash, received, sent := r.flash, r.received, r.sent;
    KeptMeans(f, start, file, received, r.next, flash);
    if status == Finished && !Verdict(flash, start).Unchecked? {
      VerdictSound(flash, start);
      assert file[..|file|] == file;
    }
  }
}
