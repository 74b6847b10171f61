/** The MQTT packet codec: the remaining-length field (MQTT 3.1.1, section 2.2.3), PUBLISH packets (section 3.3)
    and the four-byte acknowledgements. */
module MqttPacket {

  type Byte = x: int | 0 <= x < 256

  const MAX_REMAINING: nat := 268435455
  const PUBLISH: nat := 3
  const PUBREL: nat := 6
  const BUFFER_TOO_SHORT: int := -2

  // ---- the remaining length

  /** Seven bits to a byte, least significant first, the top bit set on all but the last. */
  function Encode(n: nat): (s: seq<Byte>)
    ensures |s| >= 1
  {
    if n < 128 then [n] else [n % 128 + 128] + Encode(n / 128)
  }

  function ValueOf(s: seq<Byte>): nat {
    if s == [] then 0 else s[0] % 128 + 128 * ValueOf(s[1..])
  }

  lemma {:induction false} EncodeValue(n: nat)
    ensures ValueOf(Encode(n)) == n
  {
    if n >= 128 {
      EncodeValue(n / 128);
      assert Encode(n)[1..] == Encode(n / 128);
    }
  }

  /** The bytes a remaining length takes. */
  lemma {:induction false} EncodeLength(n: nat)
    ensures |Encode(n)| == 1 <==> n < 128
    ensures |Encode(n)| <= 2 <==> n < 16384
    ensures |Encode(n)| <= 3 <==> n < 2097152
    ensures |Encode(n)| <= 4 <==> n <= MAX_REMAINING
  {
    if n >= 128 {
      assert |Encode(n)| == 1 + |Encode(n / 128)|;
      if n / 128 >= 128 {
        assert |Encode(n / 128)| == 1 + |Encode(n / 128 / 128)|;
        if n / 128 / 128 >= 128 {
          assert |Encode(n / 128 / 128)| == 1 + |Encode(n / 128 / 128 / 128)|;
        }
      }
    }
  }

  /** MQTTPacket_len. */
  function PacketLen(remaining: nat): nat {
    var n := remaining + 1;
    if n < 128 then n + 1
    else if n < 16384 then n + 2
    else if n < 2097151 then n + 3
    else n + 4
  }

  /** The computed length is the true one but for four values, where it is one too many; beyond the largest
      remaining length it is too small. */
  lemma {:induction false} PacketLenExact(n: nat)
    ensures n <= MAX_REMAINING ==>
              PacketLen(n) == 1 + |Encode(n)| + n + (if n in {127, 16383, 2097150, 2097151} then 1 else 0)
    ensures n > MAX_REMAINING ==> PacketLen(n) < 1 + |Encode(n)| + n
  {
    EncodeLength(n);
  }

  /** The length of the field at the head of `s`: up to the first byte without the top bit; five if the first four
      all have it; none if `s` ends before that. */
  datatype Field = Cut | Field(len: nat)

  function FieldAt(s: seq<Byte>, k: nat): (r: Field)
    requires k <= 4
    ensures r.Field? ==> k < r.len <= 5 && (r.len <= 4 ==> r.len <= |s|) && (r.len == 5 ==> 4 <= |s| || k == 4)
    decreases 4 - k
  {
    if k == 4 then Field(5)
    else if k >= |s| then Cut
    else if s[k] < 128 then Field(k + 1)
    else FieldAt(s, k + 1)
  }

  lemma {:induction false} EncodeField(n: nat, rest: seq<Byte>, front: seq<Byte>)
    requires |front| + |Encode(n)| <= 4
    ensures FieldAt(front + Encode(n) + rest, |front|) == Field(|front| + |Encode(n)|)
    decreases n
  {
    var s := front + Encode(n) + rest;
    assert s[|front|] == Encode(n)[0];
    if n >= 128 {
      var front' := front + [n % 128 + 128];
      EncodeField(n / 128, rest, front');
      assert front' + Encode(n / 128) + rest == s;
    }
  }

  /** What a decoder finds: the number of bytes it says it used and the value. */
  function FieldValue(s: seq<Byte>, len: nat): nat
    requires len <= 5 && (len <= 4 ==> len <= |s|) && (len == 5 ==> 4 <= |s|)
  {
    ValueOf(s[..if len == 5 then 4 else len])
  }

  /** Decoding undoes encoding, whatever follows, for every remaining length the protocol allows. */
  lemma {:induction false} LengthRoundTrip(n: nat, rest: seq<Byte>)
    requires n <= MAX_REMAINING
    ensures var s := Encode(n) + rest;
            FieldAt(s, 0) == Field(|Encode(n)|) && |Encode(n)| <= 4 && FieldValue(s, |Encode(n)|) == n
  {
    EncodeLength(n);
    EncodeField(n, rest, []);
    assert [] + Encode(n) + rest == Encode(n) + rest;
    EncodeValue(n);
    assert (Encode(n) + rest)[..|Encode(n)|] == Encode(n);
  }

  /** And for no larger one: the decoder gives up before the last byte. */
  lemma {:induction false} LengthTooLong(n: nat, rest: seq<Byte>)
    requires n > MAX_REMAINING
    ensures FieldAt(Encode(n) + rest, 0) == Field(5) && FieldValue(Encode(n) + rest, 5) < n
  {
    var a, b, c := n / 128, n / 128 / 128, n / 128 / 128 / 128;
    var s := Encode(n) + rest;
    assert Encode(n) == [n % 128 + 128] + Encode(a);
    assert Encode(a) == [a % 128 + 128] + Encode(b);
    assert Encode(b) == [b % 128 + 128] + Encode(c);
    assert Encode(c) == [c % 128 + 128] + Encode(c / 128);
    assert s[0] == n % 128 + 128 && s[1] == a % 128 + 128 && s[2] == b % 128 + 128 && s[3] == c % 128 + 128;
    assert FieldAt(s, 3) == FieldAt(s, 4);
    assert FieldAt(s, 2) == FieldAt(s, 3);
    assert FieldAt(s, 1) == FieldAt(s, 2);
    ValueBound(s[..4]);
  }

  lemma {:induction false} ValueBound(s: seq<Byte>)
    requires |s| == 4
    ensures ValueOf(s) <= MAX_REMAINING
  {
    assert ValueOf(s[1..][1..][1..]) == s[1..][1..][1..][0] % 128 + 128 * ValueOf(s[1..][1..][1..][1..]);
    assert ValueOf(s[1..][1..]) < 128 * 128;
    assert ValueOf(s[1..]) < 128 * 128 * 128;
  }

  function Pow128(k: nat): nat {
    if k == 0 then 1 else 128 * Pow128(k - 1)
  }

  lemma {:induction false} ValueNext(s: seq<Byte>, c: Byte)
    ensures ValueOf(s + [c]) == ValueOf(s) + c % 128 * Pow128(|s|)
  {
    if s == [] {
      assert s + [c] == [c] && [c][1..] == [];
    } else {
      assert (s + [c])[1..] == s[1..] + [c];
      ValueNext(s[1..], c);
    }
  }

  /** MQTTPacket_decode on a buffer: the bytes used and the value. `Cut` if the buffer ends within the field. */
  method DecodeLength(s: seq<Byte>) returns (r: Field, value: nat)
    ensures r == FieldAt(s, 0)
    ensures r.Field? ==> value == FieldValue(s, r.len)
  {
    var multiplier: nat, len: nat := 1, 0;
    value := 0;
    while true
      invariant len <= 4 && len <= |s| && multiplier == Pow128(len) && value == ValueOf(s[..len])
      invariant FieldAt(s, 0) == FieldAt(s, len)
      decreases 4 - len
    {
      len := len + 1;
      if len > 4 {
        return Field(5), value;
      }
      if len > |s| {
        return Cut, value;
      }
      var c := s[len - 1];
      ValueNext(s[..len - 1], c);
      assert s[..len] == s[..len - 1] + [c];
      value := value + c % 128 * multiplier;
      multiplier := multiplier * 128;
      if c < 128 {
        return Field(len), value;
      }
    }
  }

  // ---- publish packets

  /** A C string or none. */
  datatype CString = Null | Text(s: seq<Byte>)

  /** MQTTString: a C string, or a pointer with a length. */
  datatype Topic = Topic(cstring: CString, len: nat, data: seq<Byte>)

  datatype Message = Message(dup: Byte, qos: int, retained: Byte, id: nat, topic: Topic, payload: seq<Byte>)

  /** MQTTstrlen, which looks at the C string first. */
  function Strlen(t: Topic): nat {
    if t.cstring.Text? then |t.cstring.s| else t.len
  }

  /** What writeMQTTString writes, which looks at the length first. */
  function TopicText(t: Topic): seq<Byte>
    requires t.len <= |t.data|
  {
    if t.len > 0 then t.data[..t.len] else if t.cstring.Text? then t.cstring.s else []
  }

  /** The topic is held in one of its two forms only. */
  predicate OneForm(t: Topic) {
    t.cstring == Null || t.len == 0
  }

  /** The length announced is the length written if and only if the topic is held in one form, or in two forms
      of equal length. */
  lemma {:induction false} TopicLength(t: Topic)
    requires t.len <= |t.data|
    ensures Strlen(t) == |TopicText(t)| <==> OneForm(t) || (t.cstring.Text? && |t.cstring.s| == t.len)
  {
  }

  /** writeInt. */
  function Int2(n: nat): seq<Byte> {
    [n / 256 % 256, n % 256]
  }

  function HeaderByte(m: Message): Byte {
    16 * PUBLISH + 8 * (m.dup % 2) + 2 * (m.qos % 4) + m.retained % 2
  }

  /** MQTTSerialize_publishLength. */
  function Remaining(m: Message): nat {
    2 + Strlen(m.topic) + |m.payload| + if m.qos > 0 then 2 else 0
  }

  /** A message the serialiser can write: the topic's length is what it announces, and the lengths fit their fields. */
  predicate Sendable(m: Message) {
    && m.topic.len <= |m.topic.data| && Strlen(m.topic) == |TopicText(m.topic)| < 0x10000
    && m.id < 0x10000 && Remaining(m) <= MAX_REMAINING
  }

  function TopicField(t: Topic): (s: seq<Byte>)
    requires t.len <= |t.data|
    ensures |s| == 2 + |TopicText(t)|
  {
    Int2(|TopicText(t)|) + TopicText(t)
  }

  function IdField(m: Message): seq<Byte> {
    if m.qos > 0 then Int2(m.id) else []
  }

  /** The bytes behind the remaining length. */
  function Body(m: Message): (s: seq<Byte>)
    requires Sendable(m)
    ensures |s| == Remaining(m)
  {
    TopicField(m.topic) + IdField(m) + m.payload
  }

  function Wire0(level: nat, m: Message): (s: seq<Byte>)
    requires Sendable(m)
    ensures |s| == 1 + |Encode(Remaining(m))| + Remaining(m)
  {
    if level > 0 then Wire0(level - 1, m) else [HeaderByte(m)] + Encode(Remaining(m)) + Body(m)
  }

  /** The packet: header byte, remaining length, body. */
  function Wire(m: Message): seq<Byte>
    requires Sendable(m)
  {
    Wire0(2, m)
  }

  lemma {:induction false} WireParts(m: Message)
    requires Sendable(m)
    ensures Wire(m) == [HeaderByte(m)] + Encode(Remaining(m)) + Body(m)
  {
    assert Wire0(1, m) == Wire0(0, m);
  }

  function Splice0(level: nat, s: seq<Byte>, p: nat, data: seq<Byte>): (r: seq<Byte>)
    requires p + |data| <= |s|
    ensures |r| == |s|
  {
    if level > 0 then Splice0(level - 1, s, p, data) else s[..p] + data + s[p + |data|..]
  }

  /** `s` with `data` in place of what was at `p`. */
  function Splice(s: seq<Byte>, p: nat, data: seq<Byte>): seq<Byte>
    requires p + |data| <= |s|
  {
    Splice0(2, s, p, data)
  }

  lemma {:induction false} SpliceIs(s: seq<Byte>, p: nat, data: seq<Byte>)
    requires p + |data| <= |s|
    ensures Splice(s, p, data) == s[..p] + data + s[p + |data|..]
  {
    assert Splice0(1, s, p, data) == Splice0(0, s, p, data);
  }

  lemma {:induction false} SpliceBoth(s: seq<Byte>, p: nat, x: seq<Byte>, y: seq<Byte>)
    requires p + |x| + |y| <= |s|
    ensures Splice(Splice(s, p, x), p + |x|, y) == Splice(s, p, x + y)
  {
    SpliceIs(s, p, x);
    SpliceIs(Splice(s, p, x), p + |x|, y);
    SpliceIs(s, p, x + y);
  }

  lemma {:induction false} SpliceNone(s: seq<Byte>, p: nat)
    requires p <= |s|
    ensures Splice(s, p, []) == s
  {
    SpliceIs(s, p, []);
  }

  /** memcpy through the write pointer. */
  method Put(buf: array<Byte>, p: nat, data: seq<Byte>) returns (q: nat)
    requires p + |data| <= buf.Length
    modifies buf
    ensures q == p + |data| && buf[..] == Splice(old(buf[..]), p, data)
  {
    var i := 0;
    ghost var was := buf[..];
    q := p;
    SpliceNone(was, p);
    while i < |data|
      invariant i <= |data| && q == p + i && buf[..] == Splice(was, p, data[..i])
    {
      SpliceBoth(was, p, data[..i], [data[i]]);
      assert data[..i + 1] == data[..i] + [data[i]];
      q := PutByte(buf, q, data[i]);
      i := i + 1;
    }
    assert data[..i] == data;
  }

  /** writeChar. */
  method PutByte(buf: array<Byte>, p: nat, b: Byte) returns (q: nat)
    requires p < buf.Length
    modifies buf
    ensures q == p + 1 && buf[..] == Splice(old(buf[..]), p, [b])
  {
    SpliceIs(buf[..], p, [b]);
    buf[p] := b;
    q := p + 1;
  }

  function Digit(n: nat): Byte {
    if n / 128 > 0 then n % 128 + 128 else n % 128
  }

  lemma {:induction false} EncodeNext(done: seq<Byte>, n: nat, all: seq<Byte>)
    requires done + Encode(n) == all
    ensures |done| + 1 <= |all|
    ensures if n / 128 == 0 then done + [Digit(n)] == all else done + [Digit(n)] + Encode(n / 128) == all
  {
    if n / 128 > 0 {
      assert Encode(n) == [Digit(n)] + Encode(n / 128);
      assert done + [Digit(n)] + Encode(n / 128) == done + Encode(n);
    }
  }

  /** MQTTPacket_encode through the write pointer. */
  method PutLength(buf: array<Byte>, p: nat, n: nat) returns (q: nat)
    requires p + |Encode(n)| <= buf.Length
    modifies buf
    ensures q == p + |Encode(n)| && buf[..] == Splice(old(buf[..]), p, Encode(n))
  {
    var length := n;
    ghost var done: seq<Byte>, was, all := [], buf[..], Encode(n);
    q := p;
    SpliceNone(was, p);
    while true
      invariant q == p + |done| && done + Encode(length) == all && |all| == |Encode(n)|
      invariant buf[..] == Splice(was, p, done)
      decreases length
    {
      EncodeNext(done, length, all);
      SpliceBoth(was, p, done, [Digit(length)]);
      q := PutByte(buf, q, Digit(length));
      done := done + [Digit(length)];
      length := length / 128;
      if length == 0 {
        return;
      }
    }
  }

  /** writeInt. */
  method PutInt(buf: array<Byte>, p: nat, n: nat) returns (q: nat)
    requires p + 2 <= buf.Length
    modifies buf
    ensures q == p + 2 && buf[..] == Splice(old(buf[..]), p, Int2(n))
  {
    q := PutByte(buf, p, n / 256 % 256);
    SpliceBoth(old(buf[..]), p, [n / 256 % 256], [n % 256]);
    assert [n / 256 % 256] + [n % 256] == Int2(n);
    q := PutByte(buf, q, n % 256);
  }

  /** writeMQTTString. */
  method PutTopic(buf: array<Byte>, p: nat, t: Topic) returns (q: nat)
    requires t.len <= |t.data| && p + 2 + |TopicText(t)| <= buf.Length
    modifies buf
    ensures q == p + |TopicField(t)| && buf[..] == Splice(old(buf[..]), p, TopicField(t))
  {
    SpliceBoth(old(buf[..]), p, Int2(|TopicText(t)|), TopicText(t));
    if t.len > 0 {
      q := PutInt(buf, p, t.len);
      q := Put(buf, q, t.data[..t.len]);
    } else if t.cstring.Text? {
      q := PutInt(buf, p, |t.cstring.s|);
      q := Put(buf, q, t.cstring.s);
    } else {
      q := PutInt(buf, p, 0);
      assert TopicField(t) == Int2(0);
    }
  }

  /** The bytes behind the remaining length. */
  method PutBody(buf: array<Byte>, p: nat, m: Message) returns (q: nat)
    requires Sendable(m) && p + Remaining(m) <= buf.Length
    modifies buf
    ensures q == p + Remaining(m) && buf[..] == Splice(old(buf[..]), p, Body(m))
  {
    ghost var was := buf[..];
    BodySplice(was, p, m);
    q := PutTopic(buf, p, m.topic);
    if m.qos > 0 {
      q := PutInt(buf, q, m.id);
    }
    q := Put(buf, q, m.payload);
  }

  lemma {:induction false} BodySplice(s: seq<Byte>, p: nat, m: Message)
    requires Sendable(m) && p + Remaining(m) <= |s|
    ensures var t, id := TopicField(m.topic), IdField(m);
            var r := if m.qos > 0 then Splice(Splice(s, p, t), p + |t|, id) else Splice(s, p, t);
            Splice(r, p + |t| + |id|, m.payload) == Splice(s, p, Body(m))
  {
    var t, id := TopicField(m.topic), IdField(m);
    SpliceBoth(s, p, t, id);
    SpliceBoth(s, p, t + id, m.payload);
    if m.qos <= 0 {
      assert t + id == t;
    }
  }

  lemma {:induction false} PacketSplice(s: seq<Byte>, m: Message)
    requires Sendable(m) && |Wire(m)| <= |s|
    ensures |Wire(m)| == 1 + |Encode(Remaining(m))| + |Body(m)|
    ensures var front := Splice(Splice(s, 0, [HeaderByte(m)]), 1, Encode(Remaining(m)));
            var r := Splice(front, 1 + |Encode(Remaining(m))|, Body(m));
            r[..|Wire(m)|] == Wire(m) && r[|Wire(m)|..] == s[|Wire(m)|..]
  {
    var head, code := [HeaderByte(m)], Encode(Remaining(m));
    SpliceBoth(s, 0, head, code);
    SpliceBoth(s, 0, head + code, Body(m));
    WireParts(m);
    SpliceIs(s, 0, Wire(m));
  }

  /** MQTTSerialize_publish: writes exactly the packet, within the length given, or nothing. */
  method SerializePublish(buf: array<Byte>, buflen: nat, m: Message) returns (rc: int)
    requires Sendable(m) && buflen <= buf.Length
    modifies buf
    ensures if PacketLen(Remaining(m)) > buflen then rc == BUFFER_TOO_SHORT && buf[..] == old(buf[..])
            else rc == |Wire(m)| <= buflen && buf[..rc] == Wire(m) && buf[rc..] == old(buf[rc..])
  {
    var remaining := Remaining(m);
    if PacketLen(remaining) > buflen {
      return BUFFER_TOO_SHORT;
    }
    PacketLenExact(remaining);
    ghost var was := buf[..];
    var p := PutByte(buf, 0, HeaderByte(m));
    p := PutLength(buf, p, remaining);
    p := PutBody(buf, p, m);
    PacketSplice(was, m);
    rc := p;
  }

  // ---- reading packets

  datatype PacketId = NoId | Id(n: nat)

  /** What a deserialiser makes of a buffer. `Overrun`: it would look beyond the end. `Refused`: it stops, with this
      return code. `Negative`: it reports a payload of negative length. */
  datatype Received =
    | Overrun
    | Refused(code: nat)
    | Negative(length: int)
    | Got(flags: Flags, id: PacketId, topic: seq<Byte>, payload: seq<Byte>)

  /** The return code, if it comes to one; 1 is documented to mean success. */
  function Code(r: Received): nat {
    if r.Refused? then r.code else 1
  }

  function ReadInt(b: seq<Byte>, p: nat): nat
    requires p + 2 <= |b|
  {
    var high: nat, low: nat := b[p], b[p + 1];
    256 * high + low
  }

  lemma {:induction false} IntRoundTrip(n: nat, front: seq<Byte>, rest: seq<Byte>)
    requires n < 0x10000
    ensures var b := front + Int2(n) + rest; |front| + 2 <= |b| && ReadInt(b, |front|) == n
  {
    var b := front + Int2(n) + rest;
    assert b[|front|] == n / 256 % 256 && b[|front| + 1] == n % 256;
  }

  datatype Flags = Flags(dup: nat, qos: nat, retained: nat)

  function Flags0(level: nat, h: Byte): Flags {
    if level > 0 then Flags0(level - 1, h) else Flags(h / 8 % 2, h / 2 % 4, h % 2)
  }

  /** The low half of a header byte. */
  function FlagsOf(h: Byte): Flags {
    Flags0(2, h)
  }

  /** What follows the topic, from `p` up to `end`. */
  function ParseTail(b: seq<Byte>, p: nat, end: nat, topic: seq<Byte>): Received
    requires 0 < |b|
  {
    var f := FlagsOf(b[0]);
    if f.qos > 0 && p + 2 > |b| then Overrun
    else
      var id, q := if f.qos > 0 then Id(ReadInt(b, p)) else NoId, if f.qos > 0 then p + 2 else p;
      if end < q then Negative(end - q)
      else if end > |b| then Overrun
      else Got(f, id, topic, b[q..end])
  }

  function ParseBody0(level: nat, b: seq<Byte>, len: nat, n: nat): Received
    requires 0 < |b|
  {
    if level > 0 then ParseBody0(level - 1, b, len, n)
    else
      var p := 1 + len;
      var end := p + n;
      if n <= 1 then Refused(len)
      else if p + 2 > |b| then Overrun
      else
        var size := ReadInt(b, p);
        if p + 2 + size > end then Refused(len)
        else if p + 2 + size > |b| then Overrun
        else ParseTail(b, p + 2 + size, end, b[p + 2..p + 2 + size])
  }

  /** What follows the remaining length, which took `len` bytes and announced `n`: a topic that must end by then,
      or else the number of length bytes is the answer. */
  function ParseBody(b: seq<Byte>, len: nat, n: nat): Received
    requires 0 < |b|
  {
    ParseBody0(2, b, len, n)
  }

  lemma {:induction false} BodyCases(b: seq<Byte>, len: nat, n: nat)
    requires 0 < |b|
    ensures var r, p := ParseBody(b, len, n), 1 + len;
            if n <= 1 then r == Refused(len)
            else if p + 2 > |b| then r == Overrun
            else if 2 + ReadInt(b, p) > n then r == Refused(len)
            else if p + 2 + ReadInt(b, p) > |b| then r == Overrun
            else r == ParseTail(b, p + 2 + ReadInt(b, p), p + n, b[p + 2..p + 2 + ReadInt(b, p)])
  {
    assert ParseBody0(1, b, len, n) == ParseBody0(0, b, len, n);
  }

  function ParsePublish0(level: nat, b: seq<Byte>): Received {
    if level > 0 then ParsePublish0(level - 1, b)
    else if b == [] then Overrun
    else if b[0] / 16 != PUBLISH then Refused(0)
    else
      match FieldAt(b[1..], 0)
      case Cut => Overrun
      case Field(len) => ParseBody(b, len, FieldValue(b[1..], len))
  }

  /** MQTTDeserialize_publish as a function of the buffer. */
  function ParsePublish(b: seq<Byte>): Received {
    ParsePublish0(2, b)
  }

  lemma {:induction false} ParseParts(b: seq<Byte>)
    ensures ParsePublish(b) ==
              if b == [] then Overrun
              else if b[0] / 16 != PUBLISH then Refused(0)
              else match FieldAt(b[1..], 0)
                   case Cut => Overrun
                   case Field(len) => ParseBody(b, len, FieldValue(b[1..], len))
  {
    assert ParsePublish0(1, b) == ParsePublish0(0, b);
  }

  /** What a sent message should be received as. */
  function Expected(m: Message): Received
    requires m.topic.len <= |m.topic.data|
  {
    Got(Flags(m.dup % 2, m.qos % 4, m.retained % 2), if m.qos > 0 then Id(m.id) else NoId,
        TopicText(m.topic), m.payload)
  }

  lemma {:induction false} HeaderBits(m: Message)
    ensures var h := HeaderByte(m);
            h / 16 == PUBLISH && FlagsOf(h) == Flags(m.dup % 2, m.qos % 4, m.retained % 2)
  {
    assert Flags0(1, HeaderByte(m)) == Flags0(0, HeaderByte(m));
  }

  /** The reader finds the body where the writer put it. */
  lemma {:induction false} ParseWire(m: Message, rest: seq<Byte>)
    requires Sendable(m)
    ensures var b, len := Wire(m) + rest, |Encode(Remaining(m))|;
            ParsePublish(b) == ParseBody(b, len, Remaining(m))
  {
    var b, code := Wire(m) + rest, Encode(Remaining(m));
    WireParts(m);
    ParseParts(b);
    HeaderBits(m);
    assert b[1..] == code + (Body(m) + rest);
    LengthRoundTrip(Remaining(m), Body(m) + rest);
  }

  lemma {:induction false} Middle(a: seq<Byte>, x: seq<Byte>, c: seq<Byte>)
    ensures (a + x + c)[|a|..|a| + |x|] == x
  {
  }

  /** Everything up to the topic. */
  function Head(m: Message): seq<Byte> {
    [HeaderByte(m)] + Encode(Remaining(m))
  }

  lemma {:induction false} BodyIs(head: seq<Byte>, text: seq<Byte>, tail: seq<Byte>, rest: seq<Byte>)
    requires 0 < |head| && |text| < 0x10000
    ensures var b := head + Int2(|text|) + text + tail + rest;
            var q := |head| + 2 + |text|;
            && |head| + 2 <= |b| && ReadInt(b, |head|) == |text| && q + |tail| <= |b|
            && b[|head| + 2..q] == text && b[q..q + |tail|] == tail && b[0] == head[0]
  {
    var b, front := head + Int2(|text|) + text + tail + rest, head + Int2(|text|);
    IntRoundTrip(|text|, head, text + tail + rest);
    assert b == front + (text + tail + rest);
    Middle(front, text, tail + rest);
    assert b == front + text + (tail + rest);
    Middle(front + text, tail, rest);
  }

  lemma {:induction false} BodyParses(head: seq<Byte>, text: seq<Byte>, tail: seq<Byte>, rest: seq<Byte>)
    requires 0 < |head| && |text| < 0x10000
    ensures var b, q := head + Int2(|text|) + text + tail + rest, |head| + 2 + |text|;
            ParseBody(b, |head| - 1, 2 + |text| + |tail|) == ParseTail(b, q, q + |tail|, text)
  {
    BodyIs(head, text, tail, rest);
    BodyCases(head + Int2(|text|) + text + tail + rest, |head| - 1, 2 + |text| + |tail|);
  }

  lemma {:induction false} WireIs(m: Message, rest: seq<Byte>)
    requires Sendable(m)
    ensures var text := TopicText(m.topic);
            Wire(m) + rest == Head(m) + Int2(|text|) + text + (IdField(m) + m.payload) + rest
    ensures |Head(m)| == 1 + |Encode(Remaining(m))| && Head(m)[0] == HeaderByte(m)
    ensures Remaining(m) == 2 + |TopicText(m.topic)| + |IdField(m) + m.payload|
  {
    WireParts(m);
  }

  /** The topic is read back, and the reader stands behind it. */
  lemma {:induction false} ParseTopic(m: Message, rest: seq<Byte>)
    requires Sendable(m)
    ensures var b, tail := Wire(m) + rest, IdField(m) + m.payload;
            var q := |Head(m)| + 2 + |TopicText(m.topic)|;
            && q + |tail| <= |b| && b[q..q + |tail|] == tail && b[0] == HeaderByte(m)
            && ParsePublish(b) == ParseTail(b, q, q + |tail|, TopicText(m.topic))
  {
    ParseWire(m, rest);
    WireIs(m, rest);
    BodyFound(Wire(m) + rest, Head(m), TopicText(m.topic), IdField(m) + m.payload, rest);
  }

  lemma {:induction false} BodyFound(b: seq<Byte>, head: seq<Byte>, text: seq<Byte>, tail: seq<Byte>, rest: seq<Byte>)
    requires 0 < |head| && |text| < 0x10000 && b == head + Int2(|text|) + text + tail + rest
    ensures var q := |head| + 2 + |text|;
            && q + |tail| <= |b| && b[q..q + |tail|] == tail && b[0] == head[0]
            && ParseBody(b, |head| - 1, 2 + |text| + |tail|) == ParseTail(b, q, q + |tail|, text)
  {
    BodyIs(head, text, tail, rest);
    BodyParses(head, text, tail, rest);
  }

  /** What stands behind the topic, from `q` up to `end`, when there is a packet identifier and the header says so. */
  lemma {:induction false} TailWithId(b: seq<Byte>, q: nat, end: nat, id: nat, payload: seq<Byte>, topic: seq<Byte>)
    requires q <= end <= |b| && 0 < |b| && b[q..end] == Int2(id) + payload && id < 0x10000 && FlagsOf(b[0]).qos > 0
    ensures ParseTail(b, q, end, topic) == Got(FlagsOf(b[0]), Id(id), topic, payload)
  {
    var tail := b[q..end];
    assert b[q] == tail[0] && b[q + 1] == tail[1];
    assert b[q + 2..end] == tail[2..];
  }

  /** The same when the header says that there is none. */
  lemma {:induction false} TailWithoutId(b: seq<Byte>, q: nat, end: nat, topic: seq<Byte>)
    requires q <= end <= |b| && 0 < |b| && FlagsOf(b[0]).qos == 0
    ensures ParseTail(b, q, end, topic) == Got(FlagsOf(b[0]), NoId, topic, b[q..end])
  {
  }

  /** Deserialising undoes serialising if and only if the quality of service and its two header bits agree on
      whether there is a packet identifier; they do for every quality of service from 0 to 3. */
  lemma {:induction false} PublishRoundTrip(m: Message, rest: seq<Byte>)
    requires Sendable(m)
    ensures ParsePublish(Wire(m) + rest) == Expected(m) <==> (m.qos > 0 <==> m.qos % 4 > 0)
    ensures 0 <= m.qos <= 3 ==> ParsePublish(Wire(m) + rest) == Expected(m)
  {
    ParseTopic(m, rest);
    HeaderBits(m);
    var b, topic := Wire(m) + rest, TopicText(m.topic);
    var q := |Head(m)| + 2 + |topic|;
    var end := q + |IdField(m) + m.payload|;
    if m.qos % 4 == 0 {
      TailWithoutId(b, q, end, topic);
      assert m.qos <= 0 ==> IdField(m) + m.payload == m.payload;
    } else if m.qos > 0 {
      TailWithId(b, q, end, m.id, m.payload, topic);
    } else {
      assert ParseTail(b, q, end, topic).Got? ==> ParseTail(b, q, end, topic).id != NoId;
    }
  }

  /** The failure code is the size of the length field, so a packet too short for a topic is reported as a
      success exactly when that field is one byte long. */
  lemma {:induction false} FailureLooksLikeSuccess(b: seq<Byte>)
    requires ParsePublish(b).Refused? && b != [] && b[0] / 16 == PUBLISH
    ensures Code(ParsePublish(b)) == 1 <==> FieldAt(b[1..], 0) == Field(1)
  {
    ParseParts(b);
    var len := FieldAt(b[1..], 0).len;
    BodyCases(b, len, FieldValue(b[1..], len));
  }

  lemma {:induction false} EmptyPublishReportsSuccess()
    ensures ParsePublish([0x30, 0x00]) == Refused(1) && Code(ParsePublish([0x30, 0x00])) == 1
  {
    var b: seq<Byte> := [0x30, 0x00];
    ParseParts(b);
    assert b[1..] == [0x00];
    assert FieldAt(b[1..], 0) == Field(1);
    assert b[1..][..1] == [0x00] && [0x00][1..] == [];
    assert FieldValue(b[1..], 1) == 0;
    BodyCases(b, 1, 0);
  }

  /** readMQTTLenString and what follows it, with the read pointer at `p`. */
  method ReadBody(b: seq<Byte>, p: nat, n: nat, len: nat) returns (r: Received)
    requires 0 < |b| && p == 1 + len
    ensures r == ParseBody(b, len, n)
  {
    BodyCases(b, len, n);
    var end := p + n;
    if end - p <= 1 {
      return Refused(len);
    }
    if p + 2 > |b| {
      return Overrun;
    }
    var size := ReadInt(b, p);
    var cur := p + 2;
    if cur + size > end {
      return Refused(len);
    }
    if cur + size > |b| {
      return Overrun;
    }
    var topic := b[cur..cur + size];
    cur := cur + size;
    var id := NoId;
    var flags := FlagsOf(b[0]);
    if flags.qos > 0 {
      if cur + 2 > |b| {
        return Overrun;
      }
      id := Id(ReadInt(b, cur));
      cur := cur + 2;
    }
    if end < cur {
      return Negative(end - cur);
    }
    if end > |b| {
      return Overrun;
    }
    r := Got(flags, id, topic, b[cur..end]);
  }

  /** MQTTDeserialize_publish. */
  method DeserializePublish(b: seq<Byte>) returns (r: Received)
    ensures r == ParsePublish(b)
  {
    ParseParts(b);
    if b == [] {
      return Overrun;
    }
    if b[0] / 16 != PUBLISH {
      return Refused(0);
    }
    var field, n := DecodeLength(b[1..]);
    if field.Cut? {
      return Overrun;
    }
    r := ReadBody(b, 1 + field.len, n, field.len);
  }

  /** A message through both ends. */
  method SendAndReceive(buf: array<Byte>, m: Message) returns (rc: int, r: Received)
    requires Sendable(m) && 0 <= m.qos <= 3
    modifies buf
    ensures PacketLen(Remaining(m)) <= buf.Length ==> rc == |Wire(m)| && r == Expected(m)
  {
    rc := SerializePublish(buf, buf.Length, m);
    r := Overrun;
    if rc >= 0 {
      PublishRoundTrip(m, buf[rc..]);
      assert buf[..] == buf[..rc] + buf[rc..];
      r := DeserializePublish(buf[..]);
    }
  }

  // ---- acknowledgements

  /** MQTTSerialize_ack as bytes: only PUBREL has a quality of service bit. */
  function AckWire(kind: Byte, dup: Byte, id: nat): seq<Byte> {
    [16 * (kind % 16) + 8 * (dup % 2) + if kind == PUBREL then 2 else 0] + Encode(2) + Int2(id)
  }

  /** MQTTSerialize_ack. */
  method SerializeAck(buf: array<Byte>, buflen: nat, kind: Byte, dup: Byte, id: nat) returns (rc: int)
    requires buflen <= buf.Length && id < 0x10000
    modifies buf
    ensures if buflen < 4 then rc == BUFFER_TOO_SHORT && buf[..] == old(buf[..])
            else rc == 4 && buf[..4] == AckWire(kind, dup, id) && buf[4..] == old(buf[4..])
  {
    if buflen < 4 {
      return BUFFER_TOO_SHORT;
    }
    ghost var was := buf[..];
    var head: Byte := 16 * (kind % 16) + 8 * (dup % 2) + if kind == PUBREL then 2 else 0;
    var p := PutByte(buf, 0, head);
    SpliceBoth(was, 0, [head], Encode(2));
    SpliceBoth(was, 0, [head] + Encode(2), Int2(id));
    p := PutLength(buf, p, 2);
    p := PutInt(buf, p, id);
    rc := p;
    SpliceIs(was, 0, AckWire(kind, dup, id));
  }

  datatype AckReceived = AckOverrun | AckRefused(code: nat) | GotAck(kind: nat, dup: nat, id: nat)

  function ParseAck(b: seq<Byte>): AckReceived {
    if b == [] then AckOverrun
    else
      match FieldAt(b[1..], 0)
      case Cut => AckOverrun
      case Field(len) =>
        if FieldValue(b[1..], len) < 2 then AckRefused(len)
        else if 1 + len + 2 > |b| then AckOverrun
        else GotAck(b[0] / 16, b[0] / 8 % 2, ReadInt(b, 1 + len))
  }

  /** MQTTDeserialize_ack. */
  method DeserializeAck(b: seq<Byte>) returns (r: AckReceived)
    ensures r == ParseAck(b)
  {
    if b == [] {
      return AckOverrun;
    }
    var field, n := DecodeLength(b[1..]);
    if field.Cut? {
      return AckOverrun;
    }
    if n < 2 {
      return AckRefused(field.len);
    }
    if 1 + field.len + 2 > |b| {
      return AckOverrun;
    }
    r := GotAck(b[0] / 16, b[0] / 8 % 2, ReadInt(b, 1 + field.len));
  }

  /** The return code, if it comes to one; 1 is documented to mean success. */
  function AckCode(r: AckReceived): nat {
    if r.AckRefused? then r.code else 1
  }

  /** Here too the failure code is the size of the length field: an acknowledgement too short for a packet
      identifier is reported as a success exactly when the byte after the header is 0 or 1. */
  lemma {:induction false} AckFailureLooksLikeSuccess(b: seq<Byte>)
    ensures ParseAck(b).AckRefused? && AckCode(ParseAck(b)) == 1 <==> |b| >= 2 && b[1] < 2
  {
    if |b| >= 2 {
      OneByteField(b[1..]);
    }
  }

  lemma {:induction false} OneByteField(s: seq<Byte>)
    requires s != []
    ensures FieldAt(s, 0) == Field(1) <==> s[0] < 128
    ensures s[0] < 128 ==> FieldValue(s, 1) == s[0] as nat
  {
    var one := s[..1];
    assert one[0] == s[0] && one[1..] == [];
    assert ValueOf(one) == s[0] % 128 + 128 * ValueOf(one[1..]);
  }

  /** The two bytes 40 00, an acknowledgement without an identifier. */
  lemma {:induction false} EmptyAckReportsSuccess()
    ensures ParseAck([0x40, 0x00]) == AckRefused(1) && AckCode(ParseAck([0x40, 0x00])) == 1
  {
    AckFailureLooksLikeSuccess([0x40, 0x00]);
  }

  lemma {:induction false} AckRoundTrip(kind: Byte, dup: Byte, id: nat, rest: seq<Byte>)
    requires id < 0x10000
    ensures ParseAck(AckWire(kind, dup, id) + rest) == GotAck(kind % 16, dup % 2, id)
  {
    var b := AckWire(kind, dup, id) + rest;
    LengthRoundTrip(2, Int2(id) + rest);
    assert b[1..] == Encode(2) + (Int2(id) + rest);
    IntRoundTrip(id, b[..2], rest);
    assert b == b[..2] + Int2(id) + rest;
  }
}
