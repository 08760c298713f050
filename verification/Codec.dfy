/** The byte form of overlay messages: message bodies to any depth, transport messages, and batches of them. */
module Codec {
  import opened Bytes
  import opened Contributions
  import opened NumberTheory
  import opened Results

  type Int32 = x: int | -0x8000_0000 <= x < 0x8000_0000

  const SIGNATURE_SIZE: nat := 256

  /** How the deployment's record type is written, measured and read. */
  datatype RecordCodec = RecordCodec(encode: Record -> seq<Byte>, size: Record -> nat, decode: seq<Byte> -> Record) {
    ghost predicate ReadsBack(r: Record, s: seq<Byte>) {
      encode(r) <= s ==> decode(s) == r
    }

    ghost predicate Measures(r: Record) {
      size(r) == |encode(r)|
    }

    ghost predicate Lawful() {
      (forall r, s :: ReadsBack(r, s)) && (forall r :: Measures(r))
    }
  }

  datatype Envelope =
    Envelope(queryNum: Int32, destination: Int32, isEncrypted: bool, flood: bool, enclosed: Option<Body>)

  datatype Body =
    | Overlay(envelope: Envelope)
    | PathOverlay(remainingPath: seq<Int32>, envelope: Envelope)
    | ValueContribution(queryNum: Int32, value: Record, proxies: seq<Int32>, signature: seq<Byte>)
    | AggregationValue(value: Record)
    | ByteBody(bytes: seq<Byte>)

  datatype Transport = Transport(senderRound: Int32, isFinal: bool, sender: Int32, body: Body)

  /** What one node sends to another. */
  datatype Message =
    | OverlayTransport(transport: Transport)
    | Ping(sender: Int32, isResponse: bool)
    | Aggregation(contributors: Int32, queryNum: Int32, sender: Int32, value: Record)

  /** Lists short enough for their count field, signatures of the fixed length, at every depth. */
  predicate WellFormed(b: Body)
    decreases b
  {
    match b
    case Overlay(e) => EnvelopeWellFormed(e)
    case PathOverlay(path, e) => |path| < 0x8000_0000 && EnvelopeWellFormed(e)
    case ValueContribution(_, _, proxies, signature) => |proxies| < 0x8000_0000 && |signature| == SIGNATURE_SIZE
    case AggregationValue(_) => true
    case ByteBody(bytes) => |bytes| < 0x8000_0000
  }

  predicate EnvelopeWellFormed(e: Envelope)
    decreases e
  {
    e.enclosed.None? || WellFormed(e.enclosed.value)
  }

  predicate TransportWellFormed(t: Transport) {
    (t.body.Overlay? || t.body.PathOverlay?) && WellFormed(t.body)
  }

  predicate MessageWellFormed(m: Message) {
    m.OverlayTransport? ==> TransportWellFormed(m.transport)
  }

  // ----- The bytes of each part -----

  function IntBytes(x: Int32): (s: seq<Byte>)
    ensures |s| == 4
  {
    Little(if x < 0 then x + 0x1_0000_0000 else x, 4)
  }

  function CountBytes(n: nat): (s: seq<Byte>)
    ensures |s| == 4
  {
    Little(n % 0x1_0000_0000, 4)
  }

  function BoolBytes(b: bool): (s: seq<Byte>)
    ensures |s| == 1
  {
    if b then [1] else [0]
  }

  function IntsBytes(xs: seq<Int32>): (s: seq<Byte>)
    ensures |s| == 4 * |xs|
  {
    if xs == [] then [] else IntBytes(xs[0]) + IntsBytes(xs[1..])
  }

  function ListBytes(xs: seq<Int32>): (s: seq<Byte>)
    ensures |s| == 4 + 4 * |xs|
  {
    CountBytes(|xs|) + IntsBytes(xs)
  }

  function Tag(b: Body): nat {
    match b
    case Overlay(_) => 0
    case PathOverlay(_, _) => 1
    case ValueContribution(_, _, _, _) => 4
    case AggregationValue(_) => 5
    case ByteBody(_) => 6
  }

  function BodyBytes(c: RecordCodec, b: Body): seq<Byte>
    decreases b, 1
  {
    Little(Tag(b), 2) + FieldBytes(c, b)
  }

  function FieldBytes(c: RecordCodec, b: Body): seq<Byte>
    decreases b, 0
  {
    match b
    case Overlay(e) => EnvelopeBytes(c, e)
    case PathOverlay(path, e) => ListBytes(path) + EnvelopeBytes(c, e)
    case ValueContribution(q, v, proxies, signature) =>
      IntBytes(q) + (c.encode(v) + (ListBytes(proxies) + signature))
    case AggregationValue(v) => c.encode(v)
    case ByteBody(bytes) => CountBytes(|bytes|) + bytes
  }

  function HeaderBytes(e: Envelope): (s: seq<Byte>)
    ensures |s| == 10
  {
    IntBytes(e.queryNum) + (IntBytes(e.destination) + (BoolBytes(e.isEncrypted) + BoolBytes(e.flood)))
  }

  function EnvelopeBytes(c: RecordCodec, e: Envelope): seq<Byte>
    decreases e, 1
  {
    HeaderBytes(e) + EnclosedBytes(c, e)
  }

  function EnclosedBytes(c: RecordCodec, e: Envelope): seq<Byte>
    decreases e, 0
  {
    BoolBytes(e.enclosed.Some?) + (if e.enclosed.Some? then BodyBytes(c, e.enclosed.value) else [])
  }

  /** Message type 0, the sender's round, whether this is its last message for the round, and the sender. */
  function TransportHeader(t: Transport): (s: seq<Byte>)
    ensures |s| == 11
  {
    Little(0, 2) + (IntBytes(t.senderRound) + (BoolBytes(t.isFinal) + IntBytes(t.sender)))
  }

  function TransportBytes(c: RecordCodec, t: Transport): seq<Byte> {
    TransportHeader(t) + BodyBytes(c, t.body)
  }

  /** Message type 1, the sender, and whether this answers a ping. */
  function PingBytes(sender: Int32, isResponse: bool): (s: seq<Byte>)
    ensures |s| == 7
  {
    Little(1, 2) + (IntBytes(sender) + BoolBytes(isResponse))
  }

  /** Message type 2, the number of contributors, the query and the sender. */
  function AggregationHeader(contributors: Int32, queryNum: Int32, sender: Int32): (s: seq<Byte>)
    ensures |s| == 14
  {
    Little(2, 2) + (IntBytes(contributors) + (IntBytes(queryNum) + IntBytes(sender)))
  }

  function MessageBytes(c: RecordCodec, m: Message): seq<Byte> {
    match m
    case OverlayTransport(t) => TransportBytes(c, t)
    case Ping(sender, isResponse) => PingBytes(sender, isResponse)
    case Aggregation(contributors, queryNum, sender, value) =>
      AggregationHeader(contributors, queryNum, sender) + BodyBytes(c, AggregationValue(value))
  }

  function AllBytes(c: RecordCodec, ms: seq<Message>): seq<Byte> {
    if ms == [] then [] else MessageBytes(c, ms[0]) + AllBytes(c, ms[1..])
  }

  /** A batch: the number of messages in eight bytes, then the messages. */
  function BatchBytes(c: RecordCodec, ms: seq<Message>): seq<Byte> {
    Little(|ms|, 8) + AllBytes(c, ms)
  }

  // ----- Sizes -----

  function BodySize(c: RecordCodec, b: Body): nat
    decreases b, 0
  {
    match b
    case Overlay(e) => EnvelopeSize(c, e)
    case PathOverlay(path, e) => EnvelopeSize(c, e) + (4 * |path| + 4)
    case ValueContribution(_, v, proxies, signature) => 2 + (4 + c.size(v) + (4 * |proxies| + 4)) + |signature|
    case AggregationValue(v) => 2 + c.size(v)
    case ByteBody(bytes) => 2 + (|bytes| + 4)
  }

  /** The size of an overlay message with this envelope, its type included. */
  function EnvelopeSize(c: RecordCodec, e: Envelope): nat
    decreases e
  {
    2 + 4 + 4 + 1 + 1 + 1 + (if e.enclosed.None? then 0 else BodySize(c, e.enclosed.value))
  }

  function TransportSize(c: RecordCodec, t: Transport): nat {
    2 + 4 + 1 + (4 + BodySize(c, t.body))
  }

  function MessageSize(c: RecordCodec, m: Message): nat {
    match m
    case OverlayTransport(t) => TransportSize(c, t)
    case Ping(_, _) => 2 + 4 + 1
    case Aggregation(_, _, _, value) => 2 + 4 + 4 + (4 + BodySize(c, AggregationValue(value)))
  }

  /** The size computed ahead is the number of bytes written. */
  lemma {:induction false} SizeIsLength(c: RecordCodec, b: Body)
    requires c.Lawful()
    ensures |BodyBytes(c, b)| == BodySize(c, b)
    decreases b
  {
    match b
    case Overlay(e) => EnvelopeSizeIsLength(c, e);
    case PathOverlay(_, e) => EnvelopeSizeIsLength(c, e);
    case ValueContribution(_, v, _, _) => assert c.Measures(v);
    case AggregationValue(v) => assert c.Measures(v);
    case ByteBody(_) =>
  }

  lemma {:induction false} EnvelopeSizeIsLength(c: RecordCodec, e: Envelope)
    requires c.Lawful()
    ensures 2 + |EnvelopeBytes(c, e)| == EnvelopeSize(c, e)
    decreases e
  {
    if e.enclosed.Some? {
      SizeIsLength(c, e.enclosed.value);
    }
  }

  lemma TransportSizeIsLength(c: RecordCodec, t: Transport)
    requires c.Lawful()
    ensures |TransportBytes(c, t)| == TransportSize(c, t)
  {
    SizeIsLength(c, t.body);
  }

  lemma MessageSizeIsLength(c: RecordCodec, m: Message)
    requires c.Lawful()
    ensures |MessageBytes(c, m)| == MessageSize(c, m)
  {
    match m
    case OverlayTransport(t) => TransportSizeIsLength(c, t);
    case Ping(_, _) =>
    case Aggregation(_, _, _, value) => SizeIsLength(c, AggregationValue(value));
  }

  // ----- Bytes at a place in a buffer -----

  /** These bytes stand in the buffer at this offset. */
  ghost predicate At(buffer: seq<Byte>, at: nat, s: seq<Byte>) {
    at <= |buffer| && s <= buffer[at..]
  }

  lemma Peel(buffer: seq<Byte>, at: nat, a: seq<Byte>, b: seq<Byte>)
    requires At(buffer, at, a + b)
    ensures At(buffer, at, a) && At(buffer, at + |a|, b)
    ensures at + |a| + |b| <= |buffer| && buffer[at..at + |a|] == a
  {
    var s := buffer[at..];
    assert s[..|a + b|] == a + b;
    assert a == s[..|a|];
    assert buffer[at + |a|..] == s[|a|..];
    assert b == s[|a|..][..|b|];
  }

  /** The buffer with these bytes written over it, one after the other from an offset on. */
  function Overwrite(buffer: seq<Byte>, at: nat, s: seq<Byte>): (r: seq<Byte>)
    requires at + |s| <= |buffer|
    ensures |r| == |buffer|
    decreases |s|
  {
    if s == [] then buffer else Overwrite(buffer, at, s[..|s| - 1])[at + |s| - 1 := s[|s| - 1]]
  }

  /** Nothing outside the written range changes. */
  lemma {:induction false} OverwriteIs(buffer: seq<Byte>, at: nat, s: seq<Byte>)
    requires at + |s| <= |buffer|
    ensures Overwrite(buffer, at, s) == buffer[..at] + s + buffer[at + |s|..]
    decreases |s|
  {
    if s != [] {
      OverwriteIs(buffer, at, s[..|s| - 1]);
    }
  }

  lemma OverwriteAll(buffer: seq<Byte>, s: seq<Byte>)
    requires |s| == |buffer|
    ensures Overwrite(buffer, 0, s) == s
  {
    OverwriteIs(buffer, 0, s);
  }

  lemma {:induction false} OverwriteTwice(buffer: seq<Byte>, at: nat, a: seq<Byte>, b: seq<Byte>)
    requires at + |a| + |b| <= |buffer|
    ensures Overwrite(Overwrite(buffer, at, a), at + |a|, b) == Overwrite(buffer, at, a + b)
    decreases |b|
  {
    if b == [] {
      assert a + b == a;
    } else {
      OverwriteTwice(buffer, at, a, b[..|b| - 1]);
      assert (a + b)[..|a + b| - 1] == a + b[..|b| - 1];
    }
  }

  // ----- Writing -----

  method WriteBytes(s: seq<Byte>, buffer: array<Byte>, at: nat) returns (written: nat)
    requires at + |s| <= buffer.Length
    modifies buffer
    ensures written == |s| && buffer[..] == Overwrite(old(buffer[..]), at, s)
  {
    var i := 0;
    while i < |s|
      invariant 0 <= i <= |s| && buffer[..] == Overwrite(old(buffer[..]), at, s[..i])
    {
      buffer[at + i] := s[i];
      assert s[..i + 1][..i] == s[..i];
      i := i + 1;
    }
    assert s[..|s|] == s;
    written := |s|;
  }

  /** Writes t behind what has been written so far: s, from offset at on, over the buffer's first contents. */
  method Append(t: seq<Byte>, buffer: array<Byte>, at: nat, ghost was: seq<Byte>, ghost s: seq<Byte>, written: nat)
    returns (total: nat)
    requires |was| == buffer.Length && written == |s| && at + |s| + |t| <= buffer.Length
    requires buffer[..] == Overwrite(was, at, s)
    modifies buffer
    ensures total == |s + t| && buffer[..] == Overwrite(was, at, s + t)
  {
    var w := WriteBytes(t, buffer, at + written);
    OverwriteTwice(was, at, s, t);
    total := written + w;
  }

  lemma ConcatRegroup(a: seq<Byte>, b: seq<Byte>, c: seq<Byte>)
    ensures a + (b + c) == a + b + c
  {
  }

  lemma {:induction false} IntsBytesAppend(xs: seq<Int32>, i: nat)
    requires i < |xs|
    ensures IntsBytes(xs[..i + 1]) == IntsBytes(xs[..i]) + IntBytes(xs[i])
    decreases i
  {
    if i == 0 {
      assert xs[..1] == [xs[0]] && xs[..1][1..] == [];
    } else {
      IntsBytesAppend(xs[1..], i - 1);
      assert xs[..i + 1][1..] == xs[1..][..i] && xs[..i][1..] == xs[1..][..i - 1];
    }
  }

  method WriteInts(xs: seq<Int32>, buffer: array<Byte>, at: nat) returns (written: nat)
    requires at + 4 + 4 * |xs| <= buffer.Length
    modifies buffer
    ensures written == |ListBytes(xs)| && buffer[..] == Overwrite(old(buffer[..]), at, ListBytes(xs))
  {
    ghost var was := buffer[..];
    written := WriteBytes(CountBytes(|xs|), buffer, at);
    ghost var s := CountBytes(|xs|);
    var i := 0;
    while i < |xs|
      invariant 0 <= i <= |xs| && written == |s| == 4 + 4 * i && s == CountBytes(|xs|) + IntsBytes(xs[..i])
      invariant buffer[..] == Overwrite(was, at, s)
    {
      written := Append(IntBytes(xs[i]), buffer, at, was, s, written);
      s := s + IntBytes(xs[i]);
      IntsBytesAppend(xs, i);
      ConcatRegroup(CountBytes(|xs|), IntsBytes(xs[..i]), IntBytes(xs[i]));
      i := i + 1;
    }
    assert xs[..|xs|] == xs;
  }

  method WriteBody(c: RecordCodec, b: Body, buffer: array<Byte>, at: nat) returns (written: nat)
    requires c.Lawful() && at + |BodyBytes(c, b)| <= buffer.Length
    modifies buffer
    ensures written == BodySize(c, b) && buffer[..] == Overwrite(old(buffer[..]), at, BodyBytes(c, b))
    decreases b, 1
  {
    SizeIsLength(c, b);
    written := WriteBytes(Little(Tag(b), 2), buffer, at);
    var w := WriteFields(c, b, buffer, at + written);
    OverwriteTwice(old(buffer[..]), at, Little(Tag(b), 2), FieldBytes(c, b));
    written := written + w;
  }

  method WriteByteBody(bytes: seq<Byte>, buffer: array<Byte>, at: nat) returns (written: nat)
    requires at + 4 + |bytes| <= buffer.Length
    modifies buffer
    ensures written == 4 + |bytes| && buffer[..] == Overwrite(old(buffer[..]), at, CountBytes(|bytes|) + bytes)
  {
    ghost var was := buffer[..];
    written := WriteBytes(CountBytes(|bytes|), buffer, at);
    written := Append(bytes, buffer, at, was, CountBytes(|bytes|), written);
  }

  lemma FourParts(a: seq<Byte>, b: seq<Byte>, c: seq<Byte>, d: seq<Byte>)
    ensures a + b + c + d == a + (b + (c + d))
  {
  }

  method WriteContribution(c: RecordCodec, q: Int32, v: Record, proxies: seq<Int32>, signature: seq<Byte>,
                           buffer: array<Byte>, at: nat) returns (written: nat)
    requires at + |FieldBytes(c, ValueContribution(q, v, proxies, signature))| <= buffer.Length
    modifies buffer
    ensures var s := FieldBytes(c, ValueContribution(q, v, proxies, signature));
            written == |s| && buffer[..] == Overwrite(old(buffer[..]), at, s)
  {
    ghost var was := buffer[..];
    written := WriteBytes(IntBytes(q), buffer, at);
    written := Append(c.encode(v), buffer, at, was, IntBytes(q), written);
    var w := WriteInts(proxies, buffer, at + written);
    OverwriteTwice(was, at, IntBytes(q) + c.encode(v), ListBytes(proxies));
    ghost var s := IntBytes(q) + c.encode(v) + ListBytes(proxies);
    written := Append(signature, buffer, at, was, s, written + w);
    FourParts(IntBytes(q), c.encode(v), ListBytes(proxies), signature);
  }

  method WriteFields(c: RecordCodec, b: Body, buffer: array<Byte>, at: nat) returns (written: nat)
    requires c.Lawful() && at + |FieldBytes(c, b)| <= buffer.Length
    modifies buffer
    ensures written == |FieldBytes(c, b)| && buffer[..] == Overwrite(old(buffer[..]), at, FieldBytes(c, b))
    decreases b, 0
  {
    match b
    case Overlay(e) =>
      written := WriteEnvelope(c, e, buffer, at);
    case PathOverlay(path, e) =>
      written := WritePath(c, path, e, buffer, at);
    case ValueContribution(q, v, proxies, signature) =>
      written := WriteContribution(c, q, v, proxies, signature, buffer, at);
    case AggregationValue(v) =>
      written := WriteBytes(c.encode(v), buffer, at);
    case ByteBody(bytes) =>
      written := WriteByteBody(bytes, buffer, at);
  }

  method WritePath(c: RecordCodec, path: seq<Int32>, e: Envelope, buffer: array<Byte>, at: nat) returns (written: nat)
    requires c.Lawful() && at + |ListBytes(path)| + |EnvelopeBytes(c, e)| <= buffer.Length
    modifies buffer
    ensures var s := ListBytes(path) + EnvelopeBytes(c, e);
            written == |s| && buffer[..] == Overwrite(old(buffer[..]), at, s)
    decreases e, 2
  {
    written := WriteInts(path, buffer, at);
    var w := WriteEnvelope(c, e, buffer, at + written);
    OverwriteTwice(old(buffer[..]), at, ListBytes(path), EnvelopeBytes(c, e));
    written := written + w;
  }

  method WriteHeader(e: Envelope, buffer: array<Byte>, at: nat) returns (written: nat)
    requires at + 10 <= buffer.Length
    modifies buffer
    ensures written == 10 && buffer[..] == Overwrite(old(buffer[..]), at, HeaderBytes(e))
  {
    ghost var was := buffer[..];
    ghost var s := IntBytes(e.queryNum);
    written := WriteBytes(IntBytes(e.queryNum), buffer, at);
    written := Append(IntBytes(e.destination), buffer, at, was, s, written);
    s := s + IntBytes(e.destination);
    written := Append(BoolBytes(e.isEncrypted), buffer, at, was, s, written);
    s := s + BoolBytes(e.isEncrypted);
    written := Append(BoolBytes(e.flood), buffer, at, was, s, written);
    s := s + BoolBytes(e.flood);
    assert s == HeaderBytes(e);
  }

  method WriteEnvelope(c: RecordCodec, e: Envelope, buffer: array<Byte>, at: nat) returns (written: nat)
    requires c.Lawful() && at + |EnvelopeBytes(c, e)| <= buffer.Length
    modifies buffer
    ensures written == |EnvelopeBytes(c, e)| && buffer[..] == Overwrite(old(buffer[..]), at, EnvelopeBytes(c, e))
    decreases e, 1
  {
    written := WriteHeader(e, buffer, at);
    var w := WriteEnclosed(c, e, buffer, at + written);
    OverwriteTwice(old(buffer[..]), at, HeaderBytes(e), EnclosedBytes(c, e));
    written := written + w;
  }

  method WriteEnclosed(c: RecordCodec, e: Envelope, buffer: array<Byte>, at: nat) returns (written: nat)
    requires c.Lawful() && at + |EnclosedBytes(c, e)| <= buffer.Length
    modifies buffer
    ensures written == |EnclosedBytes(c, e)| && buffer[..] == Overwrite(old(buffer[..]), at, EnclosedBytes(c, e))
    decreases e, 0
  {
    var remainingBody := e.enclosed.Some?;
    written := WriteBytes(BoolBytes(remainingBody), buffer, at);
    if remainingBody {
      var w := WriteBody(c, e.enclosed.value, buffer, at + written);
      SizeIsLength(c, e.enclosed.value);
      OverwriteTwice(old(buffer[..]), at, BoolBytes(remainingBody), BodyBytes(c, e.enclosed.value));
      written := written + w;
    } else {
      assert EnclosedBytes(c, e) == BoolBytes(remainingBody);
    }
  }

  // ----- Reading; the ghost argument is the value whose bytes stand there -----

  lemma Powers()
    ensures Pow(256, 2) == 0x1_0000 && Pow(256, 4) == 0x1_0000_0000 && Pow(256, 8) == 0x1_0000_0000_0000_0000
  {
    assert Pow(256, 2) == 256 * Pow(256, 1) && Pow(256, 1) == 256 * Pow(256, 0);
    PowAdd(256, 2, 2);
    PowAdd(256, 4, 4);
  }

  method ReadInt(buffer: seq<Byte>, at: nat, ghost x: Int32) returns (r: Int32)
    requires At(buffer, at, IntBytes(x))
    ensures r == x
  {
    Powers();
    FromLittleLittle(if x < 0 then x + 0x1_0000_0000 else x, 4);
    assert buffer[at..at + 4] == buffer[at..][..4] == IntBytes(x);
    var v: int := FromLittle(buffer[at..at + 4]);
    r := if v >= 0x8000_0000 then v - 0x1_0000_0000 else v;
  }

  method ReadNat(buffer: seq<Byte>, at: nat, size: nat, ghost x: nat) returns (r: nat)
    requires At(buffer, at, Little(x, size)) && x < Pow(256, size)
    ensures r == x
  {
    FromLittleLittle(x, size);
    assert buffer[at..at + size] == buffer[at..][..size] == Little(x, size);
    r := FromLittle(buffer[at..at + size]);
  }

  method ReadBool(buffer: seq<Byte>, at: nat, ghost x: bool) returns (r: bool)
    requires At(buffer, at, BoolBytes(x))
    ensures r == x
  {
    assert buffer[at] == buffer[at..][0];
    r := buffer[at] != 0;
  }

  lemma CountFits(n: nat)
    requires n < 0x8000_0000
    ensures CountBytes(n) == Little(n, 4)
  {
    DivModIs(n, 0, n, 0x1_0000_0000);
  }

  method ReadCount(buffer: seq<Byte>, at: nat, ghost n: nat) returns (r: nat)
    requires At(buffer, at, CountBytes(n)) && n < 0x8000_0000
    ensures r == n
  {
    Powers();
    CountFits(n);
    r := ReadNat(buffer, at, 4, n);
  }

  method ReadInts(buffer: seq<Byte>, at: nat, ghost xs: seq<Int32>) returns (r: seq<Int32>)
    requires At(buffer, at, ListBytes(xs)) && |xs| < 0x8000_0000
    ensures r == xs
  {
    Peel(buffer, at, CountBytes(|xs|), IntsBytes(xs));
    var size := ReadCount(buffer, at, |xs|);
    var pos := at + 4;
    r := [];
    while |r| < size
      invariant |r| <= size && r == xs[..|r|] && pos == at + 4 + 4 * |r| && At(buffer, pos, IntsBytes(xs[|r|..]))
    {
      Peel(buffer, pos, IntBytes(xs[|r|]), IntsBytes(xs[|r| + 1..]));
      assert xs[|r|..][1..] == xs[|r| + 1..];
      var item := ReadInt(buffer, pos, xs[|r|]);
      pos := pos + 4;
      r := r + [item];
    }
  }

  method ReadByteBody(c: RecordCodec, buffer: seq<Byte>, at: nat, ghost b: Body) returns (r: Body)
    requires b.ByteBody? && WellFormed(b) && At(buffer, at, FieldBytes(c, b))
    ensures r == b
  {
    Peel(buffer, at, CountBytes(|b.bytes|), b.bytes);
    var size := ReadCount(buffer, at, |b.bytes|);
    Peel(buffer, at + 4, b.bytes, []);
    r := ByteBody(buffer[at + 4..at + 4 + size]);
  }

  method ReadContribution(c: RecordCodec, buffer: seq<Byte>, at: nat, ghost b: Body) returns (r: Body)
    requires c.Lawful() && b.ValueContribution? && WellFormed(b) && At(buffer, at, FieldBytes(c, b))
    ensures r == b
  {
    ghost var afterProxies := b.signature;
    ghost var afterValue := ListBytes(b.proxies) + afterProxies;
    Peel(buffer, at, IntBytes(b.queryNum), c.encode(b.value) + afterValue);
    Peel(buffer, at + 4, c.encode(b.value), afterValue);
    assert c.Measures(b.value) && c.ReadsBack(b.value, buffer[at + 4..]);
    var queryNum := ReadInt(buffer, at, b.queryNum);
    var value := c.decode(buffer[at + 4..]);
    var pos := at + 4 + c.size(value);
    Peel(buffer, pos, ListBytes(b.proxies), afterProxies);
    var proxies := ReadInts(buffer, pos, b.proxies);
    pos := pos + (4 * |proxies| + 4);
    assert b.signature == b.signature + [];
    Peel(buffer, pos, b.signature, []);
    r := ValueContribution(queryNum, value, proxies, buffer[pos..pos + SIGNATURE_SIZE]);
  }

  method ReadBody(c: RecordCodec, buffer: seq<Byte>, at: nat, ghost b: Body) returns (r: Body)
    requires c.Lawful() && WellFormed(b) && At(buffer, at, BodyBytes(c, b))
    ensures r == b
    decreases b, 1
  {
    Powers();
    Peel(buffer, at, Little(Tag(b), 2), FieldBytes(c, b));
    var tag := ReadNat(buffer, at, 2, Tag(b));
    if tag == 0 {
      var e := ReadEnvelope(c, buffer, at + 2, b.envelope);
      r := Overlay(e);
    } else if tag == 1 {
      Peel(buffer, at + 2, ListBytes(b.remainingPath), EnvelopeBytes(c, b.envelope));
      var path := ReadInts(buffer, at + 2, b.remainingPath);
      var e := ReadEnvelope(c, buffer, at + 2 + (4 * |path| + 4), b.envelope);
      r := PathOverlay(path, e);
    } else if tag == 4 {
      r := ReadContribution(c, buffer, at + 2, b);
    } else if tag == 5 {
      assert c.ReadsBack(b.value, buffer[at + 2..]);
      r := AggregationValue(c.decode(buffer[at + 2..]));
    } else {
      r := ReadByteBody(c, buffer, at + 2, b);
    }
  }

  method ReadEnvelope(c: RecordCodec, buffer: seq<Byte>, at: nat, ghost e: Envelope) returns (r: Envelope)
    requires c.Lawful() && EnvelopeWellFormed(e) && At(buffer, at, EnvelopeBytes(c, e))
    ensures r == e
    decreases e
  {
    ghost var s2 := BoolBytes(e.isEncrypted) + BoolBytes(e.flood);
    Peel(buffer, at, HeaderBytes(e), EnclosedBytes(c, e));
    Peel(buffer, at, IntBytes(e.queryNum), IntBytes(e.destination) + s2);
    var queryNum := ReadInt(buffer, at, e.queryNum);
    Peel(buffer, at + 4, IntBytes(e.destination), s2);
    var destination := ReadInt(buffer, at + 4, e.destination);
    Peel(buffer, at + 8, BoolBytes(e.isEncrypted), BoolBytes(e.flood));
    var isEncrypted := ReadBool(buffer, at + 8, e.isEncrypted);
    var flood := ReadBool(buffer, at + 9, e.flood);
    var enclosed := ReadEnclosed(c, buffer, at + 10, e);
    r := Envelope(queryNum, destination, isEncrypted, flood, enclosed);
  }

  method ReadEnclosed(c: RecordCodec, buffer: seq<Byte>, at: nat, ghost e: Envelope) returns (r: Option<Body>)
    requires c.Lawful() && EnvelopeWellFormed(e) && At(buffer, at, EnclosedBytes(c, e))
    ensures r == e.enclosed
    decreases e, 0
  {
    Peel(buffer, at, BoolBytes(e.enclosed.Some?), if e.enclosed.Some? then BodyBytes(c, e.enclosed.value) else []);
    var remainingBody := ReadBool(buffer, at, e.enclosed.Some?);
    if remainingBody {
      var body := ReadBody(c, buffer, at + 1, e.enclosed.value);
      r := Some(body);
    } else {
      r := None;
    }
  }

  // ----- Transport messages and batches -----

  method WriteTransportHeader(t: Transport, buffer: array<Byte>, at: nat) returns (written: nat)
    requires at + 11 <= buffer.Length
    modifies buffer
    ensures written == 11 && buffer[..] == Overwrite(old(buffer[..]), at, TransportHeader(t))
  {
    ghost var was := buffer[..];
    ghost var s: seq<Byte> := Little(0, 2);
    written := WriteBytes(Little(0, 2), buffer, at);
    written := Append(IntBytes(t.senderRound), buffer, at, was, s, written);
    s := s + IntBytes(t.senderRound);
    written := Append(BoolBytes(t.isFinal), buffer, at, was, s, written);
    s := s + BoolBytes(t.isFinal);
    written := Append(IntBytes(t.sender), buffer, at, was, s, written);
    s := s + IntBytes(t.sender);
    assert s == TransportHeader(t);
  }

  method WriteTransport(c: RecordCodec, t: Transport, buffer: array<Byte>, at: nat) returns (written: nat)
    requires c.Lawful() && at + |TransportBytes(c, t)| <= buffer.Length
    modifies buffer
    ensures written == TransportSize(c, t) && buffer[..] == Overwrite(old(buffer[..]), at, TransportBytes(c, t))
  {
    written := WriteTransportHeader(t, buffer, at);
    var w := WriteBody(c, t.body, buffer, at + written);
    SizeIsLength(c, t.body);
    OverwriteTwice(old(buffer[..]), at, TransportHeader(t), BodyBytes(c, t.body));
    written := written + w;
  }

  method ReadTransport(c: RecordCodec, buffer: seq<Byte>, at: nat, ghost t: Transport) returns (r: Transport)
    requires c.Lawful() && TransportWellFormed(t) && At(buffer, at, TransportBytes(c, t))
    ensures r == t
  {
    ghost var s2 := BoolBytes(t.isFinal) + IntBytes(t.sender);
    Peel(buffer, at, TransportHeader(t), BodyBytes(c, t.body));
    Peel(buffer, at, Little(0, 2), IntBytes(t.senderRound) + s2);
    Peel(buffer, at + 2, IntBytes(t.senderRound), s2);
    var senderRound := ReadInt(buffer, at + 2, t.senderRound);
    Peel(buffer, at + 6, BoolBytes(t.isFinal), IntBytes(t.sender));
    var isFinal := ReadBool(buffer, at + 6, t.isFinal);
    var sender := ReadInt(buffer, at + 7, t.sender);
    var body := ReadBody(c, buffer, at + 11, t.body);
    r := Transport(senderRound, isFinal, sender, body);
  }

  method WritePing(sender: Int32, isResponse: bool, buffer: array<Byte>, at: nat) returns (written: nat)
    requires at + 7 <= buffer.Length
    modifies buffer
    ensures written == 7 && buffer[..] == Overwrite(old(buffer[..]), at, PingBytes(sender, isResponse))
  {
    ghost var was := buffer[..];
    ghost var s: seq<Byte> := Little(1, 2);
    written := WriteBytes(Little(1, 2), buffer, at);
    written := Append(IntBytes(sender), buffer, at, was, s, written);
    s := s + IntBytes(sender);
    written := Append(BoolBytes(isResponse), buffer, at, was, s, written);
    s := s + BoolBytes(isResponse);
    assert s == PingBytes(sender, isResponse);
  }

  method WriteAggregationHeader(contributors: Int32, queryNum: Int32, sender: Int32, buffer: array<Byte>, at: nat)
    returns (written: nat)
    requires at + 14 <= buffer.Length
    modifies buffer
    ensures written == 14
    ensures buffer[..] == Overwrite(old(buffer[..]), at, AggregationHeader(contributors, queryNum, sender))
  {
    ghost var was := buffer[..];
    ghost var s: seq<Byte> := Little(2, 2);
    written := WriteBytes(Little(2, 2), buffer, at);
    written := Append(IntBytes(contributors), buffer, at, was, s, written);
    s := s + IntBytes(contributors);
    written := Append(IntBytes(queryNum), buffer, at, was, s, written);
    s := s + IntBytes(queryNum);
    written := Append(IntBytes(sender), buffer, at, was, s, written);
    s := s + IntBytes(sender);
    assert s == AggregationHeader(contributors, queryNum, sender);
  }

  method WriteAggregation(c: RecordCodec, m: Message, buffer: array<Byte>, at: nat) returns (written: nat)
    requires c.Lawful() && m.Aggregation? && at + |MessageBytes(c, m)| <= buffer.Length
    modifies buffer
    ensures written == MessageSize(c, m) && buffer[..] == Overwrite(old(buffer[..]), at, MessageBytes(c, m))
  {
    var body := AggregationValue(m.value);
    ghost var was, header := buffer[..], AggregationHeader(m.contributors, m.queryNum, m.sender);
    SizeIsLength(c, body);
    written := WriteAggregationHeader(m.contributors, m.queryNum, m.sender, buffer, at);
    var w := WriteBody(c, body, buffer, at + 14);
    OverwriteTwice(was, at, header, BodyBytes(c, body));
    written := 14 + w;
  }

  method WriteMessage(c: RecordCodec, m: Message, buffer: array<Byte>, at: nat) returns (written: nat)
    requires c.Lawful() && at + |MessageBytes(c, m)| <= buffer.Length
    modifies buffer
    ensures written == MessageSize(c, m) && buffer[..] == Overwrite(old(buffer[..]), at, MessageBytes(c, m))
  {
    match m
    case OverlayTransport(t) =>
      written := WriteTransport(c, t, buffer, at);
    case Ping(sender, isResponse) =>
      written := WritePing(sender, isResponse, buffer, at);
    case Aggregation(_, _, _, _) =>
      written := WriteAggregation(c, m, buffer, at);
  }

  method ReadPing(buffer: seq<Byte>, at: nat, ghost sender: Int32, ghost isResponse: bool) returns (r: Message)
    requires At(buffer, at, PingBytes(sender, isResponse))
    ensures r == Ping(sender, isResponse)
  {
    Peel(buffer, at, Little(1, 2), IntBytes(sender) + BoolBytes(isResponse));
    Peel(buffer, at + 2, IntBytes(sender), BoolBytes(isResponse));
    var from := ReadInt(buffer, at + 2, sender);
    var response := ReadBool(buffer, at + 6, isResponse);
    r := Ping(from, response);
  }

  method ReadAggregation(c: RecordCodec, buffer: seq<Byte>, at: nat, ghost m: Message) returns (r: Message)
    requires c.Lawful() && m.Aggregation? && At(buffer, at, MessageBytes(c, m))
    ensures r == m
  {
    ghost var rest := IntBytes(m.queryNum) + IntBytes(m.sender);
    ghost var body := AggregationValue(m.value);
    Peel(buffer, at, AggregationHeader(m.contributors, m.queryNum, m.sender), BodyBytes(c, body));
    Peel(buffer, at, Little(2, 2), IntBytes(m.contributors) + rest);
    Peel(buffer, at + 2, IntBytes(m.contributors), rest);
    var contributors := ReadInt(buffer, at + 2, m.contributors);
    Peel(buffer, at + 6, IntBytes(m.queryNum), IntBytes(m.sender));
    var queryNum := ReadInt(buffer, at + 6, m.queryNum);
    var sender := ReadInt(buffer, at + 10, m.sender);
    var value := ReadBody(c, buffer, at + 14, body);
    r := Aggregation(contributors, queryNum, sender, value.value);
  }

  /** The number a message begins with. */
  function MessageType(m: Message): nat {
    match m
    case OverlayTransport(_) => 0
    case Ping(_, _) => 1
    case Aggregation(_, _, _, _) => 2
  }

  lemma TypeStandsFirst(c: RecordCodec, buffer: seq<Byte>, at: nat, m: Message)
    requires At(buffer, at, MessageBytes(c, m))
    ensures At(buffer, at, Little(MessageType(m), 2))
  {
    match m
    case OverlayTransport(t) =>
      Peel(buffer, at, TransportHeader(t), BodyBytes(c, t.body));
      Peel(buffer, at, Little(0, 2), IntBytes(t.senderRound) + (BoolBytes(t.isFinal) + IntBytes(t.sender)));
    case Ping(sender, isResponse) =>
      Peel(buffer, at, Little(1, 2), IntBytes(sender) + BoolBytes(isResponse));
    case Aggregation(contributors, queryNum, sender, value) =>
      Peel(buffer, at, AggregationHeader(contributors, queryNum, sender), BodyBytes(c, AggregationValue(value)));
      Peel(buffer, at, Little(2, 2), IntBytes(contributors) + (IntBytes(queryNum) + IntBytes(sender)));
  }

  /** Dispatches on the type the message begins with. */
  method ReadMessage(c: RecordCodec, buffer: seq<Byte>, at: nat, ghost m: Message) returns (r: Message)
    requires c.Lawful() && MessageWellFormed(m) && At(buffer, at, MessageBytes(c, m))
    ensures r == m
  {
    Powers();
    TypeStandsFirst(c, buffer, at, m);
    var messageType := ReadNat(buffer, at, 2, MessageType(m));
    if messageType == 0 {
      var t := ReadTransport(c, buffer, at, m.transport);
      r := OverlayTransport(t);
    } else if messageType == 1 {
      r := ReadPing(buffer, at, m.sender, m.isResponse);
    } else {
      r := ReadAggregation(c, buffer, at, m);
    }
  }

  function AllSize(c: RecordCodec, ms: seq<Message>): nat {
    if ms == [] then 0 else MessageSize(c, ms[0]) + AllSize(c, ms[1..])
  }

  lemma {:induction false} AllBytesAppend(c: RecordCodec, ms: seq<Message>, m: Message)
    ensures AllBytes(c, ms + [m]) == AllBytes(c, ms) + MessageBytes(c, m)
    decreases |ms|
  {
    if ms == [] {
      assert [m][1..] == [] && [] + [m] == [m];
    } else {
      AllBytesAppend(c, ms[1..], m);
      assert (ms + [m])[1..] == ms[1..] + [m];
      ConcatRegroup(MessageBytes(c, ms[0]), AllBytes(c, ms[1..]), MessageBytes(c, m));
    }
  }

  lemma {:induction false} AllSizeAppend(c: RecordCodec, ms: seq<Message>, m: Message)
    ensures AllSize(c, ms + [m]) == AllSize(c, ms) + MessageSize(c, m)
    decreases |ms|
  {
    if ms == [] {
      assert [m][1..] == [] && [] + [m] == [m];
    } else {
      AllSizeAppend(c, ms[1..], m);
      assert (ms + [m])[1..] == ms[1..] + [m];
    }
  }

  lemma AllAppend(c: RecordCodec, ms: seq<Message>, i: nat)
    requires i < |ms|
    ensures AllBytes(c, ms[..i + 1]) == AllBytes(c, ms[..i]) + MessageBytes(c, ms[i])
    ensures AllSize(c, ms[..i + 1]) == AllSize(c, ms[..i]) + MessageSize(c, ms[i])
  {
    assert ms[..i + 1] == ms[..i] + [ms[i]];
    AllBytesAppend(c, ms[..i], ms[i]);
    AllSizeAppend(c, ms[..i], ms[i]);
  }

  lemma {:induction false} AllSizeIsLength(c: RecordCodec, ms: seq<Message>)
    requires c.Lawful()
    ensures |AllBytes(c, ms)| == AllSize(c, ms)
  {
    if ms != [] {
      MessageSizeIsLength(c, ms[0]);
      AllSizeIsLength(c, ms[1..]);
    }
  }

  lemma {:induction false} AllSizeGrows(c: RecordCodec, ms: seq<Message>, i: nat)
    requires i <= |ms|
    ensures AllSize(c, ms[..i]) <= AllSize(c, ms)
    decreases |ms| - i
  {
    if i == |ms| {
      assert ms[..i] == ms;
    } else {
      AllAppend(c, ms, i);
      AllSizeGrows(c, ms, i + 1);
    }
  }

  method SendSize(c: RecordCodec, ms: seq<Message>) returns (size: nat)
    requires c.Lawful()
    ensures size == |BatchBytes(c, ms)|
  {
    size := 8;
    var i := 0;
    while i < |ms|
      invariant 0 <= i <= |ms| && size == 8 + AllSize(c, ms[..i])
    {
      size := size + MessageSize(c, ms[i]);
      AllAppend(c, ms, i);
      i := i + 1;
    }
    assert ms[..|ms|] == ms;
    AllSizeIsLength(c, ms);
  }

  lemma PartIsShorter(c: RecordCodec, ms: seq<Message>, i: nat)
    requires c.Lawful() && i <= |ms|
    ensures |AllBytes(c, ms[..i])| <= |AllBytes(c, ms)|
  {
    AllSizeGrows(c, ms, i);
    AllSizeIsLength(c, ms);
    AllSizeIsLength(c, ms[..i]);
  }

  lemma RoomForNext(c: RecordCodec, head: seq<Byte>, ms: seq<Message>, i: nat)
    requires c.Lawful() && i < |ms|
    ensures head + AllBytes(c, ms[..i + 1]) == head + AllBytes(c, ms[..i]) + MessageBytes(c, ms[i])
    ensures |head + AllBytes(c, ms[..i + 1])| <= |head| + |AllBytes(c, ms)|
  {
    AllAppend(c, ms, i);
    PartIsShorter(c, ms, i + 1);
    ConcatRegroup(head, AllBytes(c, ms[..i]), MessageBytes(c, ms[i]));
  }

  method AppendMessage(c: RecordCodec, m: Message, buffer: array<Byte>, ghost was: seq<Byte>, ghost s: seq<Byte>,
                         written: nat) returns (total: nat)
    requires c.Lawful() && |was| == buffer.Length && written == |s| && |s| + |MessageBytes(c, m)| <= buffer.Length
    requires buffer[..] == Overwrite(was, 0, s)
    modifies buffer
    ensures total == |s + MessageBytes(c, m)| && buffer[..] == Overwrite(was, 0, s + MessageBytes(c, m))
  {
    var w := WriteMessage(c, m, buffer, written);
    OverwriteTwice(was, 0, s, MessageBytes(c, m));
    MessageSizeIsLength(c, m);
    total := written + w;
  }

  /** The loop that writes one message behind the other, after the two length fields. */
  method WriteAll(c: RecordCodec, ms: seq<Message>, buffer: array<Byte>, ghost was: seq<Byte>, ghost head: seq<Byte>)
    requires c.Lawful() && |was| == buffer.Length == 16 + |AllBytes(c, ms)| && |head| == 16
    requires buffer[..] == Overwrite(was, 0, head)
    modifies buffer
    ensures buffer[..] == Overwrite(was, 0, head + AllBytes(c, ms))
  {
    var bytesWritten, i := 16, 0;
    ghost var s := head;
    while i < |ms|
      invariant 0 <= i <= |ms| && bytesWritten == |s| <= |was| && s == head + AllBytes(c, ms[..i])
      invariant buffer[..] == Overwrite(was, 0, s)
    {
      RoomForNext(c, head, ms, i);
      bytesWritten := AppendMessage(c, ms[i], buffer, was, s, bytesWritten);
      s := s + MessageBytes(c, ms[i]);
      i := i + 1;
    }
    assert ms[..|ms|] == ms;
  }

  /** The two length fields a batch begins with. */
  method WriteLengths(sendSize: nat, count: nat, buffer: array<Byte>, ghost was: seq<Byte>)
    requires buffer.Length >= 16 && was == buffer[..]
    modifies buffer
    ensures buffer[..] == Overwrite(was, 0, Little(sendSize, 8) + Little(count, 8))
  {
    var bytesWritten := WriteBytes(Little(sendSize, 8), buffer, 0);
    bytesWritten := Append(Little(count, 8), buffer, 0, was, Little(sendSize, 8), bytesWritten);
  }

  lemma WholeBuffer(c: RecordCodec, ms: seq<Message>, was: seq<Byte>)
    requires c.Lawful() && |was| == 8 + |BatchBytes(c, ms)|
    ensures var size := |BatchBytes(c, ms)|;
            |was| == 16 + |AllBytes(c, ms)|
            && Overwrite(was, 0, Little(size, 8) + Little(|ms|, 8) + AllBytes(c, ms)) ==
               Little(size, 8) + BatchBytes(c, ms)
  {
    var size := |BatchBytes(c, ms)|;
    ConcatRegroup(Little(size, 8), Little(|ms|, 8), AllBytes(c, ms));
    OverwriteAll(was, Little(size, 8) + BatchBytes(c, ms));
  }

  /** Fills a new buffer with the length of the batch and the batch. */
  method Send(c: RecordCodec, ms: seq<Message>) returns (buffer: array<Byte>)
    requires c.Lawful()
    ensures fresh(buffer) && buffer[..] == Little(|BatchBytes(c, ms)|, 8) + BatchBytes(c, ms)
  {
    var sendSize := SendSize(c, ms);
    buffer := new Byte[8 + sendSize];
    ghost var was := buffer[..];
    ghost var head := Little(sendSize, 8) + Little(|ms|, 8);
    WriteLengths(sendSize, |ms|, buffer, was);
    WriteAll(c, ms, buffer, was, head);
    WholeBuffer(c, ms, was);
  }

  lemma PeelMessage(c: RecordCodec, buffer: seq<Byte>, at: nat, ms: seq<Message>, k: nat)
    requires c.Lawful() && k < |ms| && At(buffer, at, AllBytes(c, ms[k..]))
    ensures At(buffer, at, MessageBytes(c, ms[k]))
    ensures At(buffer, at + MessageSize(c, ms[k]), AllBytes(c, ms[k + 1..]))
  {
    assert ms[k..][1..] == ms[k + 1..];
    Peel(buffer, at, MessageBytes(c, ms[k]), AllBytes(c, ms[k + 1..]));
    MessageSizeIsLength(c, ms[k]);
  }

  method ReadLong(buffer: seq<Byte>, at: nat, ghost n: nat) returns (r: nat)
    requires At(buffer, at, Little(n, 8)) && n < 0x1_0000_0000_0000_0000
    ensures r == n
  {
    Powers();
    r := ReadNat(buffer, at, 8, n);
  }

  /** Reads one message and moves behind it. */
  method ReadNext(c: RecordCodec, buffer: seq<Byte>, at: nat, ghost ms: seq<Message>, ghost k: nat)
    returns (m: Message, next: nat)
    requires c.Lawful() && k < |ms| && MessageWellFormed(ms[k]) && At(buffer, at, AllBytes(c, ms[k..]))
    ensures m == ms[k] && At(buffer, next, AllBytes(c, ms[k + 1..]))
  {
    PeelMessage(c, buffer, at, ms, k);
    m := ReadMessage(c, buffer, at, ms[k]);
    next := at + MessageSize(c, m);
  }

  /** What arrives after the length header is handed on as exactly the messages that were sent, in order. */
  method ReceiveMessage(c: RecordCodec, buffer: seq<Byte>, ghost ms: seq<Message>) returns (r: seq<Message>)
    requires c.Lawful() && |ms| < 0x1_0000_0000_0000_0000
    requires forall k :: 0 <= k < |ms| ==> MessageWellFormed(ms[k])
    requires At(buffer, 0, BatchBytes(c, ms))
    ensures r == ms
  {
    Peel(buffer, 0, Little(|ms|, 8), AllBytes(c, ms));
    var count := ReadLong(buffer, 0, |ms|);
    var pos: nat := 8;
    r := [];
    while |r| < count
      invariant |r| <= count && r == ms[..|r|] && At(buffer, pos, AllBytes(c, ms[|r|..]))
    {
      var m, next := ReadNext(c, buffer, pos, ms, |r|);
      pos := next;
      r := r + [m];
    }
  }

  // ----- A prefix code -----

  lemma SameInt(buffer: seq<Byte>, at: nat, x: Int32, y: Int32)
    requires At(buffer, at, IntBytes(x)) && At(buffer, at, IntBytes(y))
    ensures x == y
  {
    Powers();
    FromLittleLittle(if x < 0 then x + 0x1_0000_0000 else x, 4);
    FromLittleLittle(if y < 0 then y + 0x1_0000_0000 else y, 4);
    assert IntBytes(x) == buffer[at..][..4] == IntBytes(y);
  }

  lemma SameNat(buffer: seq<Byte>, at: nat, size: nat, x: nat, y: nat)
    requires At(buffer, at, Little(x, size)) && At(buffer, at, Little(y, size))
    requires x < Pow(256, size) && y < Pow(256, size)
    ensures x == y
  {
    FromLittleLittle(x, size);
    FromLittleLittle(y, size);
    assert Little(x, size) == buffer[at..][..size] == Little(y, size);
  }

  lemma SameCount(buffer: seq<Byte>, at: nat, x: nat, y: nat)
    requires At(buffer, at, CountBytes(x)) && At(buffer, at, CountBytes(y)) && x < 0x8000_0000 && y < 0x8000_0000
    ensures x == y
  {
    Powers();
    CountFits(x);
    CountFits(y);
    SameNat(buffer, at, 4, x, y);
  }

  lemma SameBool(buffer: seq<Byte>, at: nat, x: bool, y: bool)
    requires At(buffer, at, BoolBytes(x)) && At(buffer, at, BoolBytes(y))
    ensures x == y
  {
    assert buffer[at..][0] == BoolBytes(x)[0] == BoolBytes(y)[0];
  }

  lemma {:induction false} SameInts(buffer: seq<Byte>, at: nat, xs: seq<Int32>, ys: seq<Int32>)
    requires |xs| == |ys| && At(buffer, at, IntsBytes(xs)) && At(buffer, at, IntsBytes(ys))
    ensures xs == ys
    decreases |xs|
  {
    if xs != [] {
      Peel(buffer, at, IntBytes(xs[0]), IntsBytes(xs[1..]));
      Peel(buffer, at, IntBytes(ys[0]), IntsBytes(ys[1..]));
      SameInt(buffer, at, xs[0], ys[0]);
      SameInts(buffer, at + 4, xs[1..], ys[1..]);
      assert xs == [xs[0]] + xs[1..] && ys == [ys[0]] + ys[1..];
    }
  }

  lemma SameList(buffer: seq<Byte>, at: nat, xs: seq<Int32>, ys: seq<Int32>)
    requires At(buffer, at, ListBytes(xs)) && At(buffer, at, ListBytes(ys)) && |xs| < 0x8000_0000 && |ys| < 0x8000_0000
    ensures xs == ys
  {
    Peel(buffer, at, CountBytes(|xs|), IntsBytes(xs));
    Peel(buffer, at, CountBytes(|ys|), IntsBytes(ys));
    SameCount(buffer, at, |xs|, |ys|);
    SameInts(buffer, at + 4, xs, ys);
  }

  lemma HeaderFields(buffer: seq<Byte>, at: nat, e: Envelope)
    requires At(buffer, at, HeaderBytes(e))
    ensures At(buffer, at, IntBytes(e.queryNum)) && At(buffer, at + 4, IntBytes(e.destination))
    ensures At(buffer, at + 8, BoolBytes(e.isEncrypted)) && At(buffer, at + 9, BoolBytes(e.flood))
  {
    var s2 := BoolBytes(e.isEncrypted) + BoolBytes(e.flood);
    Peel(buffer, at, IntBytes(e.queryNum), IntBytes(e.destination) + s2);
    Peel(buffer, at + 4, IntBytes(e.destination), s2);
    Peel(buffer, at + 8, BoolBytes(e.isEncrypted), BoolBytes(e.flood));
  }

  lemma SameHeader(buffer: seq<Byte>, at: nat, e: Envelope, f: Envelope)
    requires At(buffer, at, HeaderBytes(e)) && At(buffer, at, HeaderBytes(f))
    ensures e.queryNum == f.queryNum && e.destination == f.destination
    ensures e.isEncrypted == f.isEncrypted && e.flood == f.flood
  {
    HeaderFields(buffer, at, e);
    HeaderFields(buffer, at, f);
    SameInt(buffer, at, e.queryNum, f.queryNum);
    SameInt(buffer, at + 4, e.destination, f.destination);
    SameBool(buffer, at + 8, e.isEncrypted, f.isEncrypted);
    SameBool(buffer, at + 9, e.flood, f.flood);
  }

  lemma SameRecord(c: RecordCodec, buffer: seq<Byte>, at: nat, r: Record, r': Record)
    requires c.Lawful() && At(buffer, at, c.encode(r)) && At(buffer, at, c.encode(r'))
    ensures r == r'
  {
    assert c.ReadsBack(r, buffer[at..]) && c.ReadsBack(r', buffer[at..]);
  }

  lemma SameTag(c: RecordCodec, buffer: seq<Byte>, at: nat, a: Body, b: Body)
    requires At(buffer, at, BodyBytes(c, a)) && At(buffer, at, BodyBytes(c, b))
    ensures Tag(a) == Tag(b)
    ensures At(buffer, at + 2, FieldBytes(c, a)) && At(buffer, at + 2, FieldBytes(c, b))
  {
    Powers();
    Peel(buffer, at, Little(Tag(a), 2), FieldBytes(c, a));
    Peel(buffer, at, Little(Tag(b), 2), FieldBytes(c, b));
    SameNat(buffer, at, 2, Tag(a), Tag(b));
  }

  lemma {:induction false} SameEnvelope(c: RecordCodec, buffer: seq<Byte>, at: nat, e: Envelope, f: Envelope)
    requires c.Lawful() && EnvelopeWellFormed(e) && EnvelopeWellFormed(f)
    requires At(buffer, at, EnvelopeBytes(c, e)) && At(buffer, at, EnvelopeBytes(c, f))
    ensures e == f
    decreases e
  {
    Peel(buffer, at, HeaderBytes(e), EnclosedBytes(c, e));
    Peel(buffer, at, HeaderBytes(f), EnclosedBytes(c, f));
    SameHeader(buffer, at, e, f);
    Peel(buffer, at + 10, BoolBytes(e.enclosed.Some?), if e.enclosed.Some? then BodyBytes(c, e.enclosed.value) else []);
    Peel(buffer, at + 10, BoolBytes(f.enclosed.Some?), if f.enclosed.Some? then BodyBytes(c, f.enclosed.value) else []);
    SameBool(buffer, at + 10, e.enclosed.Some?, f.enclosed.Some?);
    if e.enclosed.Some? {
      SameBody(c, buffer, at + 11, e.enclosed.value, f.enclosed.value);
    }
  }

  lemma ContributionFields(c: RecordCodec, buffer: seq<Byte>, at: nat, a: Body)
    requires a.ValueContribution? && At(buffer, at, FieldBytes(c, a))
    ensures var pos := at + 4 + |c.encode(a.value)|;
            && At(buffer, at, IntBytes(a.queryNum)) && At(buffer, at + 4, c.encode(a.value))
            && At(buffer, pos, ListBytes(a.proxies)) && At(buffer, pos + |ListBytes(a.proxies)|, a.signature)
  {
    Peel(buffer, at, IntBytes(a.queryNum), c.encode(a.value) + (ListBytes(a.proxies) + a.signature));
    Peel(buffer, at + 4, c.encode(a.value), ListBytes(a.proxies) + a.signature);
    Peel(buffer, at + 4 + |c.encode(a.value)|, ListBytes(a.proxies), a.signature);
  }

  lemma SameContribution(c: RecordCodec, buffer: seq<Byte>, at: nat, a: Body, b: Body)
    requires c.Lawful() && a.ValueContribution? && b.ValueContribution? && WellFormed(a) && WellFormed(b)
    requires At(buffer, at, FieldBytes(c, a)) && At(buffer, at, FieldBytes(c, b))
    ensures a == b
  {
    ContributionFields(c, buffer, at, a);
    ContributionFields(c, buffer, at, b);
    SameInt(buffer, at, a.queryNum, b.queryNum);
    SameRecord(c, buffer, at + 4, a.value, b.value);
    var pos := at + 4 + |c.encode(a.value)|;
    SameList(buffer, pos, a.proxies, b.proxies);
    var end := pos + |ListBytes(a.proxies)|;
    assert a.signature == buffer[end..][..SIGNATURE_SIZE] == b.signature;
  }

  lemma SamePath(c: RecordCodec, buffer: seq<Byte>, at: nat, a: Body, b: Body)
    requires a.PathOverlay? && b.PathOverlay? && WellFormed(a) && WellFormed(b)
    requires At(buffer, at, FieldBytes(c, a)) && At(buffer, at, FieldBytes(c, b))
    ensures a.remainingPath == b.remainingPath
    ensures At(buffer, at + |ListBytes(a.remainingPath)|, EnvelopeBytes(c, a.envelope))
    ensures At(buffer, at + |ListBytes(b.remainingPath)|, EnvelopeBytes(c, b.envelope))
  {
    Peel(buffer, at, ListBytes(a.remainingPath), EnvelopeBytes(c, a.envelope));
    Peel(buffer, at, ListBytes(b.remainingPath), EnvelopeBytes(c, b.envelope));
    SameList(buffer, at, a.remainingPath, b.remainingPath);
  }

  lemma SameByteBody(buffer: seq<Byte>, at: nat, a: seq<Byte>, b: seq<Byte>)
    requires |a| < 0x8000_0000 && |b| < 0x8000_0000
    requires At(buffer, at, CountBytes(|a|) + a) && At(buffer, at, CountBytes(|b|) + b)
    ensures a == b
  {
    Peel(buffer, at, CountBytes(|a|), a);
    Peel(buffer, at, CountBytes(|b|), b);
    SameCount(buffer, at, |a|, |b|);
    assert a == buffer[at + 4..][..|a|] == b;
  }

  lemma {:induction false} SamePathBody(c: RecordCodec, buffer: seq<Byte>, at: nat, a: Body, b: Body)
    requires c.Lawful() && a.PathOverlay? && b.PathOverlay? && WellFormed(a) && WellFormed(b)
    requires At(buffer, at, FieldBytes(c, a)) && At(buffer, at, FieldBytes(c, b))
    ensures a == b
    decreases a, 0
  {
    SamePath(c, buffer, at, a, b);
    SameEnvelope(c, buffer, at + |ListBytes(a.remainingPath)|, a.envelope, b.envelope);
  }

  lemma {:induction false} SameFields(c: RecordCodec, buffer: seq<Byte>, at: nat, a: Body, b: Body)
    requires c.Lawful() && WellFormed(a) && WellFormed(b) && Tag(a) == Tag(b)
    requires At(buffer, at, FieldBytes(c, a)) && At(buffer, at, FieldBytes(c, b))
    ensures a == b
    decreases a, 1
  {
    match a
    case Overlay(e) => SameEnvelope(c, buffer, at, e, b.envelope);
    case PathOverlay(_, _) => SamePathBody(c, buffer, at, a, b);
    case ValueContribution(_, _, _, _) => SameContribution(c, buffer, at, a, b);
    case AggregationValue(v) => SameRecord(c, buffer, at, v, b.value);
    case ByteBody(bytes) => SameByteBody(buffer, at, bytes, b.bytes);
  }

  /** At one place in a buffer at most one message body can stand. */
  lemma {:induction false} SameBody(c: RecordCodec, buffer: seq<Byte>, at: nat, a: Body, b: Body)
    requires c.Lawful() && WellFormed(a) && WellFormed(b)
    requires At(buffer, at, BodyBytes(c, a)) && At(buffer, at, BodyBytes(c, b))
    ensures a == b
    decreases a, 2
  {
    SameTag(c, buffer, at, a, b);
    SameFields(c, buffer, at + 2, a, b);
  }

  /** No body's bytes are a prefix of another's: bytes followed by anything split in only one way. */
  lemma PrefixCode(c: RecordCodec, a: Body, b: Body, x: seq<Byte>, y: seq<Byte>)
    requires c.Lawful() && WellFormed(a) && WellFormed(b)
    requires BodyBytes(c, a) + x == BodyBytes(c, b) + y
    ensures a == b && x == y
  {
    var buffer := BodyBytes(c, a) + x;
    assert buffer[0..] == buffer;
    SameBody(c, buffer, 0, a, b);
    assert x == buffer[|BodyBytes(c, a)|..] == y;
  }
}
