/** What stands at which place of a buffer, byte by byte. */
module Layout {
  import opened Bytes
  import opened Codec
  import opened NumberTheory

  // ----- Numbers, least significant byte first -----

  ghost predicate ByteAt(buffer: seq<Byte>, at: nat, x: int) {
    at < |buffer| && buffer[at] == x
  }

  function Word(a: int, b: int, c: int, d: int): int {
    a + 0x100 * b + 0x1_0000 * c + 0x100_0000 * d
  }

  /** A 16-bit number. */
  ghost predicate ShortAt(buffer: seq<Byte>, at: nat, x: nat) {
    at + 2 <= |buffer| && Word(buffer[at], buffer[at + 1], 0, 0) == x
  }

  /** A 32-bit number. */
  ghost predicate WordAt(buffer: seq<Byte>, at: nat, x: int) {
    at + 4 <= |buffer| && Word(buffer[at], buffer[at + 1], buffer[at + 2], buffer[at + 3]) == x
  }

  /** A 64-bit number. */
  ghost predicate LongAt(buffer: seq<Byte>, at: nat, x: int) {
    WordAt(buffer, at, x % 0x1_0000_0000) && WordAt(buffer, at + 4, x / 0x1_0000_0000)
  }

  /** A signed 32-bit number in two's complement. */
  ghost predicate IntAt(buffer: seq<Byte>, at: nat, x: Int32) {
    WordAt(buffer, at, if x < 0 then 0x1_0000_0000 + x else x)
  }

  ghost predicate BoolAt(buffer: seq<Byte>, at: nat, b: bool) {
    ByteAt(buffer, at, if b then 1 else 0)
  }

  ghost predicate IntsAt(buffer: seq<Byte>, at: nat, xs: seq<Int32>) {
    forall k :: 0 <= k < |xs| ==> IntAt(buffer, at + 4 * k, xs[k])
  }

  /** A count of elements, then the elements. */
  ghost predicate ListAt(buffer: seq<Byte>, at: nat, xs: seq<Int32>) {
    WordAt(buffer, at, |xs|) && IntsAt(buffer, at + 4, xs)
  }

  lemma BytesOf(buffer: seq<Byte>, at: nat, s: seq<Byte>)
    requires At(buffer, at, s)
    ensures at + |s| <= |buffer| && forall k :: 0 <= k < |s| ==> buffer[at + k] == s[k]
  {
    forall k | 0 <= k < |s| ensures buffer[at + k] == s[k] {
      assert buffer[at..][k] == s[k];
    }
  }

  lemma LittleFirst(x: nat, size: nat)
    requires size > 0
    ensures Little(x, size)[0] == x % 256 && Little(x, size)[1..] == Little(x / 256, size - 1)
  {
  }

  lemma LittleTwo(x: nat)
    requires x < 0x1_0000
    ensures Word(Little(x, 2)[0], Little(x, 2)[1], 0, 0) == x
  {
    LittleFirst(x, 2);
    LittleFirst(x / 256, 1);
    assert Little(x, 2)[1] == Little(x, 2)[1..][0];
  }

  lemma LaterBytes(s: seq<Byte>)
    requires |s| >= 4
    ensures s[1] == s[1..][0] && s[2] == s[1..][1..][0] && s[3] == s[1..][1..][1..][0]
    ensures s[4..] == s[1..][1..][1..][1..]
  {
  }

  /** The first four bytes spell the number modulo 2^32, the others the rest. */
  lemma LittleFour(x: nat, size: nat)
    requires size >= 4
    ensures var s := Little(x, size);
            && Word(s[0], s[1], s[2], s[3]) == x % 0x1_0000_0000
            && s[4..] == Little(x / 0x1_0000_0000, size - 4)
  {
    var s, b := Little(x, size), x / 256;
    var c := b / 256;
    var d := c / 256;
    LittleFirst(x, size);
    LittleFirst(b, size - 1);
    LittleFirst(c, size - 2);
    LittleFirst(d, size - 3);
    LaterBytes(s);
    DivModIs(x, d / 256, Word(x % 256, b % 256, c % 256, d % 256), 0x1_0000_0000);
  }

  lemma ShortStands(buffer: seq<Byte>, at: nat, x: nat)
    requires At(buffer, at, Little(x, 2)) && x < 0x1_0000
    ensures ShortAt(buffer, at, x)
  {
    LittleTwo(x);
    BytesOf(buffer, at, Little(x, 2));
  }

  lemma WordStands(buffer: seq<Byte>, at: nat, x: nat)
    requires At(buffer, at, Little(x, 4)) && x < 0x1_0000_0000
    ensures WordAt(buffer, at, x)
  {
    LittleFour(x, 4);
    BytesOf(buffer, at, Little(x, 4));
  }

  lemma LongStands(buffer: seq<Byte>, at: nat, x: nat)
    requires At(buffer, at, Little(x, 8)) && x < 0x1_0000_0000_0000_0000
    ensures LongAt(buffer, at, x)
  {
    var s := Little(x, 8);
    LittleFour(x, 8);
    BytesOf(buffer, at, s);
    assert s == s[..4] + s[4..];
    Peel(buffer, at, s[..4], s[4..]);
    WordStands(buffer, at + 4, x / 0x1_0000_0000);
  }

  lemma IntStands(buffer: seq<Byte>, at: nat, x: Int32)
    requires At(buffer, at, IntBytes(x))
    ensures IntAt(buffer, at, x)
  {
    WordStands(buffer, at, if x < 0 then x + 0x1_0000_0000 else x);
  }

  lemma CountStands(buffer: seq<Byte>, at: nat, n: nat)
    requires At(buffer, at, CountBytes(n)) && n < 0x8000_0000
    ensures WordAt(buffer, at, n)
  {
    CountFits(n);
    WordStands(buffer, at, n);
  }

  lemma BoolStands(buffer: seq<Byte>, at: nat, b: bool)
    requires At(buffer, at, BoolBytes(b))
    ensures BoolAt(buffer, at, b)
  {
    BytesOf(buffer, at, BoolBytes(b));
  }

  lemma {:induction false} IntsStand(buffer: seq<Byte>, at: nat, xs: seq<Int32>)
    requires At(buffer, at, IntsBytes(xs))
    ensures IntsAt(buffer, at, xs)
    decreases |xs|
  {
    if xs != [] {
      Peel(buffer, at, IntBytes(xs[0]), IntsBytes(xs[1..]));
      IntStands(buffer, at, xs[0]);
      IntsStand(buffer, at + 4, xs[1..]);
      forall k | 0 <= k < |xs| ensures IntAt(buffer, at + 4 * k, xs[k]) {
        if k > 0 {
          assert IntAt(buffer, at + 4 + 4 * (k - 1), xs[1..][k - 1]);
        }
      }
    }
  }

  lemma ListStands(buffer: seq<Byte>, at: nat, xs: seq<Int32>)
    requires At(buffer, at, ListBytes(xs)) && |xs| < 0x8000_0000
    ensures ListAt(buffer, at, xs)
  {
    Peel(buffer, at, CountBytes(|xs|), IntsBytes(xs));
    CountStands(buffer, at, |xs|);
    IntsStand(buffer, at + 4, xs);
  }

  // ----- Message bodies -----

  /** An envelope: query number, destination, two flags, and whether a body follows and which. */
  ghost predicate EnvelopeAt(c: RecordCodec, buffer: seq<Byte>, at: nat, e: Envelope)
    decreases e, 0
  {
    && IntAt(buffer, at, e.queryNum) && IntAt(buffer, at + 4, e.destination)
    && BoolAt(buffer, at + 8, e.isEncrypted) && BoolAt(buffer, at + 9, e.flood)
    && BoolAt(buffer, at + 10, e.enclosed.Some?)
    && (e.enclosed.Some? ==> BodyAt(c, buffer, at + 11, e.enclosed.value))
  }

  ghost predicate FieldsAt(c: RecordCodec, buffer: seq<Byte>, at: nat, b: Body)
    decreases b, 1
  {
    match b
    case Overlay(e) => EnvelopeAt(c, buffer, at, e)
    case PathOverlay(path, e) => ListAt(buffer, at, path) && EnvelopeAt(c, buffer, at + 4 + 4 * |path|, e)
    case ValueContribution(q, v, proxies, signature) =>
      var after := at + 4 + |c.encode(v)|;
      && IntAt(buffer, at, q) && At(buffer, at + 4, c.encode(v))
      && ListAt(buffer, after, proxies) && At(buffer, after + 4 + 4 * |proxies|, signature)
    case AggregationValue(v) => At(buffer, at, c.encode(v))
    case ByteBody(bytes) => WordAt(buffer, at, |bytes|) && At(buffer, at + 4, bytes)
  }

  /** A message body: its type in two bytes, then its fields. */
  ghost predicate BodyAt(c: RecordCodec, buffer: seq<Byte>, at: nat, b: Body)
    decreases b, 2
  {
    var bodyType := match b
                    case Overlay(_) => 0
                    case PathOverlay(_, _) => 1
                    case ValueContribution(_, _, _, _) => 4
                    case AggregationValue(_) => 5
                    case ByteBody(_) => 6;
    ShortAt(buffer, at, bodyType) && FieldsAt(c, buffer, at + 2, b)
  }

  lemma HeaderStands(buffer: seq<Byte>, at: nat, e: Envelope)
    requires At(buffer, at, HeaderBytes(e))
    ensures IntAt(buffer, at, e.queryNum) && IntAt(buffer, at + 4, e.destination)
    ensures BoolAt(buffer, at + 8, e.isEncrypted) && BoolAt(buffer, at + 9, e.flood)
  {
    HeaderFields(buffer, at, e);
    IntStands(buffer, at, e.queryNum);
    IntStands(buffer, at + 4, e.destination);
    BoolStands(buffer, at + 8, e.isEncrypted);
    BoolStands(buffer, at + 9, e.flood);
  }

  lemma {:induction false} EnvelopeStands(c: RecordCodec, buffer: seq<Byte>, at: nat, e: Envelope)
    requires EnvelopeWellFormed(e) && At(buffer, at, EnvelopeBytes(c, e))
    ensures EnvelopeAt(c, buffer, at, e)
    decreases e, 0
  {
    Peel(buffer, at, HeaderBytes(e), EnclosedBytes(c, e));
    HeaderStands(buffer, at, e);
    Peel(buffer, at + 10, BoolBytes(e.enclosed.Some?), if e.enclosed.Some? then BodyBytes(c, e.enclosed.value) else []);
    BoolStands(buffer, at + 10, e.enclosed.Some?);
    if e.enclosed.Some? {
      BodyStands(c, buffer, at + 11, e.enclosed.value);
    }
  }

  lemma ContributionStands(c: RecordCodec, buffer: seq<Byte>, at: nat, b: Body)
    requires b.ValueContribution? && WellFormed(b) && At(buffer, at, FieldBytes(c, b))
    ensures var after := at + 4 + |c.encode(b.value)|;
            && IntAt(buffer, at, b.queryNum) && At(buffer, at + 4, c.encode(b.value))
            && ListAt(buffer, after, b.proxies) && At(buffer, after + 4 + 4 * |b.proxies|, b.signature)
  {
    ContributionFields(c, buffer, at, b);
    IntStands(buffer, at, b.queryNum);
    ListStands(buffer, at + 4 + |c.encode(b.value)|, b.proxies);
  }

  lemma PathStands(c: RecordCodec, buffer: seq<Byte>, at: nat, path: seq<Int32>, e: Envelope)
    requires |path| < 0x8000_0000 && At(buffer, at, ListBytes(path) + EnvelopeBytes(c, e))
    ensures ListAt(buffer, at, path) && At(buffer, at + 4 + 4 * |path|, EnvelopeBytes(c, e))
  {
    Peel(buffer, at, ListBytes(path), EnvelopeBytes(c, e));
    ListStands(buffer, at, path);
  }

  lemma ByteBodyStands(buffer: seq<Byte>, at: nat, bytes: seq<Byte>)
    requires |bytes| < 0x8000_0000 && At(buffer, at, CountBytes(|bytes|) + bytes)
    ensures WordAt(buffer, at, |bytes|) && At(buffer, at + 4, bytes)
  {
    Peel(buffer, at, CountBytes(|bytes|), bytes);
    CountStands(buffer, at, |bytes|);
  }

  lemma {:induction false} FieldsStand(c: RecordCodec, buffer: seq<Byte>, at: nat, b: Body)
    requires WellFormed(b) && At(buffer, at, FieldBytes(c, b))
    ensures FieldsAt(c, buffer, at, b)
    decreases b, 1
  {
    match b
    case Overlay(e) =>
      EnvelopeStands(c, buffer, at, e);
    case PathOverlay(path, e) =>
      PathStands(c, buffer, at, path, e);
      EnvelopeStands(c, buffer, at + 4 + 4 * |path|, e);
    case ValueContribution(_, _, _, _) =>
      ContributionStands(c, buffer, at, b);
    case AggregationValue(v) =>
    case ByteBody(bytes) =>
      ByteBodyStands(buffer, at, bytes);
  }

  /** The bytes of a body stand in the buffer in this layout. */
  lemma {:induction false} BodyStands(c: RecordCodec, buffer: seq<Byte>, at: nat, b: Body)
    requires WellFormed(b) && At(buffer, at, BodyBytes(c, b))
    ensures BodyAt(c, buffer, at, b)
    decreases b, 2
  {
    Peel(buffer, at, Little(Tag(b), 2), FieldBytes(c, b));
    ShortStands(buffer, at, Tag(b));
    FieldsStand(c, buffer, at + 2, b);
  }

  // ----- Messages and batches -----

  /** A message: its type in two bytes, then its fields, then the body if it has one. */
  ghost predicate MessageAt(c: RecordCodec, buffer: seq<Byte>, at: nat, m: Message) {
    match m
    case OverlayTransport(t) =>
      && ShortAt(buffer, at, 0) && IntAt(buffer, at + 2, t.senderRound) && BoolAt(buffer, at + 6, t.isFinal)
      && IntAt(buffer, at + 7, t.sender) && BodyAt(c, buffer, at + 11, t.body)
    case Ping(sender, isResponse) =>
      ShortAt(buffer, at, 1) && IntAt(buffer, at + 2, sender) && BoolAt(buffer, at + 6, isResponse)
    case Aggregation(contributors, queryNum, sender, value) =>
      && ShortAt(buffer, at, 2) && IntAt(buffer, at + 2, contributors) && IntAt(buffer, at + 6, queryNum)
      && IntAt(buffer, at + 10, sender) && BodyAt(c, buffer, at + 14, AggregationValue(value))
  }

  lemma Behind(buffer: seq<Byte>, at: nat, a: seq<Byte>, b: seq<Byte>, after: nat)
    requires At(buffer, at, a + b) && after == at + |a|
    ensures At(buffer, at, a) && At(buffer, after, b)
  {
    Peel(buffer, at, a, b);
  }

  lemma TransportHeaderStands(buffer: seq<Byte>, at: nat, t: Transport)
    requires At(buffer, at, TransportHeader(t))
    ensures ShortAt(buffer, at, 0) && IntAt(buffer, at + 2, t.senderRound)
    ensures BoolAt(buffer, at + 6, t.isFinal) && IntAt(buffer, at + 7, t.sender)
  {
    var s2 := BoolBytes(t.isFinal) + IntBytes(t.sender);
    var round, flag, sender := at + 2, at + 6, at + 7;
    Behind(buffer, at, Little(0, 2), IntBytes(t.senderRound) + s2, round);
    Behind(buffer, round, IntBytes(t.senderRound), s2, flag);
    Behind(buffer, flag, BoolBytes(t.isFinal), IntBytes(t.sender), sender);
    ShortStands(buffer, at, 0);
    IntStands(buffer, round, t.senderRound);
    BoolStands(buffer, flag, t.isFinal);
    IntStands(buffer, sender, t.sender);
  }

  lemma TransportBodyStands(c: RecordCodec, buffer: seq<Byte>, at: nat, t: Transport)
    requires WellFormed(t.body) && At(buffer, at, TransportHeader(t) + BodyBytes(c, t.body))
    ensures At(buffer, at, TransportHeader(t)) && BodyAt(c, buffer, at + 11, t.body)
  {
    var body := at + 11;
    Behind(buffer, at, TransportHeader(t), BodyBytes(c, t.body), body);
    BodyStands(c, buffer, body, t.body);
  }

  lemma TransportStands(c: RecordCodec, buffer: seq<Byte>, at: nat, t: Transport)
    requires WellFormed(t.body) && At(buffer, at, TransportHeader(t) + BodyBytes(c, t.body))
    ensures MessageAt(c, buffer, at, OverlayTransport(t))
  {
    TransportBodyStands(c, buffer, at, t);
    TransportHeaderStands(buffer, at, t);
  }

  lemma AggregationHeaderStands(buffer: seq<Byte>, at: nat, contributors: Int32, queryNum: Int32, sender: Int32)
    requires At(buffer, at, AggregationHeader(contributors, queryNum, sender))
    ensures ShortAt(buffer, at, 2) && IntAt(buffer, at + 2, contributors)
    ensures IntAt(buffer, at + 6, queryNum) && IntAt(buffer, at + 10, sender)
  {
    Peel(buffer, at, Little(2, 2), IntBytes(contributors) + (IntBytes(queryNum) + IntBytes(sender)));
    Peel(buffer, at + 2, IntBytes(contributors), IntBytes(queryNum) + IntBytes(sender));
    Peel(buffer, at + 6, IntBytes(queryNum), IntBytes(sender));
    ShortStands(buffer, at, 2);
    IntStands(buffer, at + 2, contributors);
    IntStands(buffer, at + 6, queryNum);
    IntStands(buffer, at + 10, sender);
  }

  lemma AggregationStands(c: RecordCodec, buffer: seq<Byte>, at: nat, m: Message)
    requires m.Aggregation? && At(buffer, at, MessageBytes(c, m))
    ensures MessageAt(c, buffer, at, m)
  {
    var body, b := at + 14, AggregationValue(m.value);
    Behind(buffer, at, AggregationHeader(m.contributors, m.queryNum, m.sender), BodyBytes(c, b), body);
    AggregationHeaderStands(buffer, at, m.contributors, m.queryNum, m.sender);
    BodyStands(c, buffer, body, b);
  }

  lemma PingStands(buffer: seq<Byte>, at: nat, sender: Int32, isResponse: bool)
    requires At(buffer, at, PingBytes(sender, isResponse))
    ensures ShortAt(buffer, at, 1) && IntAt(buffer, at + 2, sender) && BoolAt(buffer, at + 6, isResponse)
  {
    var who, flag := at + 2, at + 6;
    Behind(buffer, at, Little(1, 2), IntBytes(sender) + BoolBytes(isResponse), who);
    Behind(buffer, who, IntBytes(sender), BoolBytes(isResponse), flag);
    ShortStands(buffer, at, 1);
    IntStands(buffer, who, sender);
    BoolStands(buffer, flag, isResponse);
  }

  lemma MessageStands(c: RecordCodec, buffer: seq<Byte>, at: nat, m: Message)
    requires MessageWellFormed(m) && At(buffer, at, MessageBytes(c, m))
    ensures MessageAt(c, buffer, at, m)
  {
    match m
    case OverlayTransport(t) =>
      TransportStands(c, buffer, at, t);
    case Ping(sender, isResponse) =>
      PingStands(buffer, at, sender, isResponse);
    case Aggregation(_, _, _, _) =>
      AggregationStands(c, buffer, at, m);
  }

  lemma SizeWithFirst(c: RecordCodec, ms: seq<Message>, k: nat)
    requires 0 < k <= |ms|
    ensures AllSize(c, ms[..k]) == MessageSize(c, ms[0]) + AllSize(c, ms[1..][..k - 1])
    ensures k < |ms| ==> ms[1..][k - 1] == ms[k]
  {
    assert ms[..k][1..] == ms[1..][..k - 1];
  }

  lemma PeelFirst(c: RecordCodec, buffer: seq<Byte>, at: nat, ms: seq<Message>) returns (next: nat)
    requires c.Lawful() && ms != [] && At(buffer, at, AllBytes(c, ms))
    ensures next == at + MessageSize(c, ms[0])
    ensures At(buffer, at, MessageBytes(c, ms[0])) && At(buffer, next, AllBytes(c, ms[1..]))
  {
    next := at + MessageSize(c, ms[0]);
    MessageSizeIsLength(c, ms[0]);
    Behind(buffer, at, MessageBytes(c, ms[0]), AllBytes(c, ms[1..]), next);
  }

  lemma {:induction false} MessagesStand(c: RecordCodec, buffer: seq<Byte>, at: nat, ms: seq<Message>, k: nat)
    requires c.Lawful() && k < |ms| && At(buffer, at, AllBytes(c, ms))
    ensures At(buffer, at + AllSize(c, ms[..k]), MessageBytes(c, ms[k]))
    decreases k
  {
    var next := PeelFirst(c, buffer, at, ms);
    if k > 0 {
      SizeWithFirst(c, ms, k);
      MessagesStand(c, buffer, next, ms[1..], k - 1);
    }
  }

  lemma LengthsStand(buffer: seq<Byte>, length: nat, count: nat, rest: seq<Byte>)
    requires length < 0x1_0000_0000_0000_0000 && count < 0x1_0000_0000_0000_0000
    requires buffer == Little(length, 8) + (Little(count, 8) + rest)
    ensures LongAt(buffer, 0, length) && LongAt(buffer, 8, count) && At(buffer, 16, rest)
  {
    assert buffer[0..] == buffer;
    Peel(buffer, 0, Little(length, 8), Little(count, 8) + rest);
    Peel(buffer, 8, Little(count, 8), rest);
    LongStands(buffer, 0, length);
    LongStands(buffer, 8, count);
  }

  /** Message k stands behind the two length fields and the messages before it. */
  ghost predicate StandsBehind(c: RecordCodec, buffer: seq<Byte>, ms: seq<Message>, k: nat)
    requires k < |ms|
  {
    MessageAt(c, buffer, 16 + AllSize(c, ms[..k]), ms[k])
  }

  lemma EachStands(c: RecordCodec, buffer: seq<Byte>, ms: seq<Message>, k: nat)
    requires c.Lawful() && k < |ms| && At(buffer, 16, AllBytes(c, ms)) && MessageWellFormed(ms[k])
    ensures StandsBehind(c, buffer, ms, k)
  {
    MessagesStand(c, buffer, 16, ms, k);
    MessageStands(c, buffer, 16 + AllSize(c, ms[..k]), ms[k]);
  }

  /** What Send puts into its buffer: the length of the rest in eight bytes, the number of messages in eight bytes, and
      the messages one behind the other. */
  lemma BatchStands(c: RecordCodec, buffer: seq<Byte>, ms: seq<Message>)
    requires c.Lawful() && |buffer| < 0x1_0000_0000_0000_0000 && |ms| < 0x1_0000_0000_0000_0000
    requires buffer == Little(|BatchBytes(c, ms)|, 8) + BatchBytes(c, ms)
    requires forall k :: 0 <= k < |ms| ==> MessageWellFormed(ms[k])
    ensures LongAt(buffer, 0, |buffer| - 8) && LongAt(buffer, 8, |ms|)
    ensures |buffer| == 16 + AllSize(c, ms)
    ensures forall k: nat :: k < |ms| ==> StandsBehind(c, buffer, ms, k)
  {
    LengthsStand(buffer, |BatchBytes(c, ms)|, |ms|, AllBytes(c, ms));
    AllSizeIsLength(c, ms);
    forall k: nat | k < |ms| ensures StandsBehind(c, buffer, ms, k) {
      EachStands(c, buffer, ms, k);
    }
  }
}
