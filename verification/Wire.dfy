/** How the messages of the overlay look as message bodies, with the enclosed body of a locked message as ciphertext. */
module Wire {
  import opened Bytes
  import opened Codec
  import opened NumberTheory
  import opened Results
  import Messages

  /** Envelope encryption for a node, and decryption with a node's own key, which fails on another's ciphertext. */
  datatype Keys = Keys(seal: (int, seq<Byte>) -> seq<Byte>, open: (int, seq<Byte>) -> Option<seq<Byte>>) {
    ghost predicate Opens(owner: int, node: int, plain: seq<Byte>) {
      open(node, seal(owner, plain)) == if node == owner then Some(plain) else None
    }

    ghost predicate Lawful() {
      forall owner, node, plain :: Opens(owner, node, plain)
    }
  }

  /** What the byte form depends on: record type, keys, query number, and the body a payload travels as. */
  datatype Medium = Medium(c: RecordCodec, keys: Keys, queryNum: Int32, carry: Messages.Payload -> Body) {
    ghost predicate Carries(p: Messages.Payload, p': Messages.Payload) {
      && WellFormed(carry(p)) && !carry(p).Overlay? && !carry(p).PathOverlay?
      && (carry(p) == carry(p') ==> p == p')
    }

    ghost predicate Lawful() {
      c.Lawful() && keys.Lawful() && forall p, p' :: Carries(p, p')
    }
  }

  predicate IsInt32(x: int) {
    -0x8000_0000 <= x < 0x8000_0000
  }

  predicate AllInt32(xs: seq<int>) {
    forall k :: 0 <= k < |xs| ==> IsInt32(xs[k])
  }

  function Sealed(md: Medium, m: Messages.Message): seq<Byte>
    requires m.lock.For?
    decreases m, 1
  {
    if Inner(md, m).None? then [] else md.keys.seal(m.lock.owner, BodyBytes(md.c, Inner(md, m).value))
  }

  /** Ids are 32-bit, lists short enough for their count, nothing is locked that is not there. */
  ghost predicate Fits(md: Medium, m: Messages.Message) {
    && IsInt32(m.destination)
    && (m.lock.For? ==> m.body != Messages.Empty && |Sealed(md, m)| < 0x8000_0000)
    && (m.PathOverlay? ==> |m.remainingPath| < 0x8000_0000 && AllInt32(m.remainingPath))
    && (m.body.Encloses? ==> Fits(md, m.body.inner))
  }

  function ToInt32(x: int): Int32 {
    if IsInt32(x) then x else 0
  }

  function ToInt32s(xs: seq<int>): (r: seq<Int32>)
    ensures |r| == |xs| && forall k :: 0 <= k < |xs| ==> r[k] == ToInt32(xs[k])
  {
    seq(|xs|, k requires 0 <= k < |xs| => ToInt32(xs[k]))
  }

  /** The body a message encloses, before any encryption. */
  function Inner(md: Medium, m: Messages.Message): Option<Body>
    decreases m, 0
  {
    match m.body
    case Empty => None
    case Carries(p) => Some(md.carry(p))
    case Encloses(inner) => Some(OnWire(md, inner))
  }

  function Enclosed(md: Medium, m: Messages.Message): Option<Body>
    decreases m, 2
  {
    if m.lock.Plain? || Inner(md, m).None? then Inner(md, m) else Some(ByteBody(Sealed(md, m)))
  }

  function OnWire(md: Medium, m: Messages.Message): Body
    decreases m, 3
  {
    var e := Envelope(md.queryNum, ToInt32(m.destination), m.lock.For?, m.flood, Enclosed(md, m));
    match m
    case Overlay(_, _, _, _) => Overlay(e)
    case PathOverlay(_, _, _, _, path) => PathOverlay(ToInt32s(path), e)
  }

  lemma CarriedIsNoMessage(md: Medium, m: Messages.Message)
    requires md.Lawful() && m.body.Carries?
    ensures var b := Inner(md, m).value; !b.Overlay? && !b.PathOverlay?
  {
    assert md.Carries(m.body.payload, m.body.payload);
  }

  lemma EnclosedIsWellFormed(md: Medium, m: Messages.Message)
    requires Fits(md, m) && (Inner(md, m).Some? ==> WellFormed(Inner(md, m).value))
    ensures WellFormed(OnWire(md, m))
  {
    var b := OnWire(md, m);
    assert b.envelope.enclosed == Enclosed(md, m);
    assert EnvelopeWellFormed(b.envelope);
  }

  lemma {:induction false} OnWireIsWellFormed(md: Medium, m: Messages.Message)
    requires md.Lawful() && Fits(md, m)
    ensures WellFormed(OnWire(md, m))
    ensures Inner(md, m).Some? ==> WellFormed(Inner(md, m).value)
    decreases m, 1
  {
    match m.body {
      case Empty =>
      case Carries(p) =>
        assert md.Carries(p, p);
      case Encloses(inner) =>
        OnWireIsWellFormed(md, inner);
    }
    EnclosedIsWellFormed(md, m);
  }

  lemma BytesDetermineBody(c: RecordCodec, a: Body, b: Body)
    requires c.Lawful() && WellFormed(a) && WellFormed(b) && BodyBytes(c, a) == BodyBytes(c, b)
    ensures a == b
  {
    assert BodyBytes(c, a) + [] == BodyBytes(c, b) + [];
    PrefixCode(c, a, b, [], []);
  }

  /** Decrypting the enclosed bytes of a locked message succeeds exactly when the message opens; the plaintext is then
      the byte form of what the decrypted message encloses, and of no other body. */
  lemma DecryptionIsOpening(md: Medium, m: Messages.Message, node: int, b: Body)
    requires md.Lawful() && Fits(md, m) && m.lock.For? && WellFormed(b)
    ensures OnWire(md, m).envelope.enclosed == Some(ByteBody(Sealed(md, m)))
    ensures var plain := md.keys.open(node, Sealed(md, m));
            && (plain.Some? <==> Messages.Opens(m, node))
            && (plain.Some? ==>
                  (plain.value == BodyBytes(md.c, b) <==>
                   OnWire(md, Messages.Decrypt(m, node)).envelope.enclosed == Some(b)))
  {
    assert Inner(md, m).Some?;
    assert md.keys.Opens(m.lock.owner, node, BodyBytes(md.c, Inner(md, m).value));
    OnWireIsWellFormed(md, m);
    if m.lock.owner == node {
      assert Inner(md, Messages.Decrypt(m, node)) == Inner(md, m);
      if BodyBytes(md.c, b) == BodyBytes(md.c, Inner(md, m).value) {
        BytesDetermineBody(md.c, b, Inner(md, m).value);
      }
    }
  }

  lemma SameSeal(keys: Keys, i: int, j: int, a: seq<Byte>, b: seq<Byte>)
    requires keys.Lawful() && keys.seal(i, a) == keys.seal(j, b)
    ensures i == j && a == b
  {
    assert keys.Opens(i, i, a) && keys.Opens(j, i, b);
  }

  lemma SamePath(xs: seq<int>, ys: seq<int>)
    requires ToInt32s(xs) == ToInt32s(ys) && AllInt32(xs) && AllInt32(ys)
    ensures xs == ys
  {
    assert |xs| == |ToInt32s(xs)| == |ys|;
    forall k | 0 <= k < |xs| ensures xs[k] == ys[k] {
      assert ToInt32s(xs)[k] == xs[k] && ToInt32s(ys)[k] == ys[k];
    }
  }

  /** The byte form loses nothing: two messages of one query with the same byte form are the same message. */
  lemma {:induction false} WireLosesNothing(md: Medium, m: Messages.Message, m': Messages.Message)
    requires md.Lawful() && Fits(md, m) && Fits(md, m') && OnWire(md, m) == OnWire(md, m')
    ensures m == m'
    decreases m, 1
  {
    assert Enclosed(md, m) == Enclosed(md, m');
    OnWireIsWellFormed(md, m);
    OnWireIsWellFormed(md, m');
    if m.lock.For? {
      SameSeal(md.keys, m.lock.owner, m'.lock.owner, BodyBytes(md.c, Inner(md, m).value),
               BodyBytes(md.c, Inner(md, m').value));
      BytesDetermineBody(md.c, Inner(md, m).value, Inner(md, m').value);
    }
    SameInner(md, m, m');
    if m.PathOverlay? {
      SamePath(m.remainingPath, m'.remainingPath);
    }
  }

  lemma {:induction false} SameInner(md: Medium, m: Messages.Message, m': Messages.Message)
    requires md.Lawful() && Fits(md, m) && Fits(md, m') && Inner(md, m) == Inner(md, m')
    ensures m.body == m'.body
    decreases m, 0
  {
    match m.body
    case Empty =>
    case Carries(p) =>
      assert md.Carries(p, if m'.body.Carries? then m'.body.payload else p);
    case Encloses(inner) =>
      if m'.body.Carries? {
        CarriedIsNoMessage(md, m');
      } else {
        WireLosesNothing(md, inner, m'.body.inner);
      }
  }

  lemma SameTransportHeader(t: Transport, u: Transport)
    requires TransportHeader(t) == TransportHeader(u)
    ensures t.senderRound == u.senderRound && t.isFinal == u.isFinal && t.sender == u.sender
  {
    var h := TransportHeader(t);
    assert h[2..6] == IntBytes(t.senderRound) == IntBytes(u.senderRound);
    assert h[6] == BoolBytes(t.isFinal)[0] == BoolBytes(u.isFinal)[0];
    assert h[7..11] == IntBytes(t.sender) == IntBytes(u.sender);
    assert IntBytes(t.senderRound)[0..] == IntBytes(t.senderRound);
    assert IntBytes(t.sender)[0..] == IntBytes(t.sender);
    SameInt(IntBytes(t.senderRound), 0, t.senderRound, u.senderRound);
    SameInt(IntBytes(t.sender), 0, t.sender, u.sender);
  }

  lemma SameTransport(c: RecordCodec, t: Transport, u: Transport, x: seq<Byte>, y: seq<Byte>)
    requires c.Lawful() && TransportWellFormed(t) && TransportWellFormed(u)
    requires TransportBytes(c, t) + x == TransportBytes(c, u) + y
    ensures t == u && x == y
  {
    var all := TransportBytes(c, t) + x;
    assert all[..11] == TransportHeader(t) && all[..11] == TransportHeader(u);
    SameTransportHeader(t, u);
    assert all[11..] == BodyBytes(c, t.body) + x && all[11..] == BodyBytes(c, u.body) + y;
    PrefixCode(c, t.body, u.body, x, y);
  }

  /** Overlay messages as they are sent: each one of the messages of a batch. */
  function Sent(ts: seq<Transport>): (r: seq<Message>)
    ensures |r| == |ts| && forall k :: 0 <= k < |ts| ==> r[k] == OverlayTransport(ts[k])
  {
    seq(|ts|, k requires 0 <= k < |ts| => OverlayTransport(ts[k]))
  }

  lemma AllSentIs(c: RecordCodec, ts: seq<Transport>)
    requires ts != []
    ensures AllBytes(c, Sent(ts)) == TransportBytes(c, ts[0]) + AllBytes(c, Sent(ts[1..]))
  {
    assert Sent(ts)[1..] == Sent(ts[1..]);
  }

  lemma {:induction false} SameAll(c: RecordCodec, ts: seq<Transport>, us: seq<Transport>)
    requires c.Lawful() && |ts| == |us| && AllBytes(c, Sent(ts)) == AllBytes(c, Sent(us))
    requires forall k :: 0 <= k < |ts| ==> TransportWellFormed(ts[k])
    requires forall k :: 0 <= k < |us| ==> TransportWellFormed(us[k])
    ensures ts == us
    decreases |ts|
  {
    if ts != [] {
      AllSentIs(c, ts);
      AllSentIs(c, us);
      SameTransport(c, ts[0], us[0], AllBytes(c, Sent(ts[1..])), AllBytes(c, Sent(us[1..])));
      SameAll(c, ts[1..], us[1..]);
      assert ts == [ts[0]] + ts[1..] && us == [us[0]] + us[1..];
    }
  }

  lemma SameBatch(c: RecordCodec, ts: seq<Transport>, us: seq<Transport>)
    requires c.Lawful() && |ts| < Pow(256, 8) && |us| < Pow(256, 8)
    requires BatchBytes(c, Sent(ts)) == BatchBytes(c, Sent(us))
    requires forall k :: 0 <= k < |ts| ==> TransportWellFormed(ts[k])
    requires forall k :: 0 <= k < |us| ==> TransportWellFormed(us[k])
    ensures ts == us
  {
    var b := BatchBytes(c, Sent(ts));
    assert b[..8] == Little(|ts|, 8) == Little(|us|, 8);
    assert b[8..] == AllBytes(c, Sent(ts)) == AllBytes(c, Sent(us));
    assert Little(|ts|, 8)[0..] == Little(|ts|, 8);
    SameNat(Little(|ts|, 8), 0, 8, |ts|, |us|);
    SameAll(c, ts, us);
  }

  ghost predicate TransportFits(md: Medium, t: Messages.Transport) {
    IsInt32(t.sender) && IsInt32(t.round) && Fits(md, t.message)
  }

  /** A transport message as it is written to the network. */
  function TransportOnWire(md: Medium, t: Messages.Transport): Transport {
    Transport(ToInt32(t.round), t.isFinal, ToInt32(t.sender), OnWire(md, t.message))
  }

  function BatchOnWire(md: Medium, ts: seq<Messages.Transport>): (r: seq<Transport>)
    ensures |r| == |ts| && forall k :: 0 <= k < |ts| ==> r[k] == TransportOnWire(md, ts[k])
  {
    seq(|ts|, k requires 0 <= k < |ts| => TransportOnWire(md, ts[k]))
  }

  /** So whoever receives the bytes of a batch can tell exactly which messages were sent. */
  lemma BatchLosesNothing(md: Medium, ts: seq<Messages.Transport>, ts': seq<Messages.Transport>)
    requires md.Lawful() && |ts| < Pow(256, 8) && |ts'| < Pow(256, 8)
    requires forall k :: 0 <= k < |ts| ==> TransportFits(md, ts[k])
    requires forall k :: 0 <= k < |ts'| ==> TransportFits(md, ts'[k])
    requires BatchBytes(md.c, Sent(BatchOnWire(md, ts))) == BatchBytes(md.c, Sent(BatchOnWire(md, ts')))
    ensures ts == ts'
  {
    forall k | 0 <= k < |ts| ensures TransportWellFormed(BatchOnWire(md, ts)[k]) {
      OnWireIsWellFormed(md, ts[k].message);
    }
    forall k | 0 <= k < |ts'| ensures TransportWellFormed(BatchOnWire(md, ts')[k]) {
      OnWireIsWellFormed(md, ts'[k].message);
    }
    SameBatch(md.c, BatchOnWire(md, ts), BatchOnWire(md, ts'));
    forall k | 0 <= k < |ts| ensures ts[k] == ts'[k] {
      assert TransportOnWire(md, ts[k]) == BatchOnWire(md, ts)[k] == BatchOnWire(md, ts')[k];
      WireLosesNothing(md, ts[k].message, ts'[k].message);
    }
  }
}
