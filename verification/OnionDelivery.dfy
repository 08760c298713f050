/** Onions follow the path the path finder planned, in the rounds it planned. */
module OnionDelivery {
  import opened Overlay
  import opened PathSpec
  import opened PathFinder
  import opened Messages
  import opened ProtocolSpec
  import opened LockStep
  import opened RoundSystem

  // ----- Lists of leaving and staying messages -----

  lemma {:induction false} LeavesOrStays(ms: seq<Message>, m: Message, target: int, floods: bool)
    requires m in ms
    ensures Leaves(m, target, floods) ==> m in Leaving(ms, target, floods)
    ensures !Leaves(m, target, floods) ==> m in Staying(ms, target, floods)
    decreases |ms|
  {
    if m != ms[|ms| - 1] {
      LeavesOrStays(ms[..|ms| - 1], m, target, floods);
    }
  }

  ghost predicate Contains(b: Batch, m: Message) {
    exists k :: 0 <= k < |b.messages| && b.messages[k].message == m
  }

  /** The message waits at node i when round t starts. */
  ghost predicate Pending(w: World, i: int, t: nat, m: Message)
    requires w.Valid()
  {
    m in w.Sending(i, t).waiting || m in w.Sending(i, t).outgoing
  }

  lemma ReadyIsSent(cfg: Config, i: int, c: Core, m: Message)
    requires cfg.Valid() && c.round >= 0 && m in ReadyMessages(cfg, i, c)
    ensures Contains(BatchOf(cfg, i, c), m)
  {
    var ready := ReadyMessages(cfg, i, c);
    var k :| 0 <= k < |ready| && ready[k] == m;
    WrapShape(ready, i, c.round);
    assert BatchOf(cfg, i, c).messages[k].message == m;
  }

  /** A waiting message leaves in a round whose gossip target is its next hop, and waits on otherwise. */
  lemma SendOrHold(w: World, i: int, t: nat, m: Message)
    requires w.Valid() && Pending(w, i, t, m) && !m.flood
    ensures m.destination == Target(i, t, w.cfg.n) ==> Contains(w.SentBatch(i, t), m)
    ensures m.destination != Target(i, t, w.cfg.n) ==> m in w.Waiting(i, t).waiting
  {
    var c, target := w.Sending(i, t), Target(i, t, w.cfg.n);
    if m in c.waiting {
      LeavesOrStays(c.waiting, m, target, false);
    } else {
      LeavesOrStays(c.outgoing, m, target, true);
    }
    if m.destination == target {
      ReadyIsSent(w.cfg, i, c, m);
    }
  }

  /** Receiving only adds to what waits and to the contributions. */
  lemma {:induction false} DeliveryAdds(cfg: Config, me: int, c: Core, ts: seq<Transport>, m: Message)
    ensures var r := DeliverAll(cfg, me, c, ts);
            (m in c.waiting ==> m in r.waiting) && c.contributions <= r.contributions
    decreases |ts|
  {
    if ts != [] {
      DeliveryAdds(cfg, me, Deliver(cfg, me, c, ts[0].message), ts[1..], m);
    }
  }

  lemma WaitingStaysPending(w: World, i: int, t: nat, m: Message)
    requires w.Valid() && (m in w.Waiting(i, t).waiting || m in w.Handled(i, t).waiting)
    ensures Pending(w, i, t + 1, m)
  {
    DeliveryAdds(w.cfg, i, w.Waiting(i, t), w.Incoming(i, t).messages, m);
  }

  ghost predicate HeldIn(w: World, i: int, t: nat, m: Message)
    requires w.Valid()
  {
    m in w.Waiting(i, t).waiting
  }

  ghost predicate Held(w: World, i: int, from: int, until: int, m: Message)
    requires w.Valid()
  {
    forall u: nat :: from <= u < until ==> HeldIn(w, i, u, m)
  }

  lemma HeldOnce(w: World, i: int, t: nat, m: Message)
    requires w.Valid() && Pending(w, i, t, m) && !m.flood && Target(i, t, w.cfg.n) != m.destination
    ensures HeldIn(w, i, t, m) && Pending(w, i, t + 1, m)
  {
    SendOrHold(w, i, t, m);
    WaitingStaysPending(w, i, t, m);
  }

  /** A pending message waits through every round whose gossip target is not its next hop. */
  lemma {:induction false} HeldUntil(w: World, i: int, from: nat, t: nat, m: Message)
    requires w.Valid() && Pending(w, i, from, m) && !m.flood && from <= t
    requires forall u: nat :: from <= u < t ==> Target(i, u, w.cfg.n) != m.destination
    ensures Pending(w, i, t, m)
    ensures Held(w, i, from, t, m)
    decreases t - from
  {
    if from < t {
      var last := t - 1;
      HeldUntil(w, i, from, last, m);
      HeldOnce(w, i, last, m);
    }
  }

  lemma AliveBefore(cfg: Config, me: int, c: Core, ts: seq<Transport>)
    requires DeliverAll(cfg, me, c, ts).Alive()
    ensures c.Alive()
  {
    DeliverAllKeepsSchedule(cfg, me, c, ts);
  }

  /** A layer addressed to its receiver is opened: an inner layer waits, a payload reaches the phase handler. */
  lemma {:induction false} LayerOpened(cfg: Config, me: int, c: Core, ts: seq<Transport>, body: Body)
    requires DeliverAll(cfg, me, c, ts).Alive()
    requires exists k :: 0 <= k < |ts| && ts[k].message == Overlay(me, For(me), false, body)
    ensures var r := DeliverAll(cfg, me, c, ts);
            && (body.Encloses? ==> body.inner in r.waiting)
            && (body.Carries? && c.phase == Shuffle && cfg.script.verifies(body.payload) ==>
                 body.payload in r.contributions)
    decreases |ts|
  {
    var next := Deliver(cfg, me, c, ts[0].message);
    AliveBefore(cfg, me, next, ts[1..]);
    DeliverKeepsSchedule(cfg, me, c, ts[0].message);
    if ts[0].message == Overlay(me, For(me), false, body) {
      DeliveryAdds(cfg, me, next, ts[1..], if body.Encloses? then body.inner else ts[0].message);
    } else {
      var k :| 0 <= k < |ts| && ts[k].message == Overlay(me, For(me), false, body);
      assert ts[1..][k - 1] == ts[k];
      LayerOpened(cfg, me, next, ts[1..], body);
    }
  }

  // ----- One onion along one path -----

  /** The layer addressed to hop m of a path, and what it encloses. */
  function Layer(h: seq<Hop>, m: nat, payload: Payload): Message
    requires 1 <= m < |h|
  {
    Onion(Nodes(h)[m..], payload)
  }

  /** Onions are locked throughout for the hops they go to. */
  lemma {:induction false} OnionIsAddressed(path: seq<int>, payload: Payload)
    requires path != []
    ensures Addressed(Onion(path, payload))
    decreases |path|
  {
    if |path| > 1 {
      OnionIsAddressed(path[1..], payload);
    }
  }

  lemma LayerShape(h: seq<Hop>, m: nat, payload: Payload)
    requires 1 <= m < |h|
    ensures var x := h[m].node;
            Layer(h, m, payload) ==
            Overlay(x, For(x), false,
                    if m == |h| - 1 then Carries(payload) else Encloses(Layer(h, m + 1, payload)))
  {
    assert Nodes(h)[m..][1..] == Nodes(h)[m + 1..];
  }

  /** The layer for hop m waits at hop m - 1 from the round in which that hop was planned. */
  ghost predicate LayerReady(w: World, h: seq<Hop>, m: nat, payload: Payload)
    requires w.Valid() && 1 <= m < |h|
  {
    h[m - 1].round >= 0 && Pending(w, h[m - 1].node, h[m - 1].round, Layer(h, m, payload))
  }

  /** The layer for hop m arrives there in exactly the round in which the infection reached it. */
  ghost predicate LayerArrives(w: World, h: seq<Hop>, m: nat, payload: Payload)
    requires w.Valid() && 1 <= m < |h|
  {
    h[m].round >= 1 && Contains(w.Incoming(h[m].node, h[m].round - 1), Layer(h, m, payload))
  }

  lemma BatchReaches(w: World, i: int, j: int, t: nat, m: Message)
    requires w.Valid() && w.IsNode(i) && w.IsNode(j) && Target(i, t, w.cfg.n) == j && Contains(w.SentBatch(i, t), m)
    ensures Contains(w.Incoming(j, t), m)
  {
    GossipInverse(i, j, t, w.cfg.n);
  }

  ghost predicate HopAlive(w: World, hop: Hop)
    requires w.Valid()
  {
    hop.round >= 1 && w.Handled(hop.node, hop.round - 1).Alive()
  }

  /** The nodes of a path, from hop 1 on, are still alive after the rounds in which they are reached. */
  ghost predicate HopsAlive(w: World, h: seq<Hop>)
    requires w.Valid()
  {
    forall m :: 1 <= m < |h| ==> HopAlive(w, h[m])
  }

  /** A hop that receives a layer addressed to it keeps what the layer encloses. */
  lemma InnerLayerWaits(w: World, j: int, t: nat, inner: Message)
    requires w.Valid() && w.Handled(j, t).Alive()
    requires Contains(w.Incoming(j, t), Overlay(j, For(j), false, Encloses(inner)))
    ensures Pending(w, j, t + 1, inner)
  {
    LayerOpened(w.cfg, j, w.Waiting(j, t), w.Incoming(j, t).messages, Encloses(inner));
    WaitingStaysPending(w, j, t, inner);
  }

  /** From round `from` on node i gossips to j for the first time in round t. */
  ghost predicate FirstMeets(i: int, j: int, from: int, t: nat, n: nat)
    requires n > 0
  {
    from <= t && Target(i, t, n) == j && forall u: nat :: from <= u < t ==> Target(i, u, n) != j
  }

  /** On a route no hop meets the next one before the planned round. */
  lemma NoEarlierMeeting(s: Search, h: seq<Hop>, k: nat, m: nat, i: int, j: int, t: nat)
    requires s.Valid() && 1 <= m < |h| - 1 && IsRoute(s, h[..|h| - 1], k)
    requires i == h[m - 1].node && j == h[m].node && t == h[m].round - 1 && IsEdge(h[m - 1], h[m], s.n)
    ensures FirstMeets(i, j, h[m - 1].round, t, s.n)
  {
    forall u: nat | h[m - 1].round <= u < t ensures Target(i, u, s.n) != j {
      RouteTakesFirstOpportunity(s, h[..|h| - 1], k, m, u);
    }
  }

  /** A message waits until the first meeting with its next hop, which then receives it. */
  lemma SentAsPlanned(w: World, i: int, j: int, from: nat, t: nat, m: Message)
    requires w.Valid() && w.IsNode(i) && w.IsNode(j) && FirstMeets(i, j, from, t, w.cfg.n)
    requires Pending(w, i, from, m) && !m.flood && m.destination == j
    ensures Held(w, i, from, t, m) && Contains(w.SentBatch(i, t), m) && Contains(w.Incoming(j, t), m)
  {
    HeldUntil(w, i, from, t, m);
    SendOrHold(w, i, t, m);
    BatchReaches(w, i, j, t, m);
  }

  /** A layer waits until the first meeting with its hop, which then keeps what the layer encloses. */
  lemma LayerForwarded(w: World, i: int, j: int, from: nat, t: nat, m: Message, inner: Message)
    requires w.Valid() && w.IsNode(i) && w.IsNode(j) && FirstMeets(i, j, from, t, w.cfg.n)
    requires Pending(w, i, from, m) && m == Overlay(j, For(j), false, Encloses(inner)) && w.Handled(j, t).Alive()
    ensures Held(w, i, from, t, m) && Contains(w.SentBatch(i, t), m) && Contains(w.Incoming(j, t), m)
    ensures Pending(w, j, t + 1, inner)
  {
    SentAsPlanned(w, i, j, from, t, m);
    InnerLayerWaits(w, j, t, inner);
  }

  /** From hop m - 1 to an intermediate hop m: held in every round before, sent in exactly the planned round. */
  lemma OneHop(w: World, s: Search, h: seq<Hop>, k: nat, m: nat, payload: Payload)
    requires w.Valid() && s.Valid() && s.n == w.cfg.n
    requires IsTemporalPath(h, s.n) && 1 <= m < |h| - 1 && IsRoute(s, h[..|h| - 1], k)
    requires LayerReady(w, h, m, payload) && HopAlive(w, h[m])
    ensures Held(w, h[m - 1].node, h[m - 1].round, h[m].round - 1, Layer(h, m, payload))
    ensures h[m].round >= 1 && Contains(w.SentBatch(h[m - 1].node, h[m].round - 1), Layer(h, m, payload))
    ensures LayerArrives(w, h, m, payload) && LayerReady(w, h, m + 1, payload)
  {
    var layer, i, j, t := Layer(h, m, payload), h[m - 1].node, h[m].node, h[m].round - 1;
    assert IsEdge(h[m - 1], h[m], s.n);
    LayerShape(h, m, payload);
    NoEarlierMeeting(s, h, k, m, i, j, t);
    LayerForwarded(w, i, j, h[m - 1].round, t, layer, Layer(h, m + 1, payload));
  }

  /** The node starts its shuffle with the message. */
  ghost predicate Launched(w: World, i: int, m: Message) {
    w.onions(i).Some? && m in w.onions(i).value
  }

  lemma PendingAtStart(w: World, i: int, m: Message)
    requires w.Valid() && Launched(w, i, m)
    ensures Pending(w, i, 0, m)
  {
  }

  lemma FirstLayerReady(w: World, s: Search, h: seq<Hop>, k: nat, payload: Payload)
    requires w.Valid() && s.Valid() && s.start == 0 && |h| >= 2 && IsRoute(s, h[..|h| - 1], k)
    requires Launched(w, s.source, Layer(h, 1, payload))
    ensures LayerReady(w, h, 1, payload)
  {
    assert h[..|h| - 1][0] == h[0];
    PendingAtStart(w, s.source, Layer(h, 1, payload));
  }

  /** Every intermediate node gets its layer in exactly the round the infection reached it. */
  lemma {:induction false} LayersArriveAsPlanned(w: World, s: Search, h: seq<Hop>, k: nat, m: nat, payload: Payload)
    requires w.Valid() && s.Valid() && s.n == w.cfg.n && s.start == 0
    requires IsTemporalPath(h, s.n) && 1 <= m < |h| && IsRoute(s, h[..|h| - 1], k)
    requires HopsAlive(w, h) && Launched(w, s.source, Layer(h, 1, payload))
    ensures LayerReady(w, h, m, payload)
    ensures m > 1 ==> LayerArrives(w, h, m - 1, payload)
    decreases m
  {
    if m == 1 {
      FirstLayerReady(w, s, h, k, payload);
    } else {
      LayersArriveAsPlanned(w, s, h, k, m - 1, payload);
      assert HopAlive(w, h[m - 1]);
      OneHop(w, s, h, k, m - 1, payload);
    }
  }

  /** The target gets the last layer in the first fitting round, no later than planned. */
  lemma {:induction false} FirstMeeting(i: int, j: int, from: nat, until: nat, n: nat) returns (t: nat)
    requires n > 0 && from <= until && Target(i, until, n) == j
    ensures from <= t <= until && FirstMeets(i, j, from, t, n)
    decreases until - from
  {
    if Target(i, from, n) == j {
      t := from;
    } else {
      t := FirstMeeting(i, j, from + 1, until, n);
    }
  }

  lemma HandledEarlier(w: World, j: int, t: nat, u: nat)
    requires w.Valid() && t <= u && w.Handled(j, u).Alive()
    ensures w.Handled(j, t).Alive() && w.Waiting(j, t).Alive()
  {
    WaitedBefore(w, j, u);
    if t < u {
      AliveEarlier(w, j, t, u);
    }
  }

  /** A target that receives its layer, and stays alive, hands the payload to its phase. */
  lemma LastLayerOpened(w: World, j: int, t: nat, u: nat, payload: Payload)
    requires w.Valid() && t <= u && w.Handled(j, u).Alive()
    requires Contains(w.Incoming(j, t), Overlay(j, For(j), false, Carries(payload)))
    ensures w.Waiting(j, t).phase == Shuffle && w.cfg.script.verifies(payload) ==>
              payload in w.Handled(j, t).contributions
  {
    HandledEarlier(w, j, t, u);
    LayerOpened(w.cfg, j, w.Waiting(j, t), w.Incoming(j, t).messages, Carries(payload));
  }

  lemma LastHop(w: World, h: seq<Hop>, payload: Payload) returns (t: nat)
    requires w.Valid() && IsTemporalPath(h, w.cfg.n) && |h| >= 2 && LayerReady(w, h, |h| - 1, payload)
    ensures var target := h[|h| - 1].node;
            && t < h[|h| - 1].round
            && Contains(w.Incoming(target, t), Overlay(target, For(target), false, Carries(payload)))
  {
    var m := |h| - 1;
    LayerShape(h, m, payload);
    assert IsEdge(h[m - 1], h[m], w.cfg.n);
    t := FirstMeeting(h[m - 1].node, h[m].node, h[m - 1].round, h[m].round - 1, w.cfg.n);
    SentAsPlanned(w, h[m - 1].node, h[m].node, h[m - 1].round, t, Layer(h, m, payload));
  }

  /** An onion along any route delivers its payload to the end of the path, no later than planned. */
  lemma OnionArrives(w: World, s: Search, h: seq<Hop>, k: nat, payload: Payload) returns (t: nat)
    requires w.Valid() && s.Valid() && s.n == w.cfg.n && s.start == 0
    requires IsTemporalPath(h, s.n) && |h| >= 2 && IsRoute(s, h[..|h| - 1], k)
    requires HopsAlive(w, h) && Launched(w, s.source, Layer(h, 1, payload))
    ensures var target := h[|h| - 1].node;
            && t < h[|h| - 1].round
            && Contains(w.Incoming(target, t), Overlay(target, For(target), false, Carries(payload)))
            && (w.Waiting(target, t).phase == Shuffle && w.cfg.script.verifies(payload) ==>
                  payload in w.Handled(target, t).contributions)
  {
    LayersArriveAsPlanned(w, s, h, k, |h| - 1, payload);
    t := LastHop(w, h, payload);
    assert HopAlive(w, h[|h| - 1]);
    LastLayerOpened(w, h[|h| - 1].node, t, h[|h| - 1].round - 1, payload);
  }

  lemma TargetReached(w: World, s: Search, k: nat, payload: Payload) returns (t: nat)
    requires w.Valid() && s.Valid() && s.n == w.cfg.n && s.start == 0 && s.source != s.target && s.Arrives(k)
    requires HopsAlive(w, s.FullPath(k)) && Launched(w, s.source, Layer(s.FullPath(k), 1, payload))
    ensures t <= k && Contains(w.Incoming(s.target, t), Overlay(s.target, For(s.target), false, Carries(payload)))
    ensures w.Waiting(s.target, t).phase == Shuffle && w.cfg.script.verifies(payload) ==>
              payload in w.Handled(s.target, t).contributions
  {
    FullPathIsGood(s, k);
    t := OnionArrives(w, s, s.FullPath(k), k, payload);
  }

  // ----- In every run -----

  lemma HandledKeepsContributions(w: World, j: int, u: nat)
    requires w.Valid()
    ensures w.Waiting(j, u).contributions <= w.Handled(j, u).contributions
  {
    DeliveryAdds(w.cfg, j, w.Waiting(j, u), w.Incoming(j, u).messages, Dummy(0));
  }

  lemma SendingKeepsContributions(w: World, j: int, u: nat)
    requires w.Valid()
    ensures w.Waiting(j, u + 1).contributions == w.Handled(j, u).contributions
  {
  }

  /** Contributions are never lost as rounds go by. */
  lemma {:induction false} ContributionsStay(w: World, j: int, t: nat, u: nat, p: Payload)
    requires w.Valid() && t < u && p in w.Handled(j, t).contributions
    ensures p in w.Waiting(j, u).contributions
    decreases u
  {
    var last := u - 1;
    if t < last {
      ContributionsStay(w, j, t, last, p);
      HandledKeepsContributions(w, j, last);
    }
    SendingKeepsContributions(w, j, last);
  }

  ghost predicate InShuffle(w: World, j: int, t: nat)
    requires w.Valid()
  {
    w.Waiting(j, t).phase == Shuffle && (w.Handled(j, t).Alive() ==> w.Handled(j, t).phase == Shuffle)
  }

  lemma HandledKeepsPhase(w: World, j: int, t: nat)
    requires w.Valid() && w.Waiting(j, t).phase == Shuffle
    ensures InShuffle(w, j, t)
  {
    DeliverAllKeepsSchedule(w.cfg, j, w.Waiting(j, t), w.Incoming(j, t).messages);
  }

  lemma ShuffleBegins(w: World, j: int)
    requires w.Valid() && w.Waiting(j, 0).Alive()
    ensures InShuffle(w, j, 0)
  {
    HandledKeepsPhase(w, j, 0);
  }

  lemma ShuffleGoesOn(w: World, j: int, t: nat)
    requires w.Valid() && 0 < t <= w.cfg.Span() && InShuffle(w, j, t - 1) && w.Handled(j, t - 1).Alive()
    ensures InShuffle(w, j, t)
  {
    HandledKeepsPhase(w, j, t);
  }

  /** In lock step the shuffle lasts through round S. */
  lemma {:induction false} ShuffleLasts(w: World, j: int, t: nat)
    requires w.Valid() && t <= w.cfg.Span() && w.Waiting(j, t).Alive()
    ensures InShuffle(w, j, t)
    decreases t
  {
    if t == 0 {
      ShuffleBegins(w, j);
    } else {
      AliveRoundBefore(w, j, t);
      ShuffleLasts(w, j, t - 1);
      ShuffleGoesOn(w, j, t);
    }
  }

  /** A node that has passed round t was still alive when it ended. */
  lemma PassedRoundAlive(w: World, s: System, j: int, t: nat)
    requires Inv(w, s) && w.IsNode(j) && t < s.nodes[j].core.round
    ensures w.Handled(j, t).Alive()
  {
    var c := s.nodes[j].core;
    assert InStep(w, s.delivered, j, s.nodes[j]);
    if c.isLast {
      HandledEarlier(w, j, t, w.LastRound());
    } else {
      AliveEarlier(w, j, t, c.round);
    }
  }

  /** Before an edge of a path can be taken, its first node has passed its own round. */
  lemma EdgePassed(w: World, s: System, a: Hop, b: Hop)
    requires Inv(w, s) && IsEdge(a, b, w.cfg.n) && w.IsNode(b.node) && s.nodes[b.node].core.round >= b.round
    ensures w.IsNode(a.node) && s.nodes[a.node].core.round >= a.round
  {
    PredecessorReached(w, s, b.node, b.round - 1);
    GossipInverse(a.node, b.node, b.round - 1, w.cfg.n);
  }

  /** Going back along a path whose target has passed its planned round, each hop has passed its own. */
  lemma {:induction false} HopsPassed(w: World, s: System, h: seq<Hop>, m: nat)
    requires Inv(w, s) && IsTemporalPath(h, w.cfg.n) && m < |h| && w.IsNode(h[|h| - 1].node)
    requires s.nodes[h[|h| - 1].node].core.round >= h[|h| - 1].round
    ensures w.IsNode(h[m].node) && s.nodes[h[m].node].core.round >= h[m].round
    decreases |h| - m
  {
    if m < |h| - 1 {
      HopsPassed(w, s, h, m + 1);
      assert IsEdge(h[m + 1 - 1], h[m + 1], w.cfg.n);
      EdgePassed(w, s, h[m], h[m + 1]);
    }
  }

  lemma HopsPassedAlive(w: World, s: System, h: seq<Hop>)
    requires Inv(w, s) && IsTemporalPath(h, w.cfg.n) && w.IsNode(h[|h| - 1].node)
    requires s.nodes[h[|h| - 1].node].core.round >= h[|h| - 1].round
    ensures HopsAlive(w, h)
  {
    forall m | 1 <= m < |h| ensures HopAlive(w, h[m]) {
      assert IsEdge(h[m - 1], h[m], w.cfg.n);
      HopsPassed(w, s, h, m);
      PassedRoundAlive(w, s, h[m].node, h[m].round - 1);
    }
  }

  lemma HeldByNode(w: World, run: seq<System>, a: nat, j: int, t: nat, p: Payload)
    requires IsRun(w, run) && a < |run| && run[a].AllAlive() && w.IsNode(j)
    requires t < run[a].nodes[j].core.round && p in w.Handled(j, t).contributions
    ensures p in run[a].nodes[j].core.contributions
  {
    RunsSimulateLockStep(w, run, a, j);
    var r := run[a].nodes[j].core.round;
    ContributionsStay(w, j, t, r, p);
    HandledKeepsContributions(w, j, r);
    RunKeepsInv(w, run, a);
  }

  /** In every failure-free run, as long as no node has crashed: once the target has passed the planned round it
      holds the contribution the onion carried, if the plan falls inside the shuffle. */
  lemma OnionsDeliverInEveryRun(w: World, run: seq<System>, a: nat, s: Search, limit: nat, payload: Payload)
    requires IsRun(w, run) && a < |run| && run[a].AllAlive()
    requires s.Valid() && s.n == w.cfg.n && s.start == 0 && s.source != s.target && w.cfg.script.verifies(payload)
    requires s.FindFrom(0, limit).Some?
    requires Launched(w, s.source, Onion(Nodes(s.FindFrom(0, limit).value)[1..], payload))
    ensures var path := s.FindFrom(0, limit).value;
            var planned := path[|path| - 1].round;
            var c := run[a].nodes[s.target].core;
            planned - 1 <= w.cfg.Span() && c.round >= planned ==> payload in c.contributions
  {
    FindIsExact(s, 0, limit);
    var k: nat :| k < limit && s.Arrives(k) && s.FindFrom(0, limit).value == s.FullPath(k);
    FullPathIsGood(s, k);
    var r := run[a].nodes[s.target].core.round;
    if k <= w.cfg.Span() && r >= k + 1 {
      RunKeepsInv(w, run, a);
      HopsPassedAlive(w, run[a], s.FullPath(k));
      var t := TargetReached(w, s, k, payload);
      PassedRoundAlive(w, run[a], s.target, t);
      AliveThrough(w, s.target, t);
      ShuffleLasts(w, s.target, t);
      HeldByNode(w, run, a, s.target, t, payload);
    }
  }
}
