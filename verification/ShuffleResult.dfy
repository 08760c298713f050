/** What the proxies hold after the shuffle: exactly the contributions that name them. */
module ShuffleResult {
  import opened Contributions
  import opened LockStep
  import opened Messages
  import opened Multicast
  import opened OnionDelivery
  import opened Overlay
  import opened PathFinder
  import opened PathSpec
  import opened ProtocolSpec
  import opened Results
  import opened RoundSystem

  /** Who contributes what, and the payload a contribution travels as. */
  datatype Shares = Shares(own: map<int, Contribution>, carry: Contribution -> Payload) {
    function All(): set<Contribution> {
      set i | i in own :: own[i]
    }

    /** Different contributions travel as different payloads. */
    ghost predicate CarriesApart() {
      forall c, d :: c in All() && d in All() && carry(c) == carry(d) ==> c == d
    }

    /** What node j should hold. */
    function Named(j: int): set<Payload> {
      set i | i in own && j in own[i].proxies :: carry(own[i])
    }
  }

  /** The onions for a payload, if the search for their paths succeeds. */
  function OnionsOver(i: int, proxies: seq<int>, n: nat, payload: Payload): Option<seq<Message>>
    requires n >= 2 && 0 <= i < n
  {
    match FindPathsSpec(i, proxies, n, 0)
    case Found(_) => Some(Onions(Routes(i, proxies, n, 0), payload))
    case InvalidNode => None
    case NoPath => None
  }

  /** A contributor multicasts its contribution, which verifies, to proxies other than itself. */
  ghost predicate Multicasts(w: World, sh: Shares, i: int)
    requires w.Valid() && w.IsNode(i) && i in sh.own
  {
    var c := sh.own[i];
    && i !in c.proxies && w.cfg.script.verifies(sh.carry(c))
    && w.onions(i) == OnionsOver(i, c.proxies, w.cfg.n, sh.carry(c))
  }

  /** It does so and finds its paths. */
  ghost predicate SendsItsShare(w: World, sh: Shares, i: int)
    requires w.Valid() && w.IsNode(i) && i in sh.own
  {
    Multicasts(w, sh, i) && FindPathsSpec(i, sh.own[i].proxies, w.cfg.n, 0).Found?
  }

  ghost predicate SharesAreSent(w: World, sh: Shares)
    requires w.Valid()
  {
    && (forall i :: i in sh.own ==> w.IsNode(i) && SendsItsShare(w, sh, i))
    && (forall i :: w.IsNode(i) && i !in sh.own ==> w.onions(i) == Some([]))
  }

  // ----- The paths, and when their last hops meet the proxies -----

  /** The paths along which node i sends its contribution, one for each of its proxies. */
  ghost function PathsOf(w: World, sh: Shares, i: int): seq<seq<Hop>>
    requires w.Valid()
  {
    if i in sh.own && w.IsNode(i) && FindPathsSpec(i, sh.own[i].proxies, w.cfg.n, 0).Found?
    then FindPathsSpec(i, sh.own[i].proxies, w.cfg.n, 0).value
    else []
  }

  ghost predicate MeetsIn(a: Hop, j: int, u: nat, n: nat)
    requires n > 0
  {
    a.round <= u && Target(a.node, u, n) == j
  }

  /** Once it has been reached, the hop gossips to node j by the given round. */
  ghost predicate MeetsBy(a: Hop, j: int, until: int, n: nat)
    requires n > 0
  {
    exists u: nat :: u <= until && MeetsIn(a, j, u, n)
  }

  ghost predicate LastEdgeBy(h: seq<Hop>, j: int, until: int, n: nat)
    requires n > 0
  {
    |h| >= 2 && MeetsBy(h[|h| - 2], j, until, n)
  }

  /** One of node i's paths to its proxy j gets there by the given round. */
  ghost predicate GetsThere(w: World, sh: Shares, i: int, j: int, until: int)
    requires w.Valid()
  {
    && i in sh.own
    && exists g :: 0 <= g < |PathsOf(w, sh, i)| && g < |sh.own[i].proxies| && sh.own[i].proxies[g] == j
                   && LastEdgeBy(PathsOf(w, sh, i)[g], j, until, w.cfg.n)
  }

  /** What node j has been sent in time. */
  ghost function ArrivedBy(w: World, sh: Shares, j: int, until: int): set<Payload>
    requires w.Valid()
  {
    set i | i in sh.own && GetsThere(w, sh, i, j, until) :: sh.carry(sh.own[i])
  }

  lemma MoreArrivesLater(w: World, sh: Shares, j: int, t: int, u: int)
    requires w.Valid() && t <= u
    ensures ArrivedBy(w, sh, j, t) <= ArrivedBy(w, sh, j, u)
  {
    forall i | i in sh.own && GetsThere(w, sh, i, j, t) ensures GetsThere(w, sh, i, j, u) {
    }
  }

  lemma {:induction false} EachPathIsSearched(source: int, targets: seq<int>, n: nat, limit: nat, used: set<int>,
                                              g: nat)
    returns (s: Search)
    requires n >= 2 && 0 <= source < n && FindEach(source, targets, n, 0, limit, used).Found? && g < |targets|
    ensures var paths := FindEach(source, targets, n, 0, limit, used).value;
            && |paths| == |targets|
            && s.Valid() && s.source == source && s.target == targets[g] && s.n == n && s.start == 0
            && s.FindFrom(0, limit) == Some(paths[g])
    decreases |targets|
  {
    PathsHaveHops(source, targets, n, 0, limit, used);
    var first := Search(source, targets[0], n, 0, used);
    if g == 0 {
      s := first;
    } else {
      var h := first.FindFrom(0, limit).value;
      s := EachPathIsSearched(source, targets[1..], n, limit, used + Interior(h, source, targets[0]), g - 1);
    }
  }

  /** A path as it was planned: the route of a search, and then its target. */
  ghost predicate IsPlanned(h: seq<Hop>, i: int, j: int, s: Search, k: nat, n: nat) {
    && s.Valid() && s.n == n && s.start == 0 && s.source == i && s.target == j && 0 <= j < n
    && IsTemporalPath(h, n) && |h| >= 2 && h[0] == Hop(i, 0) && h[|h| - 1] == Hop(j, k + 1)
    && IsRoute(s, h[..|h| - 1], k)
  }

  lemma FullPathIsPlanned(s: Search, k: nat)
    requires s.Valid() && s.start == 0 && s.source != s.target && s.Arrives(k)
    ensures IsPlanned(s.FullPath(k), s.source, s.target, s, k, s.n)
  {
    FullPathIsGood(s, k);
  }

  lemma PathIsPlanned(w: World, sh: Shares, i: int, g: nat) returns (s: Search, k: nat)
    requires w.Valid() && SharesAreSent(w, sh) && i in sh.own && g < |sh.own[i].proxies|
    ensures |PathsOf(w, sh, i)| == |sh.own[i].proxies|
    ensures k < RoundsLimit(sh.own[i].proxies, w.cfg.n)
    ensures IsPlanned(PathsOf(w, sh, i)[g], i, sh.own[i].proxies[g], s, k, w.cfg.n)
  {
    var c, n := sh.own[i], w.cfg.n;
    assert SendsItsShare(w, sh, i);
    var limit := RoundsLimit(c.proxies, n);
    s := EachPathIsSearched(i, c.proxies, n, limit, (set t | t in c.proxies), g);
    FindIsExact(s, 0, limit);
    k :| k < limit && s.Arrives(k) && s.FindFrom(0, limit).value == s.FullPath(k);
    FullPathIsPlanned(s, k);
  }

  // ----- What a node holds came along one of the paths -----

  /** The message is a layer of an onion, and the hop it lies at was planned to have it by the given round. */
  ghost predicate IsLayerAt(w: World, sh: Shares, x: int, t: int, msg: Message, i: int, g: nat, m: nat)
    requires w.Valid()
  {
    && i in sh.own && g < |PathsOf(w, sh, i)| && g < |sh.own[i].proxies|
    && var h := PathsOf(w, sh, i)[g];
    && 1 <= m < |h| && msg == Layer(h, m, sh.carry(sh.own[i]))
    && h[m - 1].node == x && h[m - 1].round <= t
  }

  ghost predicate OnItsWay(w: World, sh: Shares, x: int, t: int, msg: Message)
    requires w.Valid()
  {
    exists i, g, m :: IsLayerAt(w, sh, x, t, msg, i, g, m)
  }

  ghost predicate AllOnTheirWay(w: World, sh: Shares, x: int, t: int, ms: seq<Message>)
    requires w.Valid()
  {
    forall m :: m in ms ==> OnItsWay(w, sh, x, t, m)
  }

  /** When round t starts a node keeps only layers of onions, and has got only what was sent in time. */
  ghost predicate CoreSound(w: World, sh: Shares, j: int, t: int, c: Core)
    requires w.Valid()
  {
    && AllOnTheirWay(w, sh, j, t, c.waiting) && AllOnTheirWay(w, sh, j, t, c.outgoing)
    && c.contributions <= ArrivedBy(w, sh, j, t - 1)
  }

  /** What node x sends to j in round t. */
  ghost predicate SentSound(w: World, sh: Shares, x: int, j: int, t: nat, m: Message)
    requires w.Valid()
  {
    m == Dummy(j) || (OnItsWay(w, sh, x, t, m) && m.destination == j)
  }

  ghost predicate BatchSound(w: World, sh: Shares, x: int, j: int, t: nat, ts: seq<Transport>)
    requires w.Valid()
  {
    forall k :: 0 <= k < |ts| ==> SentSound(w, sh, x, j, t, ts[k].message)
  }

  lemma LayerIsOnItsWay(w: World, sh: Shares, x: int, t: int, msg: Message, i: int, g: nat, m: nat)
    requires w.Valid() && IsLayerAt(w, sh, x, t, msg, i, g, m)
    ensures OnItsWay(w, sh, x, t, msg)
  {
  }

  lemma LaterOnItsWay(w: World, sh: Shares, x: int, t: int, msg: Message)
    requires w.Valid() && OnItsWay(w, sh, x, t, msg)
    ensures OnItsWay(w, sh, x, t + 1, msg)
  {
    var i, g, m :| IsLayerAt(w, sh, x, t, msg, i, g, m);
    assert IsLayerAt(w, sh, x, t + 1, msg, i, g, m);
  }

  lemma LaterSound(w: World, sh: Shares, j: int, t: int, c: Core)
    requires w.Valid() && CoreSound(w, sh, j, t, c)
    ensures CoreSound(w, sh, j, t + 1, c)
  {
    forall m | m in c.waiting || m in c.outgoing ensures OnItsWay(w, sh, j, t + 1, m) {
      LaterOnItsWay(w, sh, j, t, m);
    }
    MoreArrivesLater(w, sh, j, t - 1, t);
  }

  lemma OnionsOnTheirWay(w: World, sh: Shares, i: int)
    requires w.Valid() && SharesAreSent(w, sh) && w.IsNode(i)
    ensures w.onions(i).Some? && AllOnTheirWay(w, sh, i, 0, w.onions(i).value)
  {
    if i in sh.own {
      assert SendsItsShare(w, sh, i);
      var routes := Routes(i, sh.own[i].proxies, w.cfg.n, 0);
      forall g: nat | g < |w.onions(i).value| ensures OnItsWay(w, sh, i, 0, w.onions(i).value[g]) {
        var s, k := PathIsPlanned(w, sh, i, g);
        assert routes[g] == Nodes(PathsOf(w, sh, i)[g])[1..];
        assert IsLayerAt(w, sh, i, 0, w.onions(i).value[g], i, g, 1);
      }
    }
  }

  lemma {:induction false} PartsOfWhole(ms: seq<Message>, m: Message, target: int, floods: bool)
    ensures m in Staying(ms, target, floods) ==> m in ms
    ensures m in Leaving(ms, target, floods) ==> m in ms && Leaves(m, target, floods)
    decreases |ms|
  {
    if ms != [] {
      PartsOfWhole(ms[..|ms| - 1], m, target, floods);
    }
  }

  lemma LayersDoNotFlood(w: World, sh: Shares, x: int, t: int, msg: Message)
    requires w.Valid() && OnItsWay(w, sh, x, t, msg)
    ensures !msg.flood
  {
    var i, g, m :| IsLayerAt(w, sh, x, t, msg, i, g, m);
  }

  lemma PartsOnTheirWay(w: World, sh: Shares, x: int, t: int, ms: seq<Message>, target: int, floods: bool)
    requires w.Valid() && AllOnTheirWay(w, sh, x, t, ms)
    ensures AllOnTheirWay(w, sh, x, t, Staying(ms, target, floods))
    ensures AllOnTheirWay(w, sh, x, t, Leaving(ms, target, floods))
    ensures forall m :: m in Leaving(ms, target, floods) ==> m.destination == target
  {
    forall m | m in Staying(ms, target, floods) ensures OnItsWay(w, sh, x, t, m) {
      PartsOfWhole(ms, m, target, floods);
    }
    forall m | m in Leaving(ms, target, floods) ensures OnItsWay(w, sh, x, t, m) && m.destination == target {
      PartsOfWhole(ms, m, target, floods);
      LayersDoNotFlood(w, sh, x, t, m);
    }
  }

  lemma SendsSound(w: World, sh: Shares, i: int, t: nat, c: Core)
    requires w.Valid() && c.round == t && CoreSound(w, sh, i, t, c)
    ensures BatchSound(w, sh, i, Target(i, t, w.cfg.n), t, BatchOf(w.cfg, i, c).messages)
    ensures CoreSound(w, sh, i, t, AfterSending(w.cfg, i, c))
  {
    var target, ready := Target(i, t, w.cfg.n), ReadyMessages(w.cfg, i, c);
    PartsOnTheirWay(w, sh, i, t, c.waiting, target, false);
    PartsOnTheirWay(w, sh, i, t, c.outgoing, target, true);
    var sent := if ready == [] then [Dummy(target)] else ready;
    WrapShape(sent, i, t);
    forall m | m in sent ensures SentSound(w, sh, i, target, t, m) {
    }
  }

  /** No layer gets to the next hop of its path before the planned round. */
  lemma NotBeforePlanned(h: seq<Hop>, i: int, j: int, s: Search, k: nat, m: nat, t: nat)
    requires IsPlanned(h, i, j, s, k, s.n) && 1 <= m < |h| - 1
    requires h[m - 1].round <= t && Target(h[m - 1].node, t, s.n) == h[m].node
    ensures h[m].round <= t + 1
  {
    assert IsEdge(h[m - 1], h[m], s.n);
    NoEarlierMeeting(s, h, k, m, h[m - 1].node, h[m].node, h[m].round - 1);
  }

  /** A layer that leaves for the next hop of its path gets there no earlier than planned. */
  lemma LayerMoves(h: seq<Hop>, i: int, proxy: int, s: Search, k: nat, m: nat, t: nat, payload: Payload)
    requires IsPlanned(h, i, proxy, s, k, s.n) && 1 <= m < |h| && h[m - 1].round <= t
    requires Target(h[m - 1].node, t, s.n) == h[m].node
    ensures Layer(h, m, payload).destination == h[m].node
    ensures m < |h| - 1 ==>
              Layer(h, m, payload).body == Encloses(Layer(h, m + 1, payload)) && h[m].round <= t + 1
    ensures m == |h| - 1 ==>
              Layer(h, m, payload).body == Carries(payload) && LastEdgeBy(h, proxy, t, s.n)
  {
    LayerShape(h, m, payload);
    if m < |h| - 1 {
      NotBeforePlanned(h, i, proxy, s, k, m, t);
    } else {
      assert MeetsIn(h[|h| - 2], proxy, t, s.n);
    }
  }

  lemma LayerIsNotBare(w: World, sh: Shares, x: int, t: nat, msg: Message)
    requires w.Valid() && OnItsWay(w, sh, x, t, msg)
    ensures msg.Overlay? && msg.body != Empty
  {
    var i, g, m :| IsLayerAt(w, sh, x, t, msg, i, g, m);
  }

  lemma LayerAtMoves(w: World, sh: Shares, x: int, j: int, t: nat, msg: Message, i: int, g: nat, m: nat)
    requires w.Valid() && SharesAreSent(w, sh) && IsLayerAt(w, sh, x, t, msg, i, g, m)
    requires msg.destination == j && Target(x, t, w.cfg.n) == j
    ensures msg.body.Encloses? ==> IsLayerAt(w, sh, j, t + 1, msg.body.inner, i, g, m + 1)
    ensures msg.body.Carries? ==>
              msg.body.payload == sh.carry(sh.own[i]) && sh.own[i].proxies[g] == j
              && LastEdgeBy(PathsOf(w, sh, i)[g], j, t, w.cfg.n)
  {
    var s, k := PathIsPlanned(w, sh, i, g);
    var h, payload := PathsOf(w, sh, i)[g], sh.carry(sh.own[i]);
    LayerShape(h, m, payload);
    LayerMoves(h, i, sh.own[i].proxies[g], s, k, m, t, payload);
  }

  lemma InnerLayerAt(w: World, sh: Shares, x: int, j: int, t: nat, msg: Message, i: int, g: nat, m: nat)
    requires w.Valid() && SharesAreSent(w, sh) && IsLayerAt(w, sh, x, t, msg, i, g, m) && msg.body.Encloses?
    requires msg.destination == j && Target(x, t, w.cfg.n) == j
    ensures OnItsWay(w, sh, j, t + 1, msg.body.inner)
  {
    LayerAtMoves(w, sh, x, j, t, msg, i, g, m);
    LayerIsOnItsWay(w, sh, j, t + 1, msg.body.inner, i, g, m + 1);
  }

  /** What a layer encloses is on its way from the hop that opens it. */
  lemma InnerOnItsWay(w: World, sh: Shares, x: int, j: int, t: nat, msg: Message)
    requires w.Valid() && SharesAreSent(w, sh) && msg.body.Encloses?
    requires OnItsWay(w, sh, x, t, msg) && msg.destination == j && Target(x, t, w.cfg.n) == j
    ensures OnItsWay(w, sh, j, t + 1, msg.body.inner)
  {
    var i, g, m :| IsLayerAt(w, sh, x, t, msg, i, g, m);
    InnerLayerAt(w, sh, x, j, t, msg, i, g, m);
  }

  /** The last layer brings a contribution along its path. */
  lemma PayloadGetsThere(w: World, sh: Shares, x: int, j: int, t: nat, msg: Message)
    requires w.Valid() && SharesAreSent(w, sh) && msg.body.Carries?
    requires OnItsWay(w, sh, x, t, msg) && msg.destination == j && Target(x, t, w.cfg.n) == j
    ensures msg.body.payload in ArrivedBy(w, sh, j, t)
  {
    var i, g, m :| IsLayerAt(w, sh, x, t, msg, i, g, m);
    LayerAtMoves(w, sh, x, j, t, msg, i, g, m);
    assert GetsThere(w, sh, i, j, t);
  }

  lemma KeepsOnTheirWay(w: World, sh: Shares, j: int, t: int, ms: seq<Message>, m: Message)
    requires w.Valid() && AllOnTheirWay(w, sh, j, t, ms) && OnItsWay(w, sh, j, t, m)
    ensures AllOnTheirWay(w, sh, j, t, ms + [m])
  {
  }

  /** What receiving one layer or dummy changes. */
  lemma DeliverIs(cfg: Config, j: int, c: Core, msg: Message)
    requires msg.Overlay? && msg.destination == j
    ensures var c' := Deliver(cfg, j, c, msg);
            && c'.outgoing == c.outgoing
            && (c'.waiting == c.waiting || (msg.body.Encloses? && c'.waiting == c.waiting + [msg.body.inner]))
            && (c'.contributions == c.contributions
                || (msg.body.Carries? && c'.contributions == c.contributions + {msg.body.payload}))
  {
  }

  lemma DeliverySound(w: World, sh: Shares, x: int, j: int, t: nat, c: Core, msg: Message)
    requires w.Valid() && SharesAreSent(w, sh) && Target(x, t, w.cfg.n) == j
    requires CoreSound(w, sh, j, t + 1, c) && SentSound(w, sh, x, j, t, msg)
    ensures CoreSound(w, sh, j, t + 1, Deliver(w.cfg, j, c, msg))
  {
    if msg != Dummy(j) {
      LayerIsNotBare(w, sh, x, t, msg);
    }
    DeliverIs(w.cfg, j, c, msg);
    if msg.body.Encloses? {
      InnerOnItsWay(w, sh, x, j, t, msg);
      KeepsOnTheirWay(w, sh, j, t + 1, c.waiting, msg.body.inner);
    } else if msg.body.Carries? {
      PayloadGetsThere(w, sh, x, j, t, msg);
    }
  }

  lemma {:induction false} DeliveriesSound(w: World, sh: Shares, x: int, j: int, t: nat, c: Core, ts: seq<Transport>)
    requires w.Valid() && SharesAreSent(w, sh) && Target(x, t, w.cfg.n) == j
    requires CoreSound(w, sh, j, t + 1, c) && BatchSound(w, sh, x, j, t, ts)
    ensures CoreSound(w, sh, j, t + 1, DeliverAll(w.cfg, j, c, ts))
    decreases |ts|
  {
    if ts != [] {
      DeliverySound(w, sh, x, j, t, c, ts[0].message);
      DeliveriesSound(w, sh, x, j, t, Deliver(w.cfg, j, c, ts[0].message), ts[1..]);
    }
  }

  lemma PhaseGoesOn(cfg: Config, i: int, c: Core)
    requires cfg.Valid() && (c.Alive() ==> c.phase == Shuffle && c.round < cfg.Span())
    ensures PhaseEnd(cfg, i, c) == c
  {
  }

  /** During the shuffle ending a round puts nothing into circulation. */
  lemma ShuffleOnlyForwards(w: World, i: int, t: nat)
    requires w.Valid() && 0 < t <= w.cfg.Span()
    ensures w.Sending(i, t) == w.Handled(i, t - 1).(round := t)
  {
    if w.Handled(i, t - 1).Alive() {
      WaitedBefore(w, i, t - 1);
      ShuffleLasts(w, i, t - 1);
    }
    PhaseGoesOn(w.cfg, i, w.Handled(i, t - 1));
  }

  lemma StartsSound(w: World, sh: Shares, i: int, t: nat)
    requires w.Valid() && SharesAreSent(w, sh) && w.IsNode(i) && t <= w.cfg.Span()
    requires t > 0 ==> CoreSound(w, sh, i, t, w.Handled(i, t - 1))
    ensures CoreSound(w, sh, i, t, w.Sending(i, t))
  {
    if t == 0 {
      OnionsOnTheirWay(w, sh, i);
    } else {
      ShuffleOnlyForwards(w, i, t);
    }
  }

  lemma RoundIsSound(w: World, sh: Shares, i: int, t: nat)
    requires w.Valid() && SharesAreSent(w, sh) && w.IsNode(i)
    requires forall j :: w.IsNode(j) ==> CoreSound(w, sh, j, t, w.Sending(j, t))
    ensures CoreSound(w, sh, i, t + 1, w.Handled(i, t))
  {
    IncomingShape(w, i, t);
    var from := Predecessor(i, t, w.cfg.n);
    GossipInverse(from, i, t, w.cfg.n);
    SendsSound(w, sh, from, t, w.Sending(from, t));
    SendsSound(w, sh, i, t, w.Sending(i, t));
    LaterSound(w, sh, i, t, w.Waiting(i, t));
    DeliveriesSound(w, sh, from, i, t, w.Waiting(i, t), w.Incoming(i, t).messages);
  }

  lemma {:induction false} ShuffleIsSound(w: World, sh: Shares, i: int, t: nat)
    requires w.Valid() && SharesAreSent(w, sh) && w.IsNode(i) && t <= w.cfg.Span()
    ensures CoreSound(w, sh, i, t + 1, w.Handled(i, t))
    decreases t
  {
    forall j | w.IsNode(j) ensures CoreSound(w, sh, j, t, w.Sending(j, t)) {
      if t > 0 {
        ShuffleIsSound(w, sh, j, t - 1);
      }
      StartsSound(w, sh, j, t);
    }
    RoundIsSound(w, sh, i, t);
  }

  // ----- After the shuffle nothing changes any more -----

  lemma {:induction false} NothingAddedOutsideShuffle(cfg: Config, me: int, c: Core, ts: seq<Transport>)
    requires c.phase != Shuffle
    ensures DeliverAll(cfg, me, c, ts).contributions == c.contributions
    decreases |ts|
  {
    if ts != [] {
      DeliverKeepsSchedule(cfg, me, c, ts[0].message);
      NothingAddedOutsideShuffle(cfg, me, Deliver(cfg, me, c, ts[0].message), ts[1..]);
    }
  }

  ghost predicate HoldsWhatItDid(w: World, j: int, c: Core)
    requires w.Valid()
  {
    c.contributions == w.Handled(j, w.cfg.Span()).contributions
  }

  lemma NothingAddedIn(w: World, j: int, t: nat)
    requires w.Valid() && w.cfg.Span() < t <= w.LastRound() && w.Waiting(j, t).Alive()
    requires HoldsWhatItDid(w, j, w.Handled(j, t - 1))
    ensures HoldsWhatItDid(w, j, w.Waiting(j, t)) && HoldsWhatItDid(w, j, w.Handled(j, t))
  {
    SendingKeepsContributions(w, j, t - 1);
    LockStepOnSchedule(w, j, t);
    NothingAddedOutsideShuffle(w.cfg, j, w.Waiting(j, t), w.Incoming(j, t).messages);
  }

  lemma {:induction false} HeldForGood(w: World, j: int, t: nat)
    requires w.Valid() && w.cfg.Span() <= t <= w.LastRound() && w.Waiting(j, t).Alive()
    ensures t > w.cfg.Span() ==> HoldsWhatItDid(w, j, w.Waiting(j, t))
    ensures HoldsWhatItDid(w, j, w.Handled(j, t))
    decreases t
  {
    if t > w.cfg.Span() {
      AliveRoundBefore(w, j, t);
      HeldForGood(w, j, t - 1);
      NothingAddedIn(w, j, t);
    }
  }

  lemma FinishedHolds(w: World, j: int)
    requires w.Valid() && w.Finished(j).Alive()
    ensures HoldsWhatItDid(w, j, w.Finished(j))
  {
    WaitedBefore(w, j, w.LastRound());
    HeldForGood(w, j, w.LastRound());
  }

  lemma AfterShuffle(w: World, run: seq<System>, a: nat, j: int)
    requires IsRun(w, run) && a < |run| && run[a].AllAlive() && w.IsNode(j)
    requires run[a].nodes[j].core.round > w.cfg.Span()
    ensures HoldsWhatItDid(w, j, run[a].nodes[j].core)
  {
    RunKeepsInv(w, run, a);
    var c := run[a].nodes[j].core;
    assert InStep(w, run[a].delivered, j, run[a].nodes[j]);
    if c.isLast {
      FinishedHolds(w, j);
    } else {
      HeldForGood(w, j, c.round);
    }
  }

  // ----- Everything that gets there in time is held -----

  /** The path as its onion takes it: the last hop meets the proxy in round t, which may be before the planned one. */
  function Taken(h: seq<Hop>, t: nat): seq<Hop>
    requires |h| >= 2
  {
    h[..|h| - 1] + [Hop(h[|h| - 1].node, t + 1)]
  }

  lemma TakenIsPath(h: seq<Hop>, t: nat, n: nat)
    requires n > 0 && IsTemporalPath(h, n) && |h| >= 2
    requires MeetsIn(h[|h| - 2], h[|h| - 1].node, t, n)
    ensures IsTemporalPath(Taken(h, t), n) && Nodes(Taken(h, t)) == Nodes(h)
    ensures Taken(h, t)[..|h| - 1] == h[..|h| - 1]
  {
    assert forall m :: 1 <= m < |h| ==> IsEdge(h[m - 1], h[m], n);
  }

  /** An onion whose last hop meets the proxy during the shuffle delivers its contribution. */
  lemma OnionArrivesInTime(w: World, run: seq<System>, a: nat, h: seq<Hop>, i: int, j: int, s: Search, k: nat,
                           u: nat, payload: Payload)
    requires IsRun(w, run) && a < |run| && run[a].AllAlive() && w.IsNode(j)
    requires IsPlanned(h, i, j, s, k, w.cfg.n) && u <= w.cfg.Span() < run[a].nodes[j].core.round
    requires MeetsIn(h[|h| - 2], j, u, w.cfg.n)
    requires Launched(w, i, Layer(h, 1, payload)) && w.cfg.script.verifies(payload)
    ensures payload in run[a].nodes[j].core.contributions
  {
    RunKeepsInv(w, run, a);
    TakenIsPath(h, u, w.cfg.n);
    HopsPassedAlive(w, run[a], Taken(h, u));
    var t := OnionArrives(w, s, Taken(h, u), k, payload);
    PassedRoundAlive(w, run[a], j, t);
    WaitedBefore(w, j, t);
    ShuffleLasts(w, j, t);
    HeldByNode(w, run, a, j, t, payload);
  }

  lemma ShareArrives(w: World, sh: Shares, run: seq<System>, a: nat, i: int, j: int)
    requires IsRun(w, run) && a < |run| && run[a].AllAlive() && SharesAreSent(w, sh)
    requires w.IsNode(j) && run[a].nodes[j].core.round > w.cfg.Span()
    requires GetsThere(w, sh, i, j, w.cfg.Span())
    ensures sh.carry(sh.own[i]) in run[a].nodes[j].core.contributions
  {
    var c, n, paths := sh.own[i], w.cfg.n, PathsOf(w, sh, i);
    assert SendsItsShare(w, sh, i);
    var g: nat :| g < |paths| && g < |c.proxies| && c.proxies[g] == j && LastEdgeBy(paths[g], j, w.cfg.Span(), n);
    var s, k := PathIsPlanned(w, sh, i, g);
    var h := paths[g];
    var u: nat :| u <= w.cfg.Span() && MeetsIn(h[|h| - 2], j, u, n);
    assert Routes(i, c.proxies, n, 0)[g] == Nodes(h)[1..];
    assert w.onions(i).value[g] == Layer(h, 1, sh.carry(c));
    OnionArrivesInTime(w, run, a, h, i, j, s, k, u, sh.carry(c));
  }

  lemma ArrivedHasOwner(w: World, sh: Shares, j: int, until: int, p: Payload) returns (i: int)
    requires w.Valid() && p in ArrivedBy(w, sh, j, until)
    ensures i in sh.own && GetsThere(w, sh, i, j, until) && sh.carry(sh.own[i]) == p
  {
    i :| i in sh.own && GetsThere(w, sh, i, j, until) && sh.carry(sh.own[i]) == p;
  }

  /** In every run, once a node has left the shuffle and no node has crashed, it holds a contribution exactly when the
      last hop of a path to it meets it before the shuffle is over. */
  lemma ShuffleDeliversExactly(w: World, sh: Shares, run: seq<System>, a: nat, j: int)
    requires IsRun(w, run) && a < |run| && run[a].AllAlive() && SharesAreSent(w, sh)
    requires w.IsNode(j) && run[a].nodes[j].core.round > w.cfg.Span()
    ensures run[a].nodes[j].core.contributions == ArrivedBy(w, sh, j, w.cfg.Span())
  {
    AfterShuffle(w, run, a, j);
    ShuffleIsSound(w, sh, j, w.cfg.Span());
    forall p | p in ArrivedBy(w, sh, j, w.cfg.Span()) ensures p in run[a].nodes[j].core.contributions {
      var i := ArrivedHasOwner(w, sh, j, w.cfg.Span(), p);
      ShareArrives(w, sh, run, a, i, j);
    }
  }

  /** Every contribution gets to each of its proxies before the shuffle is over. */
  ghost predicate AllGetThere(w: World, sh: Shares)
    requires w.Valid()
  {
    forall i, j :: i in sh.own && j in sh.own[i].proxies ==> GetsThere(w, sh, i, j, w.cfg.Span())
  }

  /** Never more than what names the node arrives, and all of that if everything gets there in time. */
  lemma NamedArrive(w: World, sh: Shares, j: int)
    requires w.Valid() && SharesAreSent(w, sh)
    ensures ArrivedBy(w, sh, j, w.cfg.Span()) <= sh.Named(j)
    ensures AllGetThere(w, sh) ==> ArrivedBy(w, sh, j, w.cfg.Span()) == sh.Named(j)
  {
  }

  /** A path planned to arrive by round S gets there in time. */
  lemma PlannedGetsThere(w: World, sh: Shares, i: int, g: nat)
    requires w.Valid() && SharesAreSent(w, sh) && i in sh.own && g < |sh.own[i].proxies| == |PathsOf(w, sh, i)|
    requires EndsBy(PathsOf(w, sh, i)[g], w.cfg.Span())
    ensures GetsThere(w, sh, i, sh.own[i].proxies[g], w.cfg.Span())
  {
    var s, k := PathIsPlanned(w, sh, i, g);
    var h := PathsOf(w, sh, i)[g];
    assert IsEdge(h[|h| - 2], h[|h| - 1], w.cfg.n);
    assert MeetsIn(h[|h| - 2], h[|h| - 1].node, k, w.cfg.n);
  }

  // ----- Sizes for which all searches succeed and all contributions arrive -----

  /** The powers of two run through all nonzero residues, and n + 2 rounds fit into the shuffle. */
  ghost predicate Suits(w: World)
    requires w.Valid()
  {
    3 <= w.cfg.n <= POWER_LIMIT && TwoIsPrimitive(w.cfg.n) && w.cfg.n + 1 <= w.cfg.Span()
  }

  /** The contributor names other nodes, enough of them that the search may take n + 2 rounds. */
  ghost predicate NamesEnough(w: World, c: Contribution, i: int)
    requires w.Valid()
  {
    OthersOnly(i, c.proxies, w.cfg.n) && w.cfg.n - 1 <= w.cfg.LogN() * |c.proxies|
  }

  ghost predicate AllNameEnough(w: World, sh: Shares)
    requires w.Valid()
  {
    forall i :: i in sh.own ==> NamesEnough(w, sh.own[i], i)
  }

  ghost predicate AllMulticast(w: World, sh: Shares)
    requires w.Valid()
  {
    && (forall i :: i in sh.own ==> w.IsNode(i) && Multicasts(w, sh, i))
    && (forall i :: w.IsNode(i) && i !in sh.own ==> w.onions(i) == Some([]))
  }

  lemma NamedGetsThere(w: World, sh: Shares, i: int, j: int)
    requires w.Valid() && Suits(w) && AllNameEnough(w, sh) && SharesAreSent(w, sh)
    requires i in sh.own && j in sh.own[i].proxies
    ensures GetsThere(w, sh, i, j, w.cfg.Span())
  {
    var proxies := sh.own[i].proxies;
    assert NamesEnough(w, sh.own[i], i);
    NoSearchFails(i, proxies, w.cfg.n, 0);
    var g: nat :| g < |proxies| && proxies[g] == j;
    PlannedGetsThere(w, sh, i, g);
  }

  /** Over such an overlay all searches succeed and every contribution gets to its proxies during the shuffle. */
  lemma SuitedSharesGetThere(w: World, sh: Shares)
    requires w.Valid() && Suits(w) && AllMulticast(w, sh) && AllNameEnough(w, sh)
    ensures SharesAreSent(w, sh) && AllGetThere(w, sh)
  {
    forall i | i in sh.own ensures SendsItsShare(w, sh, i) {
      assert NamesEnough(w, sh.own[i], i);
      NoSearchFails(i, sh.own[i].proxies, w.cfg.n, 0);
    }
    forall i, j | i in sh.own && j in sh.own[i].proxies ensures GetsThere(w, sh, i, j, w.cfg.Span()) {
      NamedGetsThere(w, sh, i, j);
    }
  }
}
