/** How a path message moves from hop to hop, and what the lock on its body does to it. */
module PathDelivery {
  import opened LockStep
  import opened Messages
  import opened Multicast
  import opened OnionDelivery
  import opened Overlay
  import opened PathFinder
  import opened PathSpec
  import opened ProtocolSpec
  import opened Results
  import opened RoundSystem
  import opened RoundTermination

  /** What a hop keeps for the next one. */
  function Forwarded(m: Message): Message
    requires m.PathOverlay? && m.remainingPath != []
  {
    PathOverlay(m.remainingPath[0], Plain, m.flood, m.body, m.remainingPath[1..])
  }

  /** The message a node came to keep for a later round between two states, if any. */
  function Kept(before: Core, after: Core): Option<Message> {
    if |before.waiting| < |after.waiting| then Some(after.waiting[|before.waiting|]) else None
  }

  /** The message as it reaches its last hop, when each hop on the way hands on what it came to keep. */
  function AtLastHop(cfg: Config, nodes: int -> Core, m: Message): (r: Option<Message>)
    requires m.PathOverlay?
    ensures r.Some? ==> r.value.PathOverlay? && r.value.remainingPath == []
    decreases |m.remainingPath|
  {
    if m.remainingPath == [] then Some(m) else
      var next := Kept(nodes(m.destination), Deliver(cfg, m.destination, nodes(m.destination), m));
      if next.Some? && next.value.PathOverlay? && |next.value.remainingPath| < |m.remainingPath|
      then AtLastHop(cfg, nodes, next.value)
      else None
  }

  lemma HopKeeps(cfg: Config, me: int, c: Core, m: Message)
    requires m.PathOverlay? && m.remainingPath != [] && m.body.Carries? && c.Alive()
    ensures Kept(c, Deliver(cfg, me, c, m)) == if Opens(m, me) then Some(Forwarded(m)) else None
    ensures !Opens(m, me) ==> Deliver(cfg, me, c, m) == c.(phase := Crashed)
  {
  }

  lemma {:induction false} PlainArrives(cfg: Config, nodes: int -> Core, path: seq<int>, payload: Payload)
    requires path != [] && forall i :: nodes(i).Alive()
    ensures AtLastHop(cfg, nodes, PathMessage(path, Plain, payload)) ==
            Some(PathMessage([path[|path| - 1]], Plain, payload))
    decreases |path|
  {
    if |path| == 1 {
      assert path == [path[0]];
    } else {
      var m := PathMessage(path, Plain, payload);
      HopKeeps(cfg, path[0], nodes(path[0]), m);
      assert Forwarded(m) == PathMessage(path[1..], Plain, payload);
      PlainArrives(cfg, nodes, path[1..], payload);
    }
  }

  /** A path message reaches its last hop, and hands its payload to the phase there, exactly when the first hop
      can open it; a first hop that cannot open it crashes. */
  lemma PayloadArrivesExactlyWhenOpen(cfg: Config, nodes: int -> Core, path: seq<int>, lock: Lock, payload: Payload)
    requires path != [] && forall i :: nodes(i).Alive()
    ensures var m, first, last := PathMessage(path, lock, payload), path[0], path[|path| - 1];
            var arrived := AtLastHop(cfg, nodes, m);
            && (arrived.Some?
                && Deliver(cfg, last, nodes(last), arrived.value) == HandlePayload(cfg, nodes(last), payload)
                <==> lock == Plain || lock == For(first))
            && (lock != Plain && lock != For(first) ==>
                  Deliver(cfg, first, nodes(first), m) == nodes(first).(phase := Crashed))
  {
    var m := PathMessage(path, lock, payload);
    if |path| > 1 {
      HopKeeps(cfg, path[0], nodes(path[0]), m);
      if Opens(m, path[0]) {
        assert Forwarded(m) == PathMessage(path[1..], Plain, payload);
        PlainArrives(cfg, nodes, path[1..], payload);
      }
    }
  }

  /** As the agreement phases send them, locked for the last hop of a simple path: over a single hop the payload
      arrives, over more the message never leaves the first hop, which crashes on it. */
  lemma LockedForLastHop(cfg: Config, nodes: int -> Core, path: seq<int>, payload: Payload)
    requires path != [] && forall i :: nodes(i).Alive()
    requires forall i, j :: 0 <= i < j < |path| ==> path[i] != path[j]
    ensures var m, first := PathMessage(path, For(path[|path| - 1]), payload), path[0];
            && Deliver(cfg, first, nodes(first), m) ==
               (if |path| == 1 then HandlePayload(cfg, nodes(first), payload) else nodes(first).(phase := Crashed))
            && (AtLastHop(cfg, nodes, m).Some? <==> |path| == 1)
  {
    if |path| > 1 {
      assert path[0] != path[|path| - 1];
      HopKeeps(cfg, path[0], nodes(path[0]), PathMessage(path, For(path[|path| - 1]), payload));
    }
  }

  // ----- What this does to whole runs -----

  /** A node that waits to send a message, and meets the next hop in some round in time, does send it. */
  lemma WaitingIsSent(w: World, i: int, from: nat, u: nat, m: Message) returns (t: nat)
    requires w.Valid() && w.IsNode(i) && Pending(w, i, from, m) && !m.flood
    requires from <= u && Target(i, u, w.cfg.n) == m.destination
    ensures from <= t <= u && Contains(w.Incoming(m.destination, t), m)
  {
    GossipInverse(i, m.destination, u, w.cfg.n);
    t := FirstMeeting(i, m.destination, from, u, w.cfg.n);
    HeldUntil(w, i, from, t, m);
    SendOrHold(w, i, t, m);
    BatchReaches(w, i, m.destination, t, m);
  }

  /** No run finishes in which some node waits to send a message locked for another node than its next hop, and
      meets that hop before the rounds are over. */
  lemma LockedForAnotherStopsEveryRun(w: World, run: seq<System>, k: nat, i: int, from: nat, u: nat, m: Message)
    requires IsRun(w, run) && k < |run|
    requires w.IsNode(i) && Pending(w, i, from, m) && !m.flood && !Opens(m, m.destination)
    requires from <= u <= w.LastRound() && Target(i, u, w.cfg.n) == m.destination
    ensures !RunsThrough(w) && !AllFinished(run[k])
  {
    var t := WaitingIsSent(w, i, from, u, m);
    GossipInverse(i, m.destination, u, w.cfg.n);
    assert !Passes(w, m.destination, t);
    if AllFinished(run[k]) {
      FinishedNodesAgree(w, run, k);
      FinishedMeansRunsThrough(w, run, k);
    }
  }

  /** The node signs the message when its shuffle is over. */
  ghost predicate Signs(w: World, i: int, m: Message)
    requires w.Valid()
  {
    var messages := w.cfg.script.signedValues(i, w.Handled(i, w.cfg.Span()).contributions);
    messages.Some? && m in messages.value
  }

  /** The signed values of a node that has left the shuffle are waiting to be sent then. */
  lemma SignedValueWaits(w: World, i: int, m: Message)
    requires w.Valid() && w.Waiting(i, w.cfg.Span() + 1).Alive() && Signs(w, i, m)
    ensures Pending(w, i, w.cfg.Span() + 1, m)
  {
    var s := w.cfg.Span();
    AliveRoundBefore(w, i, s + 1);
    AliveThrough(w, i, s + 1);
    ShuffleLasts(w, i, s);
    assert m in w.Sending(i, s + 1).outgoing;
  }

  /** A path planned over several hops: its first and last hop differ, and the first one is met before the last. */
  lemma RouteOverHops(source: int, targets: seq<int>, n: nat, start: nat, g: nat)
    requires n >= 2 && 0 <= source < n && source !in targets && FindPathsSpec(source, targets, n, start).Found?
    requires g < |targets| && |Routes(source, targets, n, start)[g]| > 1
    ensures var h, route := FindPathsSpec(source, targets, n, start).value[g], Routes(source, targets, n, start)[g];
            && |h| > 2 && start <= h[1].round - 1 < h[|h| - 1].round - 1
            && route[0] == Target(source, h[1].round - 1, n) && route[0] != route[|route| - 1]
  {
    FoundPathsAreDisjoint(source, targets, n, start);
    var h, route := FindPathsSpec(source, targets, n, start).value[g], Routes(source, targets, n, start)[g];
    assert IsGoodPath(Search(source, targets[g], n, start, set t | t in targets), h, RoundsLimit(targets, n));
    assert route == Nodes(h)[1..];
    assert IsEdge(h[0], h[1], n);
    RoundsIncrease(h, 1, |h| - 1, n);
  }

  /** In particular none in which a node signs its value for a proxy over a path of several hops that is planned to
      end by round 3S. */
  lemma SigningOverSeveralHopsStopsEveryRun(w: World, run: seq<System>, k: nat, i: int, others: seq<int>, g: nat,
                                            payload: Payload)
    requires IsRun(w, run) && k < |run| && w.IsNode(i) && i !in others && g < |others|
    requires var found := FindPathsSpec(i, others, w.cfg.n, w.cfg.Span() + 1);
             && found.Found? && |Routes(i, others, w.cfg.n, w.cfg.Span() + 1)[g]| > 1
             && found.value[g][|found.value[g]| - 1].round - 1 <= w.LastRound()
    requires Signs(w, i, PathMessages(Routes(i, others, w.cfg.n, w.cfg.Span() + 1), payload)[g])
    ensures !AllFinished(run[k])
  {
    var start := w.cfg.Span() + 1;
    var h, route := FindPathsSpec(i, others, w.cfg.n, start).value[g], Routes(i, others, w.cfg.n, start)[g];
    var m := PathMessages(Routes(i, others, w.cfg.n, start), payload)[g];
    RouteOverHops(i, others, w.cfg.n, start, g);
    if AllFinished(run[k]) {
      FinishedNodesAgree(w, run, k);
      FinishedMeansRunsThrough(w, run, k);
      AliveWhileRunningThrough(w, i, start);
      SignedValueWaits(w, i, m);
      LockedForAnotherStopsEveryRun(w, run, k, i, start, h[1].round - 1, m);
    }
  }
}
