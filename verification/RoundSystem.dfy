/** All nodes together, asynchronously: messages of one node's round may arrive long before or after
    another node gets there. No timeouts fire, and sends and pings fail only to nodes that have crashed. */
module RoundSystem {
  import opened NumberTheory
  import opened Overlay
  import opened Messages
  import opened ProtocolSpec
  import opened LockStep

  const RELIABLE: Env := Env((round, peer) => true, (round, peer) => true)

  /** The nodes, and the batches that have been delivered so far. */
  datatype System = System(nodes: seq<Node>, delivered: set<Batch>) {
    predicate Reaches(peer: int) {
      0 <= peer < |nodes| && nodes[peer].core.Alive()
    }

    ghost predicate AllAlive() {
      forall i :: 0 <= i < |nodes| ==> nodes[i].core.Alive()
    }

    /** What the network does: it reaches every node whose process has not ended. */
    ghost function Network(): Env {
      if AllAlive() then RELIABLE else Env((round, peer) => Reaches(peer), (round, peer) => Reaches(peer))
    }
  }

  ghost predicate WellFormed(w: World, s: System) {
    w.Valid() && |s.nodes| == w.cfg.n && forall i :: 0 <= i < |s.nodes| ==> OnSchedule(w.cfg, s.nodes[i].core)
  }

  function Initial(w: World): System {
    System(seq(w.cfg.n, i => Node(IDLE_CORE, {}, [], [])), {})
  }

  /** A node handles the messages of a batch one after the other. */
  function ReceiveAll(cfg: Config, env: Env, me: int, q: Node, ts: seq<Transport>): (r: Node)
    requires cfg.Valid() && OnSchedule(cfg, q.core)
    ensures OnSchedule(cfg, r.core)
    decreases |ts|
  {
    if ts == [] then q else ReceiveAll(cfg, env, me, Receive(cfg, env, me, q, ts[0]), ts[1..])
  }

  ghost predicate StartStep(w: World, s: System, s': System, i: int)
    requires WellFormed(w, s)
  {
    && 0 <= i < w.cfg.n && s.nodes[i].core.phase == Setup
    && s' == s.(nodes := s.nodes[i := StartShuffle(w.cfg, s.Network(), i, s.nodes[i], w.onions(i))])
  }

  /** A batch is in flight once its sender has sent it and until it is delivered or its recipient has crashed. */
  ghost predicate InFlight(w: World, s: System, b: Batch)
    requires WellFormed(w, s)
  {
    && 0 <= b.sender < w.cfg.n && b in s.nodes[b.sender].sent && b !in s.delivered
    && s.Reaches(b.recipient)
  }

  ghost predicate DeliverStep(w: World, s: System, s': System, b: Batch)
    requires WellFormed(w, s)
  {
    var j := b.recipient;
    && InFlight(w, s, b)
    && s' == System(s.nodes[j := ReceiveAll(w.cfg, s.Network(), j, s.nodes[j], b.messages)], s.delivered + {b})
  }

  ghost predicate Step(w: World, s: System, s': System)
    requires WellFormed(w, s)
  {
    || (exists i :: StartStep(w, s, s', i))
    || (exists b :: DeliverStep(w, s, s', b))
  }

  ghost predicate StepAt(w: World, run: seq<System>, k: nat)
    requires k + 1 < |run| && WellFormed(w, run[k])
  {
    Step(w, run[k], run[k + 1])
  }

  ghost predicate IsRun(w: World, run: seq<System>) {
    && w.Valid() && |run| > 0 && run[0] == Initial(w)
    && (forall k :: 0 <= k < |run| ==> WellFormed(w, run[k]))
    && (forall k: nat :: k < |run| - 1 ==> StepAt(w, run, k))
  }

  // ----- The invariant -----

  ghost predicate Arrived(w: World, delivered: set<Batch>, j: int, t: nat)
    requires w.Valid()
  {
    w.Incoming(j, t) in delivered
  }

  ghost function EarlyOf(w: World, delivered: set<Batch>, j: int, round: int, t: nat): seq<Transport>
    requires w.Valid()
  {
    if t > round && Arrived(w, delivered, j, t) then w.Incoming(j, t).messages else []
  }

  /** The early messages a node keeps: whole batches of later rounds that have been delivered. */
  ghost predicate KeepsEarly(w: World, delivered: set<Batch>, j: int, future: seq<Transport>, round: int)
    requires w.Valid()
  {
    forall t: nat :: OfRound(future, t) == EarlyOf(w, delivered, j, round, t)
  }

  ghost predicate SentAll(w: World, i: int, sent: seq<Batch>, round: int)
    requires w.Valid()
  {
    |sent| == round + 1 && forall t :: 0 <= t < |sent| ==> sent[t] == w.SentBatch(i, t)
  }

  /** A living node agrees with lock step: same core, all batches sent, everything up to its round received. */
  ghost predicate InStep(w: World, delivered: set<Batch>, j: int, q: Node)
    requires w.Valid()
  {
    var c := q.core;
    && c.Alive() && q.failed == {} && SentAll(w, j, q.sent, c.round) && KeepsEarly(w, delivered, j, q.future, c.round)
    && c.round <= w.LastRound()
    && (forall t: nat :: t < c.round ==> Arrived(w, delivered, j, t))
    && (c.round == -1 ==> c == IDLE_CORE)
    && (c.round >= 0 ==> c.isLast == Arrived(w, delivered, j, c.round))
    && (c.round >= 0 ==> c.phase != Setup)
    && (c.round >= 0 && !c.isLast ==> c == w.Waiting(j, c.round))
    && (c.isLast ==> c.round == w.LastRound() && c == w.Finished(j))
  }

  /** A node agrees with lock step unless it crashed, which shows that something throws in lock step too. */
  ghost predicate InStepOrCrashed(w: World, delivered: set<Batch>, j: int, q: Node)
    requires w.Valid()
  {
    q.failed == {} && if q.core.Alive() then InStep(w, delivered, j, q) else !RunsThrough(w)
  }

  ghost predicate Inv(w: World, s: System) {
    && WellFormed(w, s)
    && (forall j :: 0 <= j < w.cfg.n ==> InStep(w, s.delivered, j, s.nodes[j]))
    && (forall b :: b in s.delivered ==> 0 <= b.sender < w.cfg.n && b in s.nodes[b.sender].sent)
  }

  // ----- Buffered messages -----

  lemma {:induction false} OfRoundConcat(a: seq<Transport>, b: seq<Transport>, t: int)
    ensures OfRound(a + b, t) == OfRound(a, t) + OfRound(b, t)
    decreases |b|
  {
    if b == [] {
      assert a + b == a;
    } else {
      assert (a + b)[..|a + b| - 1] == a + b[..|b| - 1];
      OfRoundConcat(a, b[..|b| - 1], t);
    }
  }

  lemma {:induction false} OfRoundUniform(ts: seq<Transport>, u: int, t: int)
    requires forall k :: 0 <= k < |ts| ==> ts[k].round == u
    ensures OfRound(ts, t) == if t == u then ts else []
    decreases |ts|
  {
    if ts != [] {
      OfRoundUniform(ts[..|ts| - 1], u, t);
    }
  }

  lemma {:induction false} OfRoundRemoved(ts: seq<Transport>, u: int, t: int)
    ensures OfRound(NotOfRound(ts, u), t) == if t == u then [] else OfRound(ts, t)
    decreases |ts|
  {
    if ts != [] {
      var init, last := ts[..|ts| - 1], ts[|ts| - 1];
      OfRoundRemoved(init, u, t);
      OfRoundConcat(NotOfRound(init, u), if last.round == u then [] else [last], t);
      OfRoundUniform([last], last.round, t);
      OfRoundUniform([], last.round, t);
    }
  }

  lemma KeepsEarlyAfterRemoval(w: World, delivered: set<Batch>, j: int, future: seq<Transport>, round: int)
    requires w.Valid() && round >= -1 && KeepsEarly(w, delivered, j, future, round)
    ensures KeepsEarly(w, delivered, j, NotOfRound(future, round + 1), round + 1)
  {
    var next, rest := round + 1, NotOfRound(future, round + 1);
    forall t: nat ensures OfRound(rest, t) == EarlyOf(w, delivered, j, next, t) {
      OfRoundRemoved(future, next, t);
    }
  }

  // ----- One node -----

  /** Handling a whole batch of the current round delivers all its messages and then, unless one of them
      crashes the node, ends the round. */
  lemma {:induction false} HandleBatch(cfg: Config, me: int, q: Node, ts: seq<Transport>)
    requires cfg.Valid() && OnSchedule(cfg, q.core) && q.core.InOverlay() && ts != []
    requires forall k :: 0 <= k < |ts| ==> ts[k].isFinal == (k == |ts| - 1)
    ensures var c := DeliverAll(cfg, me, q.core, ts);
            && OnSchedule(cfg, c) && c.phase != Setup
            && HandleAll(cfg, RELIABLE, me, q, ts) ==
               (if c.Alive() then EndRound(cfg, RELIABLE, me, q.(core := c)) else q.(core := c))
    decreases |ts|
  {
    DeliverOnSchedule(cfg, me, q.core, ts[0].message);
    DeliverKeepsSchedule(cfg, me, q.core, ts[0].message);
    var q' := q.(core := Deliver(cfg, me, q.core, ts[0].message));
    if |ts| == 1 {
      assert ts[1..] == [];
    } else {
      assert Handle(cfg, RELIABLE, me, q, ts[0]) == q';
      if q'.core.Alive() {
        HandleBatch(cfg, me, q', ts[1..]);
      } else {
        CrashedHandlesNothing(cfg, RELIABLE, me, q', ts[1..]);
        DeliverAllKeepsSchedule(cfg, me, q'.core, ts[1..]);
      }
    }
  }

  lemma {:induction false} CrashedReceivesNothing(cfg: Config, me: int, q: Node, ts: seq<Transport>)
    requires cfg.Valid() && OnSchedule(cfg, q.core) && !q.core.Alive()
    ensures ReceiveAll(cfg, RELIABLE, me, q, ts) == q
    decreases |ts|
  {
    if ts != [] {
      CrashedReceivesNothing(cfg, me, q, ts[1..]);
    }
  }

  /** While the round stays the same, dispatching a batch of that round is handling it. */
  lemma {:induction false} ReceiveCurrent(cfg: Config, me: int, q: Node, ts: seq<Transport>)
    requires cfg.Valid() && OnSchedule(cfg, q.core) && q.core.InOverlay() && ts != [] && q.core.round >= 0
    requires forall k :: 0 <= k < |ts| ==> ts[k].isFinal == (k == |ts| - 1) && ts[k].round == q.core.round
    requires forall k :: 0 <= k < |ts| ==> Target(ts[k].sender, ts[k].round, cfg.n) == me
    ensures ReceiveAll(cfg, RELIABLE, me, q, ts) == HandleAll(cfg, RELIABLE, me, q, ts)
    decreases |ts|
  {
    DeliverOnSchedule(cfg, me, q.core, ts[0].message);
    DeliverKeepsSchedule(cfg, me, q.core, ts[0].message);
    var q' := Handle(cfg, RELIABLE, me, q, ts[0]);
    assert Receive(cfg, RELIABLE, me, q, ts[0]) == q';
    if |ts| == 1 {
      assert ts[1..] == [];
    } else if q'.core.Alive() {
      ReceiveCurrent(cfg, me, q', ts[1..]);
    } else {
      CrashedHandlesNothing(cfg, RELIABLE, me, q', ts[1..]);
      CrashedReceivesNothing(cfg, me, q', ts[1..]);
    }
  }

  /** A batch of a later round is kept whole. */
  lemma {:induction false} ReceiveEarly(cfg: Config, me: int, q: Node, ts: seq<Transport>)
    requires cfg.Valid() && OnSchedule(cfg, q.core) && q.core.Alive()
    requires forall k :: 0 <= k < |ts| ==> ts[k].round > q.core.round && Target(ts[k].sender, ts[k].round, cfg.n) == me
    ensures ReceiveAll(cfg, RELIABLE, me, q, ts) == q.(future := q.future + ts)
    decreases |ts|
  {
    if ts == [] {
      assert q.future + ts == q.future;
    } else {
      ReceiveEarly(cfg, me, q.(future := q.future + [ts[0]]), ts[1..]);
      assert q.future + [ts[0]] + ts[1..] == q.future + ts;
    }
  }

  /** A node that has received everything up to its round and is about to end it. */
  ghost predicate ReadyToEnd(w: World, delivered: set<Batch>, j: int, q: Node)
    requires w.Valid()
  {
    var r := q.core.round;
    && 0 <= r <= w.LastRound() && q.core == w.Handled(j, r) && q.core.Alive()
    && q.failed == {} && SentAll(w, j, q.sent, r) && KeepsEarly(w, delivered, j, q.future, r)
    && (forall t: nat :: t <= r ==> Arrived(w, delivered, j, t))
  }

  /** The state in which a node has just sent its batch of round r. */
  ghost predicate JustSent(w: World, delivered: set<Batch>, j: int, q: Node, future: seq<Transport>, r: nat)
    requires w.Valid()
  {
    && q.core == w.Waiting(j, r) && q.core.Alive() && r <= w.LastRound()
    && q.failed == {} && SentAll(w, j, q.sent, r)
    && KeepsEarly(w, delivered, j, future, r - 1) && q.future == NotOfRound(future, r)
    && (forall t: nat :: t < r ==> Arrived(w, delivered, j, t))
  }

  lemma HandledOnSchedule(w: World, j: int, t: nat)
    requires w.Valid() && t <= w.LastRound() && w.Handled(j, t).Alive()
    ensures OnSchedule(w.cfg, w.Handled(j, t)) && w.Handled(j, t).InOverlay()
  {
    AliveThrough(w, j, t);
    LockStepOnSchedule(w, j, t);
  }

  /** Ending the last round leaves the node in its final state. */
  lemma LastRoundInStep(w: World, delivered: set<Batch>, j: int, q: Node)
    requires w.Valid() && w.IsNode(j) && ReadyToEnd(w, delivered, j, q)
    requires PhaseEnd(w.cfg, j, q.core).isLast && PhaseEnd(w.cfg, j, q.core).Alive()
    ensures InStep(w, delivered, j, q.(core := PhaseEnd(w.cfg, j, q.core)))
  {
    HandledOnSchedule(w, j, q.core.round);
    PhasesEndExactly(w.cfg, j, q.core);
    LockStepFinishes(w, j);
  }

  /** With no peer held for dead, ending a round is starting the next and handling what was buffered. */
  lemma EndRoundIs(cfg: Config, j: int, q: Node, started: Node)
    requires cfg.Valid() && OnSchedule(cfg, q.core) && q.core.Active()
    requires !PhaseEnd(cfg, j, q.core).Stops() && started == NextRound(cfg, RELIABLE, j, q, PhaseEnd(cfg, j, q.core))
    requires OnSchedule(cfg, started.core) && started.core.phase != Setup
    requires HandleAll(cfg, RELIABLE, j, started, OfRound(q.future, q.core.round + 1)).failed == {}
    ensures EndRound(cfg, RELIABLE, j, q) == HandleAll(cfg, RELIABLE, j, started, OfRound(q.future, q.core.round + 1))
  {
    NextRoundOnSchedule(cfg, RELIABLE, j, q);
    assert started.core.round == q.core.round + 1;
  }

  /** With every send succeeding, starting a round is sending the lock-step batch. */
  lemma NextRoundIs(w: World, j: int, q: Node, ended: Core, t: nat)
    requires w.Valid() && q.failed == {} && ended.round == t - 1 && ended.(round := t) == w.Sending(j, t)
    ensures NextRound(w.cfg, RELIABLE, j, q, ended) ==
            Node(w.Waiting(j, t), {}, NotOfRound(q.future, t), q.sent + [w.SentBatch(j, t)])
  {
  }

  lemma SentAllNext(w: World, j: int, sent: seq<Batch>, r: int)
    requires w.Valid() && r >= -1 && SentAll(w, j, sent, r)
    ensures SentAll(w, j, sent + [w.SentBatch(j, r + 1)], r + 1)
  {
  }

  lemma SendingNext(w: World, j: int, r: nat)
    requires w.Valid() && w.IsNode(j) && r <= w.LastRound() && !PhaseEnd(w.cfg, j, w.Handled(j, r)).Stops()
    requires w.Handled(j, r).Alive()
    ensures PhaseEnd(w.cfg, j, w.Handled(j, r)).(round := r + 1) == w.Sending(j, r + 1)
    ensures r + 1 <= w.LastRound() && w.Waiting(j, r + 1).Alive()
  {
    HandledOnSchedule(w, j, r);
    AliveThrough(w, j, r + 1);
    PhasesEndExactly(w.cfg, j, w.Handled(j, r));
  }

  lemma NextRoundJustSent(w: World, delivered: set<Batch>, j: int, q: Node)
    requires w.Valid() && w.IsNode(j) && ReadyToEnd(w, delivered, j, q)
    requires !PhaseEnd(w.cfg, j, q.core).Stops()
    ensures var r := q.core.round;
            var started := NextRound(w.cfg, RELIABLE, j, q, PhaseEnd(w.cfg, j, q.core));
            JustSent(w, delivered, j, started, q.future, r + 1)
  {
    var r := q.core.round;
    SendingNext(w, j, r);
    NextRoundIs(w, j, q, PhaseEnd(w.cfg, j, q.core), r + 1);
    SentAllNext(w, j, q.sent, r);
  }

  lemma ThrowsInLockStep(w: World, j: int, t: nat)
    requires w.Valid() && w.IsNode(j) && t <= w.LastRound() && !Passes(w, j, t)
    ensures !RunsThrough(w)
  {
  }

  lemma CannotRead(w: World, j: int, t: nat)
    requires w.Valid() && w.IsNode(j) && t <= w.LastRound() && w.Waiting(j, t).Alive() && !w.Handled(j, t).Alive()
    ensures !RunsThrough(w)
  {
    AliveThrough(w, j, t);
    ThrowsInLockStep(w, j, t);
  }

  /** Without a further round the node is in its final state, or the search for its paths has crashed it. */
  lemma StopsInStep(w: World, delivered: set<Batch>, j: int, q: Node)
    requires w.Valid() && w.IsNode(j) && ReadyToEnd(w, delivered, j, q) && PhaseEnd(w.cfg, j, q.core).Stops()
    ensures OnSchedule(w.cfg, q.core) && q.core.Active()
    ensures InStepOrCrashed(w, delivered, j, EndRound(w.cfg, RELIABLE, j, q))
  {
    HandledOnSchedule(w, j, q.core.round);
    if PhaseEnd(w.cfg, j, q.core).Alive() {
      LastRoundInStep(w, delivered, j, q);
    } else {
      ThrowsInLockStep(w, j, q.core.round);
    }
  }

  lemma ContinuesInStep(w: World, delivered: set<Batch>, j: int, q: Node, started: Node)
    requires w.Valid() && OnSchedule(w.cfg, q.core) && q.core.Active() && !PhaseEnd(w.cfg, j, q.core).Stops()
    requires started == NextRound(w.cfg, RELIABLE, j, q, PhaseEnd(w.cfg, j, q.core))
    requires OnSchedule(w.cfg, started.core) && started.core.phase != Setup
    requires InStepOrCrashed(w, delivered, j,
                             HandleAll(w.cfg, RELIABLE, j, started, OfRound(q.future, q.core.round + 1)))
    ensures InStepOrCrashed(w, delivered, j, EndRound(w.cfg, RELIABLE, j, q))
  {
    EndRoundIs(w.cfg, j, q, started);
  }

  /** Ending a round, with all the buffered rounds it may pull in, leaves the node in lock step or crashes it. */
  lemma {:induction false} EndRoundInStep(w: World, delivered: set<Batch>, j: int, q: Node)
    requires w.Valid() && w.IsNode(j) && ReadyToEnd(w, delivered, j, q)
    ensures OnSchedule(w.cfg, q.core) && q.core.Active()
    ensures InStepOrCrashed(w, delivered, j, EndRound(w.cfg, RELIABLE, j, q))
    decreases w.LastRound() - q.core.round, 1
  {
    HandledOnSchedule(w, j, q.core.round);
    var ended := PhaseEnd(w.cfg, j, q.core);
    if ended.Stops() {
      StopsInStep(w, delivered, j, q);
    } else {
      var started := NextRound(w.cfg, RELIABLE, j, q, ended);
      NextRoundJustSent(w, delivered, j, q);
      ReceiveBuffered(w, delivered, j, started, q.future, q.core.round + 1);
      ContinuesInStep(w, delivered, j, q, started);
    }
  }

  lemma EndAfterBuffered(w: World, delivered: set<Batch>, j: int, q: Node, future: seq<Transport>, r: nat)
    requires w.Valid() && w.IsNode(j) && JustSent(w, delivered, j, q, future, r) && Arrived(w, delivered, j, r)
    requires w.Handled(j, r).Alive()
    ensures ReadyToEnd(w, delivered, j, q.(core := w.Handled(j, r)))
  {
    KeepsEarlyAfterRemoval(w, delivered, j, future, r - 1);
  }

  /** After sending, a buffered batch of the new round is handled at once and, if it can be read, ends that
      round too. */
  lemma {:induction false} ReceiveBuffered(w: World, delivered: set<Batch>, j: int, q: Node,
                                           future: seq<Transport>, r: nat)
    requires w.Valid() && w.IsNode(j) && JustSent(w, delivered, j, q, future, r)
    ensures OnSchedule(w.cfg, q.core) && q.core.phase != Setup
    ensures InStepOrCrashed(w, delivered, j, HandleAll(w.cfg, RELIABLE, j, q, OfRound(future, r)))
    decreases w.LastRound() - r, 2
  {
    LockStepOnSchedule(w, j, r);
    KeepsEarlyAfterRemoval(w, delivered, j, future, r - 1);
    assert OfRound(future, r) == EarlyOf(w, delivered, j, r - 1, r);
    if Arrived(w, delivered, j, r) {
      IncomingShape(w, j, r);
      HandleBatch(w.cfg, j, q, w.Incoming(j, r).messages);
      if w.Handled(j, r).Alive() {
        EndAfterBuffered(w, delivered, j, q, future, r);
        EndRoundInStep(w, delivered, j, q.(core := w.Handled(j, r)));
      } else {
        CannotRead(w, j, r);
      }
    }
  }

  // ----- One step of the system -----

  /** Up to the first crash the system agrees with lock step; a crash shows that something throws there too. */
  ghost predicate InvOrCrashed(w: World, s: System) {
    WellFormed(w, s) && if s.AllAlive() then Inv(w, s) else !RunsThrough(w)
  }

  lemma AllInStep(w: World, s: System)
    requires Inv(w, s)
    ensures s.AllAlive() && s.Network() == RELIABLE
  {
    forall i | 0 <= i < |s.nodes| ensures s.nodes[i].core.Alive() {
      assert InStep(w, s.delivered, i, s.nodes[i]);
    }
  }

  lemma InitialInv(w: World)
    requires w.Valid()
    ensures WellFormed(w, Initial(w)) && Inv(w, Initial(w))
  {
  }

  lemma FirstRoundJustSent(w: World, delivered: set<Batch>, i: int, q: Node)
    requires w.Valid() && w.IsNode(i) && InStep(w, delivered, i, q) && q.core.phase == Setup
    requires OnSchedule(w.cfg, q.core) && w.onions(i).Some?
    ensures var c := q.core.(phase := Shuffle, outgoing := q.core.outgoing + w.onions(i).value);
            var next := NextRound(w.cfg, RELIABLE, i, q.(core := c), PhaseEnd(w.cfg, i, c));
            PhaseEnd(w.cfg, i, c) == c && JustSent(w, delivered, i, next, q.future, 0)
  {
    assert [] + w.onions(i).value == w.onions(i).value;
    var c := q.core.(phase := Shuffle, outgoing := q.core.outgoing + w.onions(i).value);
    NextRoundIs(w, i, q.(core := c), c, 0);
    SentAllNext(w, i, q.sent, -1);
  }

  lemma StartInStep(w: World, delivered: set<Batch>, i: int, q: Node)
    requires w.Valid() && w.IsNode(i) && InStep(w, delivered, i, q) && q.core.phase == Setup
    requires OnSchedule(w.cfg, q.core)
    ensures InStepOrCrashed(w, delivered, i, StartShuffle(w.cfg, RELIABLE, i, q, w.onions(i)))
  {
    if w.onions(i).Some? {
      var started := q.(core := q.core.(phase := Shuffle, outgoing := q.core.outgoing + w.onions(i).value));
      FirstRoundJustSent(w, delivered, i, q);
      var next := NextRound(w.cfg, RELIABLE, i, started, started.core);
      ReceiveBuffered(w, delivered, i, next, q.future, 0);
      var handled := HandleAll(w.cfg, RELIABLE, i, next, OfRound(q.future, 0));
      assert handled.failed == {};
      assert EndRound(w.cfg, RELIABLE, i, started) == handled;
    }
  }

  /** Replacing one node by one that has sent at least as much keeps every sent batch. */
  lemma SentOnlyGrows(w: World, s: System, s': System, i: int)
    requires Inv(w, s) && WellFormed(w, s') && w.IsNode(i)
    requires s'.nodes == s.nodes[i := s'.nodes[i]]
    requires InStep(w, s'.delivered, i, s'.nodes[i])
    requires s'.nodes[i].core.round >= s.nodes[i].core.round
    ensures forall k, b :: w.IsNode(k) && b in s.nodes[k].sent ==> b in s'.nodes[k].sent
  {
    forall k, b | w.IsNode(k) && b in s.nodes[k].sent ensures b in s'.nodes[k].sent {
      if k == i {
        var t :| 0 <= t < |s.nodes[i].sent| && s.nodes[i].sent[t] == b;
        assert s'.nodes[i].sent[t] == w.SentBatch(i, t);
      }
    }
  }

  /** One node has moved on, the others are in step as before. */
  lemma OneNodeMoved(w: World, s: System, s': System, i: int)
    requires Inv(w, s) && WellFormed(w, s') && w.IsNode(i) && s'.nodes == s.nodes[i := s'.nodes[i]]
    requires InStepOrCrashed(w, s'.delivered, i, s'.nodes[i]) && s'.nodes[i].core.round >= s.nodes[i].core.round
    requires forall j :: 0 <= j < w.cfg.n && j != i ==> InStep(w, s'.delivered, j, s'.nodes[j])
    requires forall b :: b in s'.delivered ==>
               b in s.delivered || (0 <= b.sender < w.cfg.n && b in s.nodes[b.sender].sent)
    ensures InvOrCrashed(w, s')
  {
    if s'.nodes[i].core.Alive() {
      SentOnlyGrows(w, s, s', i);
    }
  }

  lemma StartKeepsInv(w: World, s: System, s': System, i: int)
    requires Inv(w, s) && StartStep(w, s, s', i) && WellFormed(w, s')
    ensures InvOrCrashed(w, s')
  {
    AllInStep(w, s);
    StartInStep(w, s.delivered, i, s.nodes[i]);
    OneNodeMoved(w, s, s', i);
  }

  /** A sent batch is the lock-step batch of its sender and round, and the recipient's incoming one. */
  lemma SentIsIncoming(w: World, s: System, b: Batch)
    requires Inv(w, s) && w.IsNode(b.sender) && b in s.nodes[b.sender].sent && w.IsNode(b.recipient)
    ensures b == w.SentBatch(b.sender, b.round) && b.round <= s.nodes[b.sender].core.round
    ensures b == w.Incoming(b.recipient, b.round)
  {
    var t :| 0 <= t < |s.nodes[b.sender].sent| && s.nodes[b.sender].sent[t] == b;
    GossipInverse(b.sender, b.recipient, b.round, w.cfg.n);
  }

  /** Delivering one more batch changes only what one node has received in one round. */
  lemma ArrivedWith(w: World, delivered: set<Batch>, b: Batch, j: int, t: nat)
    requires w.Valid() && w.IsNode(j) && w.IsNode(b.recipient) && b == w.Incoming(b.recipient, b.round)
    ensures Arrived(w, delivered + {b}, j, t) <==>
            Arrived(w, delivered, j, t) || (j == b.recipient && t == b.round)
  {
    IncomingShape(w, j, t);
  }

  lemma InStepUnaffected(w: World, delivered: set<Batch>, b: Batch, j: int, q: Node)
    requires w.Valid() && w.IsNode(j) && w.IsNode(b.recipient) && b == w.Incoming(b.recipient, b.round)
    requires j != b.recipient && InStep(w, delivered, j, q)
    ensures InStep(w, delivered + {b}, j, q)
  {
    forall t: nat ensures Arrived(w, delivered + {b}, j, t) <==> Arrived(w, delivered, j, t) {
      ArrivedWith(w, delivered, b, j, t);
    }
    forall t: nat ensures OfRound(q.future, t) == EarlyOf(w, delivered + {b}, j, q.core.round, t) {
      assert EarlyOf(w, delivered + {b}, j, q.core.round, t) == EarlyOf(w, delivered, j, q.core.round, t);
    }
  }

  lemma MissingIsNotPast(w: World, delivered: set<Batch>, j: int, q: Node, t: nat)
    requires w.Valid() && OnSchedule(w.cfg, q.core) && InStep(w, delivered, j, q) && !Arrived(w, delivered, j, t)
    ensures t >= q.core.round && (q.core.phase == Aggregate ==> t > q.core.round)
  {
  }

  /** A batch in flight is for the recipient's current round or a later one: it is never too old. */
  lemma InFlightIsNotTooOld(w: World, s: System, b: Batch)
    requires Inv(w, s) && InFlight(w, s, b)
    ensures b.round >= s.nodes[b.recipient].core.round
    ensures s.nodes[b.recipient].core.phase == Aggregate ==> b.round > s.nodes[b.recipient].core.round
  {
    SentIsIncoming(w, s, b);
    MissingIsNotPast(w, s.delivered, b.recipient, s.nodes[b.recipient], b.round);
  }

  lemma KeepsEarlySameRound(w: World, delivered: set<Batch>, b: Batch, j: int, future: seq<Transport>)
    requires w.Valid() && w.IsNode(j) && j == b.recipient && b == w.Incoming(j, b.round)
    requires KeepsEarly(w, delivered, j, future, b.round)
    ensures KeepsEarly(w, delivered + {b}, j, future, b.round)
  {
    forall t: nat ensures OfRound(future, t) == EarlyOf(w, delivered + {b}, j, b.round, t) {
      ArrivedWith(w, delivered, b, j, t);
      assert EarlyOf(w, delivered + {b}, j, b.round, t) == EarlyOf(w, delivered, j, b.round, t);
    }
  }

  lemma KeepsEarlyAnother(w: World, delivered: set<Batch>, b: Batch, j: int, future: seq<Transport>, round: int)
    requires w.Valid() && w.IsNode(j) && j == b.recipient && b == w.Incoming(j, b.round)
    requires b !in delivered && b.round > round && KeepsEarly(w, delivered, j, future, round)
    ensures KeepsEarly(w, delivered + {b}, j, future + b.messages, round)
  {
    IncomingShape(w, j, b.round);
    forall t: nat ensures OfRound(future + b.messages, t) == EarlyOf(w, delivered + {b}, j, round, t) {
      ArrivedWith(w, delivered, b, j, t);
      OfRoundConcat(future, b.messages, t);
      OfRoundUniform(b.messages, b.round, t);
      assert OfRound(future, t) == EarlyOf(w, delivered, j, round, t);
    }
  }

  lemma ReadyAfterBatch(w: World, delivered: set<Batch>, b: Batch, j: int, q: Node)
    requires w.Valid() && w.IsNode(j) && j == b.recipient && b == w.Incoming(j, b.round)
    requires InStep(w, delivered, j, q) && b.round == q.core.round && w.Handled(j, b.round).Alive()
    ensures ReadyToEnd(w, delivered + {b}, j, q.(core := w.Handled(j, b.round)))
  {
    KeepsEarlySameRound(w, delivered, b, j, q.future);
    forall t: nat | t <= b.round ensures Arrived(w, delivered + {b}, j, t) {
      ArrivedWith(w, delivered, b, j, t);
    }
  }

  /** The current round's batch arrives: it is handled, and the round ends. */
  lemma DeliveredNow(w: World, delivered: set<Batch>, b: Batch, j: int, q: Node)
    requires w.Valid() && w.IsNode(j) && j == b.recipient && b == w.Incoming(j, b.round)
    requires OnSchedule(w.cfg, q.core) && InStep(w, delivered, j, q) && b.round == q.core.round && !q.core.isLast
    ensures InStepOrCrashed(w, delivered + {b}, j, ReceiveAll(w.cfg, RELIABLE, j, q, b.messages))
    ensures ReceiveAll(w.cfg, RELIABLE, j, q, b.messages).core.round >= q.core.round
  {
    IncomingShape(w, j, b.round);
    ReceiveCurrent(w.cfg, j, q, b.messages);
    HandleBatch(w.cfg, j, q, b.messages);
    if w.Handled(j, b.round).Alive() {
      ReadyAfterBatch(w, delivered, b, j, q);
      EndRoundInStep(w, delivered + {b}, j, q.(core := w.Handled(j, b.round)));
    } else {
      CannotRead(w, j, b.round);
    }
  }

  /** A later round's batch arrives: it is kept. */
  lemma DeliveredEarly(w: World, delivered: set<Batch>, b: Batch, j: int, q: Node)
    requires w.Valid() && w.IsNode(j) && j == b.recipient && b == w.Incoming(j, b.round) && b !in delivered
    requires OnSchedule(w.cfg, q.core) && InStep(w, delivered, j, q) && b.round > q.core.round
    ensures ReceiveAll(w.cfg, RELIABLE, j, q, b.messages) == q.(future := q.future + b.messages)
    ensures InStep(w, delivered + {b}, j, q.(future := q.future + b.messages))
  {
    IncomingShape(w, j, b.round);
    ReceiveEarly(w.cfg, j, q, b.messages);
    KeepsEarlyAnother(w, delivered, b, j, q.future, q.core.round);
    forall t: nat ensures Arrived(w, delivered + {b}, j, t) <==> Arrived(w, delivered, j, t) || t == b.round {
      ArrivedWith(w, delivered, b, j, t);
    }
  }

  lemma DeliverKeepsInStep(w: World, s: System, b: Batch)
    requires Inv(w, s) && InFlight(w, s, b)
    ensures var j := b.recipient;
            var q := ReceiveAll(w.cfg, RELIABLE, j, s.nodes[j], b.messages);
            InStepOrCrashed(w, s.delivered + {b}, j, q) && q.core.round >= s.nodes[j].core.round
  {
    SentIsIncoming(w, s, b);
    InFlightIsNotTooOld(w, s, b);
    if b.round == s.nodes[b.recipient].core.round {
      DeliveredNow(w, s.delivered, b, b.recipient, s.nodes[b.recipient]);
    } else {
      DeliveredEarly(w, s.delivered, b, b.recipient, s.nodes[b.recipient]);
    }
  }

  lemma DeliverKeepsInv(w: World, s: System, s': System, b: Batch)
    requires Inv(w, s) && DeliverStep(w, s, s', b) && WellFormed(w, s')
    ensures InvOrCrashed(w, s')
  {
    AllInStep(w, s);
    SentIsIncoming(w, s, b);
    DeliverKeepsInStep(w, s, b);
    forall j | 0 <= j < w.cfg.n && j != b.recipient ensures InStep(w, s'.delivered, j, s'.nodes[j]) {
      InStepUnaffected(w, s.delivered, b, j, s.nodes[j]);
    }
    OneNodeMoved(w, s, s', b.recipient);
  }

  lemma StepKeepsInv(w: World, s: System, s': System)
    requires Inv(w, s) && Step(w, s, s') && WellFormed(w, s')
    ensures InvOrCrashed(w, s')
  {
    if i :| StartStep(w, s, s', i) {
      StartKeepsInv(w, s, s', i);
    } else {
      var b :| DeliverStep(w, s, s', b);
      DeliverKeepsInv(w, s, s', b);
    }
  }

  /** A node that has crashed takes no further part. */
  lemma CrashesStay(w: World, s: System, s': System)
    requires WellFormed(w, s) && Step(w, s, s') && !s.AllAlive()
    ensures !s'.AllAlive()
  {
    var j :| 0 <= j < |s.nodes| && !s.nodes[j].core.Alive();
    assert s'.nodes[j] == s.nodes[j];
  }

  lemma NextInv(w: World, s: System, s': System)
    requires InvOrCrashed(w, s) && Step(w, s, s') && WellFormed(w, s')
    ensures InvOrCrashed(w, s')
  {
    if s.AllAlive() {
      StepKeepsInv(w, s, s');
    } else {
      CrashesStay(w, s, s');
    }
  }

  /** Every run agrees with lock step up to its first crash. */
  lemma {:induction false} RunKeepsInv(w: World, run: seq<System>, k: nat)
    requires IsRun(w, run) && k < |run|
    ensures InvOrCrashed(w, run[k])
  {
    if k == 0 {
      InitialInv(w);
    } else {
      RunKeepsInv(w, run, k - 1);
      assert StepAt(w, run, k - 1);
      NextInv(w, run[k - 1], run[k]);
    }
  }

  // ----- What every run guarantees -----

  /** An asynchronous run simulates lock step: as long as no node has crashed, each node is at each round in exactly
      the state it would have if all nodes took every round together, whatever the timing. */
  lemma RunsSimulateLockStep(w: World, run: seq<System>, k: nat, j: int)
    requires IsRun(w, run) && k < |run| && run[k].AllAlive() && w.IsNode(j)
    ensures var c := run[k].nodes[j].core;
            && c == (if c.round < 0 then IDLE_CORE
                     else if c.isLast then w.Finished(j)
                     else w.Waiting(j, c.round))
            && |run[k].nodes[j].sent| == c.round + 1
            && forall t :: 0 <= t <= c.round ==> run[k].nodes[j].sent[t] == w.SentBatch(j, t)
  {
    RunKeepsInv(w, run, k);
  }

  /** In a world where nothing throws in lock step, no run ever crashes a node, whatever its timing. */
  lemma RunsThroughWithoutCrash(w: World, run: seq<System>, k: nat)
    requires IsRun(w, run) && k < |run| && RunsThrough(w)
    ensures run[k].AllAlive()
  {
    RunKeepsInv(w, run, k);
  }

  /** No batch is ever rejected as too old. */
  lemma NothingIsTooOld(w: World, run: seq<System>, k: nat, b: Batch)
    requires IsRun(w, run) && k < |run| && run[k].AllAlive() && InFlight(w, run[k], b)
    ensures b.round >= run[k].nodes[b.recipient].core.round
  {
    RunKeepsInv(w, run, k);
    InFlightIsNotTooOld(w, run[k], b);
  }

  /** The predecessor in a round a node has left has itself reached that round. */
  lemma PredecessorReached(w: World, s: System, j: int, t: nat)
    requires Inv(w, s) && w.IsNode(j) && t < s.nodes[j].core.round
    ensures w.IsNode(Predecessor(j, t, w.cfg.n)) && s.nodes[Predecessor(j, t, w.cfg.n)].core.round >= t
  {
    IncomingShape(w, j, t);
    assert Arrived(w, s.delivered, j, t);
    SentIsIncoming(w, s, w.Incoming(j, t));
  }

  lemma StepReached(w: World, s: System, a: int, b: int, t: nat)
    requires Inv(w, s) && w.IsNode(a) && w.IsNode(b) && IsStep(a, b, t, w.cfg.n) && s.nodes[b].core.round > t
    ensures s.nodes[a].core.round >= t
  {
    if b != a {
      PredecessorReached(w, s, b, t);
      GossipInverse(a, b, t, w.cfg.n);
    }
  }

  /** Going back along a walk, each node has reached the round in which the walk leaves it. */
  lemma {:induction false} WalkReached(w: World, s: System, walk: seq<int>, start: nat, k: nat)
    requires Inv(w, s) && IsWalk(walk, start, w.cfg.n) && k < |walk|
    requires s.nodes[walk[|walk| - 1]].core.round >= start + |walk| - 1
    ensures s.nodes[walk[k]].core.round >= start + k
    decreases |walk| - k
  {
    if k < |walk| - 1 {
      WalkReached(w, s, walk, start, k + 1);
      StepReached(w, s, walk[k], walk[k + 1], start + k);
    }
  }

  /** A walk of l rounds from i to j that ends where j is now has left i in a round that i has reached. */
  lemma WalkBoundsSkew(w: World, s: System, i: int, j: int, walk: seq<int>, l: nat)
    requires Inv(w, s) && w.IsNode(i) && w.IsNode(j) && s.nodes[j].core.round >= l && |walk| == l + 1
    requires WalkFromTo(walk, i, j, s.nodes[j].core.round - l, w.cfg.n)
    ensures s.nodes[j].core.round - s.nodes[i].core.round <= l
  {
    WalkReached(w, s, walk, s.nodes[j].core.round - l, 0);
  }

  /** Over an overlay that mixes no two nodes are ever more than ceil(log2 n) rounds apart. */
  lemma SkewIsBounded(w: World, run: seq<System>, k: nat, i: int, j: int)
    requires IsRun(w, run) && k < |run| && run[k].AllAlive() && w.IsNode(i) && w.IsNode(j) && Mixes(w.cfg.n)
    ensures run[k].nodes[j].core.round - run[k].nodes[i].core.round <= CeilLog2(w.cfg.n)
  {
    RunKeepsInv(w, run, k);
    var r, l := run[k].nodes[j].core.round, CeilLog2(w.cfg.n);
    if r >= l {
      var walk := CoveringWalk(i, j, r - l, w.cfg.n);
      WalkBoundsSkew(w, run[k], i, j, walk, l);
    }
  }

  ghost predicate AllFinished(s: System) {
    forall j :: 0 <= j < |s.nodes| ==> s.nodes[j].core.phase == Aggregate
  }

  /** Among the rounds of nodes, some of which are done in the last round, the least of an unfinished one. */
  lemma LowestUnfinished(rounds: seq<int>, unfinished: seq<bool>, last: int) returns (j: nat)
    requires |unfinished| == |rounds| && true in unfinished
    requires forall k :: 0 <= k < |rounds| ==> rounds[k] <= last && (unfinished[k] || rounds[k] == last)
    ensures j < |rounds| && unfinished[j] && forall i :: 0 <= i < |rounds| ==> rounds[j] <= rounds[i]
  {
    j :| 0 <= j < |unfinished| && unfinished[j];
    var k := 0;
    while k < |rounds|
      invariant 0 <= k <= |rounds| && j < |rounds| && unfinished[j]
      invariant forall i :: 0 <= i < k ==> rounds[j] <= rounds[i]
    {
      if rounds[k] < rounds[j] {
        j := k;
      }
      k := k + 1;
    }
  }

  /** An unfinished node no other node is behind. */
  lemma Slowest(w: World, s: System) returns (j: int)
    requires Inv(w, s) && !AllFinished(s)
    ensures w.IsNode(j) && s.nodes[j].core.phase != Aggregate
    ensures forall i :: w.IsNode(i) ==> s.nodes[j].core.round <= s.nodes[i].core.round
  {
    var rounds := seq(|s.nodes|, i requires 0 <= i < |s.nodes| => s.nodes[i].core.round);
    var unfinished := seq(|s.nodes|, i requires 0 <= i < |s.nodes| => s.nodes[i].core.phase != Aggregate);
    var open :| 0 <= open < |s.nodes| && s.nodes[open].core.phase != Aggregate;
    assert unfinished[open];
    forall k | 0 <= k < |rounds| ensures rounds[k] <= w.LastRound() && (unfinished[k] || rounds[k] == w.LastRound()) {
      assert InStep(w, s.delivered, k, s.nodes[k]);
    }
    j := LowestUnfinished(rounds, unfinished, w.LastRound());
    forall i | w.IsNode(i) ensures s.nodes[j].core.round <= s.nodes[i].core.round {
      assert rounds[j] <= rounds[i];
    }
  }

  lemma StartEnabled(w: World, s: System, j: int) returns (s': System)
    requires WellFormed(w, s) && w.IsNode(j) && s.nodes[j].core.phase == Setup
    ensures Step(w, s, s') && s' != s
  {
    var q := StartShuffle(w.cfg, s.Network(), j, s.nodes[j], w.onions(j));
    s' := s.(nodes := s.nodes[j := q]);
    assert StartStep(w, s, s', j);
    assert s'.nodes[j] == q && q.core.phase != Setup;
  }

  lemma DeliverEnabled(w: World, s: System, b: Batch) returns (s': System)
    requires WellFormed(w, s) && InFlight(w, s, b)
    ensures Step(w, s, s') && s' != s
  {
    var j := b.recipient;
    s' := System(s.nodes[j := ReceiveAll(w.cfg, s.Network(), j, s.nodes[j], b.messages)], s.delivered + {b});
    assert DeliverStep(w, s, s', b);
    assert b in s'.delivered;
  }

  /** Until a node crashes or every node is done some node can take its signature or some batch can be delivered. */
  lemma RunsMakeProgress(w: World, run: seq<System>, k: nat)
    requires IsRun(w, run) && k < |run| && run[k].AllAlive() && !AllFinished(run[k])
    ensures exists s' :: Step(w, run[k], s') && s' != run[k]
  {
    RunKeepsInv(w, run, k);
    var s := run[k];
    var j := Slowest(w, s);
    var t := s.nodes[j].core.round;
    if t < 0 {
      var s' := StartEnabled(w, s, j);
    } else {
      IncomingShape(w, j, t);
      var b := w.Incoming(j, t);
      assert s.nodes[b.sender].sent[t] == w.SentBatch(b.sender, t);
      assert !Arrived(w, s.delivered, j, t);
      var s' := DeliverEnabled(w, s, b);
    }
  }
}
