/** The ideal execution: all nodes take every round together. */
module LockStep {
  import opened Overlay
  import opened Messages
  import opened ProtocolSpec
  import opened Results

  function DeliverAll(cfg: Config, me: int, c: Core, ts: seq<Transport>): (r: Core)
    ensures r.round == c.round
    decreases |ts|
  {
    if ts == [] then c else DeliverAll(cfg, me, Deliver(cfg, me, c, ts[0].message), ts[1..])
  }

  /** A configuration and the onions each node starts its shuffle with, if it found paths for them. */
  datatype World = World(cfg: Config, onions: int -> Option<seq<Message>>) {
    ghost predicate Valid() {
      cfg.Valid()
    }

    ghost predicate IsNode(i: int) {
      0 <= i < cfg.n
    }

    function LastRound(): nat
      requires cfg.n >= 2
    {
      3 * cfg.Span()
    }

    /** Node i at the start of round t, about to send. */
    function Sending(i: int, t: nat): (c: Core)
      requires Valid()
      ensures c.round == t
      decreases t, 0
    {
      if t == 0 then
        if onions(i).None? then IDLE_CORE.(phase := Crashed, round := 0)
        else IDLE_CORE.(phase := Shuffle, outgoing := onions(i).value, round := 0)
      else PhaseEnd(cfg, i, Handled(i, t - 1)).(round := t)
    }

    function SentBatch(i: int, t: nat): (b: Batch)
      requires Valid()
      ensures b.sender == i && b.recipient == Target(i, t, cfg.n) && b.round == t
      decreases t, 1
    {
      BatchOf(cfg, i, Sending(i, t))
    }

    /** Node i in round t, after sending and before receiving. */
    function Waiting(i: int, t: nat): (c: Core)
      requires Valid()
      ensures c.round == t
      decreases t, 1
    {
      AfterSending(cfg, i, Sending(i, t))
    }

    /** The batch node i receives in round t. */
    function Incoming(i: int, t: nat): (b: Batch)
      requires Valid()
      decreases t, 2
    {
      SentBatch(Predecessor(i, t, cfg.n), t)
    }

    /** Node i in round t, after receiving. */
    function Handled(i: int, t: nat): (c: Core)
      requires Valid()
      ensures c.round == t
      decreases t, 3
    {
      DeliverAll(cfg, i, Waiting(i, t), Incoming(i, t).messages)
    }

    /** Node i when its overlay part is over. */
    function Finished(i: int): Core
      requires Valid()
    {
      PhaseEnd(cfg, i, Handled(i, LastRound()))
    }
  }

  /** What arrives in round t is one batch of that round from the predecessor, its last message final. */
  lemma IncomingShape(w: World, j: int, t: nat)
    requires w.Valid() && w.IsNode(j)
    ensures var b := w.Incoming(j, t);
            && b.recipient == j && b.round == t && w.IsNode(b.sender) && b.sender == Predecessor(j, t, w.cfg.n)
            && |b.messages| > 0
            && forall k :: 0 <= k < |b.messages| ==>
                 var m := b.messages[k];
                 m.sender == b.sender && m.round == t && m.isFinal == (k == |b.messages| - 1)
                 && Target(m.sender, m.round, w.cfg.n) == j
  {
    var i := Predecessor(j, t, w.cfg.n);
    GossipInverse(i, j, t, w.cfg.n);
    BatchShape(w.cfg, i, w.Sending(i, t));
  }

  /** Every message opens with the node's own key. */
  ghost predicate AllOpen(ts: seq<Transport>, me: int) {
    forall k :: 0 <= k < |ts| ==> Opens(ts[k].message, me)
  }

  lemma AllOpenStep(ts: seq<Transport>, me: int)
    requires ts != []
    ensures AllOpen(ts, me) <==> Opens(ts[0].message, me) && AllOpen(ts[1..], me)
  {
    if AllOpen(ts[1..], me) && Opens(ts[0].message, me) {
      forall k | 0 <= k < |ts| ensures Opens(ts[k].message, me) {
        assert k > 0 ==> ts[1..][k - 1] == ts[k];
      }
    }
  }

  lemma {:induction false} DeliverAllKeepsSchedule(cfg: Config, me: int, c: Core, ts: seq<Transport>)
    ensures var r := DeliverAll(cfg, me, c, ts);
            && r == c.(phase := r.phase, waiting := r.waiting, contributions := r.contributions, votes := r.votes)
            && r.phase == (if c.Alive() && !AllOpen(ts, me) then Crashed else c.phase)
            && (!c.Alive() ==> r == c)
    decreases |ts|
  {
    if ts != [] {
      DeliverKeepsSchedule(cfg, me, c, ts[0].message);
      DeliverAllKeepsSchedule(cfg, me, Deliver(cfg, me, c, ts[0].message), ts[1..]);
      AllOpenStep(ts, me);
    }
  }

  /** Whether a node can open everything it receives in round t. */
  ghost predicate CanRead(w: World, j: int, t: nat)
    requires w.Valid()
  {
    AllOpen(w.Incoming(j, t).messages, j)
  }

  /** Whether a node that is alive at the end of round t finds the paths it then needs. */
  ghost predicate FindsPaths(w: World, j: int, t: nat)
    requires w.Valid()
  {
    w.Handled(j, t).Alive() ==> PhaseEnd(w.cfg, j, w.Handled(j, t)).Alive()
  }

  ghost predicate Passes(w: World, j: int, t: nat)
    requires w.Valid()
  {
    CanRead(w, j, t) && FindsPaths(w, j, t)
  }

  ghost predicate PassesBefore(w: World, j: int, t: nat)
    requires w.Valid()
  {
    w.onions(j).Some? && forall u: nat :: u < t ==> Passes(w, j, u)
  }

  /** Only a message that does not open and a search for paths can crash a node. */
  lemma AliveThrough(w: World, j: int, t: nat)
    requires w.Valid()
    ensures w.Waiting(j, t).phase == w.Sending(j, t).phase
    ensures t == 0 ==> (w.Sending(j, t).Alive() <==> w.onions(j).Some?)
    ensures t > 0 ==> (w.Sending(j, t).Alive() <==> w.Handled(j, t - 1).Alive() && FindsPaths(w, j, t - 1))
    ensures w.Handled(j, t).Alive() <==> w.Waiting(j, t).Alive() && CanRead(w, j, t)
  {
    DeliverAllKeepsSchedule(w.cfg, j, w.Waiting(j, t), w.Incoming(j, t).messages);
  }

  lemma WaitedBefore(w: World, j: int, t: nat)
    requires w.Valid() && w.Handled(j, t).Alive()
    ensures w.Waiting(j, t).Alive()
  {
    DeliverAllKeepsSchedule(w.cfg, j, w.Waiting(j, t), w.Incoming(j, t).messages);
  }

  lemma AliveRoundBefore(w: World, j: int, t: nat)
    requires w.Valid() && t > 0 && w.Waiting(j, t).Alive()
    ensures w.Waiting(j, t - 1).Alive() && w.Handled(j, t - 1).Alive()
  {
    AliveThrough(w, j, t);
    AliveThrough(w, j, t - 1);
  }

  lemma PassesOneMore(w: World, j: int, t: nat)
    requires w.Valid() && t > 0
    ensures PassesBefore(w, j, t) <==> PassesBefore(w, j, t - 1) && Passes(w, j, t - 1)
  {
    if PassesBefore(w, j, t - 1) && Passes(w, j, t - 1) {
      forall u: nat | u < t ensures Passes(w, j, u) {
        assert u == t - 1 || u < t - 1;
      }
    }
  }

  ghost predicate AliveWhenPassed(w: World, j: int, t: nat)
    requires w.Valid()
  {
    && (w.Waiting(j, t).Alive() <==> PassesBefore(w, j, t))
    && (w.Handled(j, t).Alive() <==> PassesBefore(w, j, t) && CanRead(w, j, t))
  }

  lemma AliveOneMore(w: World, j: int, t: nat)
    requires w.Valid() && (t > 0 ==> AliveWhenPassed(w, j, t - 1))
    ensures AliveWhenPassed(w, j, t)
  {
    AliveThrough(w, j, t);
    if t > 0 {
      PassesOneMore(w, j, t);
    }
  }

  /** In lock step a node is alive in a round exactly when it found its paths and could read everything before. */
  lemma {:induction false} AliveExactlyWhenPassed(w: World, j: int, t: nat)
    requires w.Valid()
    ensures AliveWhenPassed(w, j, t)
    decreases t
  {
    if t > 0 {
      AliveExactlyWhenPassed(w, j, t - 1);
    }
    AliveOneMore(w, j, t);
  }

  lemma PassedEarlier(w: World, j: int, t: nat, u: nat)
    requires w.Valid() && t < u && PassesBefore(w, j, u)
    ensures PassesBefore(w, j, t) && Passes(w, j, t)
  {
  }

  /** A node that is alive in some round was so in every round before. */
  lemma AliveEarlier(w: World, j: int, t: nat, u: nat)
    requires w.Valid() && t < u && w.Waiting(j, u).Alive()
    ensures w.Waiting(j, t).Alive() && w.Handled(j, t).Alive() && Passes(w, j, t)
  {
    AliveExactlyWhenPassed(w, j, u);
    AliveExactlyWhenPassed(w, j, t);
    PassedEarlier(w, j, t, u);
  }

  ghost predicate StartsOnTime(w: World, i: int, t: nat)
    requires w.Valid()
  {
    OnSchedule(w.cfg, w.Sending(i, t)) && w.Sending(i, t).InOverlay()
  }

  /** The phase of a node fits the round, when the round starts, after sending, and, if still alive, at its end. */
  ghost predicate OnTime(w: World, i: int, t: nat)
    requires w.Valid()
  {
    && StartsOnTime(w, i, t)
    && OnSchedule(w.cfg, w.Waiting(i, t)) && w.Waiting(i, t).InOverlay()
    && OnSchedule(w.cfg, w.Handled(i, t)) && (w.Handled(i, t).Alive() ==> w.Handled(i, t).InOverlay())
  }

  lemma FirstStartsOnTime(w: World, i: int)
    requires w.Valid() && w.Sending(i, 0).Alive()
    ensures StartsOnTime(w, i, 0)
  {
  }

  lemma NextStartsOnTime(w: World, i: int, t: nat)
    requires w.Valid() && 0 < t <= w.LastRound() && OnTime(w, i, t - 1) && w.Handled(i, t - 1).Alive()
    requires w.Sending(i, t).Alive()
    ensures StartsOnTime(w, i, t)
  {
    PhasesEndExactly(w.cfg, i, w.Handled(i, t - 1));
  }

  lemma EndsOnTime(w: World, i: int, t: nat)
    requires w.Valid() && StartsOnTime(w, i, t)
    ensures OnTime(w, i, t)
  {
    DeliverAllKeepsSchedule(w.cfg, i, w.Waiting(i, t), w.Incoming(i, t).messages);
  }

  /** In lock step every node that is still alive is on schedule, in every round up to 3S. */
  lemma {:induction false} LockStepOnSchedule(w: World, i: int, t: nat)
    requires w.Valid() && t <= w.LastRound() && w.Waiting(i, t).Alive()
    ensures OnTime(w, i, t)
    decreases t
  {
    AliveThrough(w, i, t);
    if t == 0 {
      FirstStartsOnTime(w, i);
    } else {
      AliveRoundBefore(w, i, t);
      LockStepOnSchedule(w, i, t - 1);
      NextStartsOnTime(w, i, t);
    }
    EndsOnTime(w, i, t);
  }

  /** The last lock-step round ends the overlay part. */
  lemma LockStepFinishes(w: World, i: int)
    requires w.Valid() && w.Handled(i, w.LastRound()).Alive()
    ensures w.Finished(i).isLast && OnSchedule(w.cfg, w.Finished(i)) && w.Finished(i).phase == Aggregate
  {
    AliveThrough(w, i, w.LastRound());
    LockStepOnSchedule(w, i, w.LastRound());
    PhasesEndExactly(w.cfg, i, w.Handled(i, w.LastRound()));
  }

  // ----- Worlds in which nothing throws -----

  /** In lock step every node finds all its paths and can open everything it receives. */
  ghost predicate RunsThrough(w: World)
    requires w.Valid()
  {
    && (forall j :: w.IsNode(j) ==> w.onions(j).Some?)
    && (forall j: int, t: nat :: w.IsNode(j) && t <= w.LastRound() ==> Passes(w, j, t))
  }

  lemma RunsThroughPasses(w: World, j: int, t: nat)
    requires w.Valid() && RunsThrough(w) && w.IsNode(j) && t <= w.LastRound()
    ensures PassesBefore(w, j, t) && Passes(w, j, t)
  {
    forall u: nat | u < t ensures Passes(w, j, u) {
    }
  }

  lemma AliveWhileRunningThrough(w: World, j: int, t: nat)
    requires w.Valid() && RunsThrough(w) && w.IsNode(j) && t <= w.LastRound()
    ensures w.Waiting(j, t).Alive() && w.Handled(j, t).Alive() && FindsPaths(w, j, t)
  {
    RunsThroughPasses(w, j, t);
    AliveExactlyWhenPassed(w, j, t);
  }

  /** A message, with all it encloses, locked for nobody but the node it goes to. */
  ghost predicate Addressed(m: Message) {
    && (m.lock == Plain || (!m.flood && m.lock == For(m.destination)))
    && (m.body.Encloses? ==> Addressed(m.body.inner))
  }

  ghost predicate AllAddressed(ms: seq<Message>) {
    forall k :: 0 <= k < |ms| ==> Addressed(ms[k])
  }

  ghost predicate FoundAndAddressed(ms: Option<seq<Message>>) {
    ms.Some? && AllAddressed(ms.value)
  }

  /** All searches for paths succeed, and all that nodes put into circulation is addressed in this way. */
  ghost predicate ScriptsAddress(w: World) {
    && (forall i :: w.IsNode(i) ==> FoundAndAddressed(w.onions(i)))
    && (forall i, held :: FoundAndAddressed(w.cfg.script.signedValues(i, held)))
    && (forall i, votes :: FoundAndAddressed(w.cfg.script.acceptedValues(i, votes)))
  }

  lemma {:induction false} PartsAddressed(ms: seq<Message>, target: int, floods: bool)
    requires AllAddressed(ms)
    ensures AllAddressed(Staying(ms, target, floods)) && AllAddressed(Leaving(ms, target, floods))
    ensures forall k :: 0 <= k < |Leaving(ms, target, floods)| ==> Opens(Leaving(ms, target, floods)[k], target)
    decreases |ms|
  {
    if ms != [] {
      PartsAddressed(ms[..|ms| - 1], target, floods);
    }
  }

  ghost predicate CoreAddressed(c: Core) {
    AllAddressed(c.waiting) && AllAddressed(c.outgoing)
  }

  ghost predicate OpenAndAddressed(ts: seq<Transport>, j: int) {
    forall k :: 0 <= k < |ts| ==> Opens(ts[k].message, j) && Addressed(ts[k].message)
  }

  lemma SendsAddressed(cfg: Config, i: int, c: Core)
    requires cfg.Valid() && c.round >= 0 && CoreAddressed(c)
    ensures OpenAndAddressed(BatchOf(cfg, i, c).messages, Target(i, c.round, cfg.n))
    ensures CoreAddressed(AfterSending(cfg, i, c))
  {
    var target, ready := Target(i, c.round, cfg.n), ReadyMessages(cfg, i, c);
    PartsAddressed(c.waiting, target, false);
    PartsAddressed(c.outgoing, target, true);
    WrapShape(if ready == [] then [Dummy(target)] else ready, i, c.round);
  }

  lemma OneMoreAddressed(ms: seq<Message>, m: Message)
    requires AllAddressed(ms) && Addressed(m)
    ensures AllAddressed(ms + [m])
  {
  }

  lemma DeliveryAddressed(cfg: Config, me: int, c: Core, m: Message)
    requires CoreAddressed(c) && Addressed(m) && Opens(m, me)
    ensures CoreAddressed(Deliver(cfg, me, c, m))
  {
    var waiting := c.waiting;
    if m.PathOverlay? && m.remainingPath != [] {
      var next := m.(lock := Plain, destination := m.remainingPath[0], remainingPath := m.remainingPath[1..]);
      OneMoreAddressed(waiting, next);
      waiting := waiting + [next];
    }
    if m.body.Encloses? {
      OneMoreAddressed(waiting, m.body.inner);
    }
  }

  lemma {:induction false} DeliveriesAddressed(cfg: Config, me: int, c: Core, ts: seq<Transport>)
    requires CoreAddressed(c) && OpenAndAddressed(ts, me)
    ensures CoreAddressed(DeliverAll(cfg, me, c, ts))
    decreases |ts|
  {
    if ts != [] {
      DeliveryAddressed(cfg, me, c, ts[0].message);
      DeliveriesAddressed(cfg, me, Deliver(cfg, me, c, ts[0].message), ts[1..]);
    }
  }

  lemma StartsAddressed(w: World, i: int, t: nat)
    requires w.Valid() && ScriptsAddress(w) && w.IsNode(i) && (t > 0 ==> CoreAddressed(w.Handled(i, t - 1)))
    ensures CoreAddressed(w.Sending(i, t))
  {
  }

  lemma RoundAddressed(w: World, i: int, t: nat)
    requires w.Valid() && w.IsNode(i) && forall j :: w.IsNode(j) ==> CoreAddressed(w.Sending(j, t))
    ensures CoreAddressed(w.Handled(i, t)) && CanRead(w, i, t)
  {
    IncomingShape(w, i, t);
    var from := Predecessor(i, t, w.cfg.n);
    SendsAddressed(w.cfg, from, w.Sending(from, t));
    SendsAddressed(w.cfg, i, w.Sending(i, t));
    DeliveriesAddressed(w.cfg, i, w.Waiting(i, t), w.Incoming(i, t).messages);
  }

  lemma {:induction false} NodesStayAddressed(w: World, i: int, t: nat)
    requires w.Valid() && ScriptsAddress(w) && w.IsNode(i)
    ensures CoreAddressed(w.Handled(i, t)) && CanRead(w, i, t)
    decreases t
  {
    forall j | w.IsNode(j) ensures CoreAddressed(w.Sending(j, t)) {
      if t > 0 {
        NodesStayAddressed(w, j, t - 1);
      }
      StartsAddressed(w, j, t);
    }
    RoundAddressed(w, i, t);
  }

  lemma ScriptsFindPaths(w: World, j: int, t: nat)
    requires w.Valid() && ScriptsAddress(w)
    ensures FindsPaths(w, j, t)
  {
    var c := w.Handled(j, t);
    assert FoundAndAddressed(w.cfg.script.signedValues(j, c.contributions));
    assert FoundAndAddressed(w.cfg.script.acceptedValues(j, c.votes));
  }

  /** If all searches succeed and nothing is ever locked for another node than the one it goes to, nothing throws. */
  lemma AddressedWorldsRunThrough(w: World)
    requires w.Valid() && ScriptsAddress(w)
    ensures RunsThrough(w)
  {
    forall j | w.IsNode(j) ensures w.onions(j).Some? {
      assert FoundAndAddressed(w.onions(j));
    }
    forall j: int, t: nat | w.IsNode(j) && t <= w.LastRound() ensures Passes(w, j, t) {
      NodesStayAddressed(w, j, t);
      ScriptsFindPaths(w, j, t);
    }
  }
}
