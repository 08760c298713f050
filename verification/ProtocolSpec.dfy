/** One node of the round protocol, as a function of its state and the outcome of its sends. */
module ProtocolSpec {
  import opened NumberTheory
  import opened Overlay
  import opened Messages
  import opened Results

  /** Crashed stands for an exception that has left a handler and ended the process. */
  datatype Phase = Setup | Shuffle | Agreement | Aggregate | Crashed

  /** What the parts of the protocol outside the overlay decide: which contributions verify, and which messages a
      node multicasts after the shuffle and after the first agreement phase, if the search for their paths succeeds. */
  datatype Script = Script(
    verifies: Payload -> bool,
    signedValues: (int, set<Payload>) -> Option<seq<Message>>,
    acceptedValues: (int, seq<Payload>) -> Option<seq<Message>>)

  datatype Config = Config(n: nat, script: Script) {
    ghost predicate Valid() {
      n >= 2
    }

    function LogN(): nat
      requires n >= 2
    {
      CeilLog2(n)
    }

    function Faults(): nat
      requires n >= 2
    {
      CeilLog2(n)
    }

    /** The length of a phase in rounds. */
    function Span(): nat
      requires n >= 2
    {
      2 * Faults() + Square(LogN()) + 1
    }
  }

  datatype Core = Core(
    phase: Phase, round: int, agreementStart: int, phase1Done: bool, isLast: bool,
    waiting: seq<Message>, outgoing: seq<Message>,
    contributions: set<Payload>, votes: seq<Payload>) {

    predicate InOverlay() {
      phase == Shuffle || phase == Agreement
    }

    predicate Alive() {
      phase != Crashed
    }

    /** No further round follows. */
    predicate Stops() {
      isLast || phase == Crashed
    }

    /** The node has been started and still runs. */
    predicate Active() {
      phase != Setup && phase != Crashed
    }
  }

  /** A node: its core, the peers it holds for dead, messages kept for later rounds, and what it has sent. */
  datatype Node = Node(core: Core, failed: set<int>, future: seq<Transport>, sent: seq<Batch>)

  /** Whether sending a batch or a ping to a peer succeeds in a given round. */
  datatype Env = Env(batchArrives: (int, int) -> bool, pingArrives: (int, int) -> bool)

  const IDLE_CORE := Core(Setup, -1, 0, false, false, [], [], {}, [])

  // ----- The phase schedule -----

  /** What ending the current round does to the phase. */
  function PhaseEnd(cfg: Config, me: int, c: Core): Core
    requires cfg.Valid()
  {
    var f, l := cfg.Faults(), cfg.LogN();
    if c.phase == Shuffle && c.round >= 2 * f + Square(l) + 1 then
      var messages := cfg.script.signedValues(me, c.contributions);
      if messages.None? then c.(phase := Crashed)
      else c.(outgoing := c.outgoing + messages.value, agreementStart := c.round, phase := Agreement)
    else if c.phase == Agreement && c.round >= c.agreementStart + 4 * f + 2 * Square(l) + 2 && c.phase1Done then
      c.(phase := Aggregate, isLast := true)
    else if c.phase == Agreement && c.round >= c.agreementStart + 2 * f + Square(l) + 1 && !c.phase1Done then
      var messages := cfg.script.acceptedValues(me, c.votes);
      if messages.None? then c.(phase := Crashed)
      else c.(outgoing := c.outgoing + messages.value, phase1Done := true)
    else c
  }

  /** A node between two events: its phase fits its round. */
  predicate OnSchedule(cfg: Config, c: Core)
    requires cfg.Valid()
  {
    var s := cfg.Span();
    match c.phase
    case Setup => c.round == -1 && !c.isLast && !c.phase1Done
    case Shuffle => -1 <= c.round <= s && !c.isLast && !c.phase1Done
    case Agreement =>
      && !c.isLast && c.agreementStart == s
      && (if c.phase1Done then 2 * s < c.round <= 3 * s else s < c.round <= 2 * s)
    case Aggregate => c.isLast && c.round == 3 * s
    case Crashed => -1 <= c.round <= 3 * s && (c.isLast ==> c.round == 3 * s)
  }

  /** A phase takes 2L + L^2 + 1 rounds, L being the logarithm of the number of meters, rounded up. */
  lemma PhaseLength(cfg: Config)
    requires cfg.Valid()
    ensures var l := CeilLog2(cfg.n); cfg.Span() == 2 * l + l * l + 1
    ensures Pow(2, CeilLog2(cfg.n)) >= cfg.n && forall k: nat :: k < CeilLog2(cfg.n) ==> Pow(2, k) < cfg.n
  {
    SquareIs(CeilLog2(cfg.n));
  }

  /** The three phases end at exactly S, 2S and 3S, in that order, and at no other round; a node crashes there exactly
      when it finds no paths for what it has to multicast. */
  lemma PhasesEndExactly(cfg: Config, me: int, c: Core)
    requires cfg.Valid() && OnSchedule(cfg, c) && c.Alive()
    ensures var s, c' := cfg.Span(), PhaseEnd(cfg, me, c);
            && (c'.phase == Crashed <==>
                 (c.phase == Shuffle && c.round == s && cfg.script.signedValues(me, c.contributions).None?)
                 || (c.phase == Agreement && c.round == 2 * s && cfg.script.acceptedValues(me, c.votes).None?))
            && (c'.phase == Crashed ==> c' == c.(phase := Crashed) && OnSchedule(cfg, c'))
            && (c'.phase == Setup <==> c.phase == Setup)
            && (c'.phase == Aggregate ==> c'.phase1Done || c.phase == Aggregate)
            && (c'.Alive() ==>
                 && (c.phase == Shuffle && c'.phase == Agreement <==> c.phase == Shuffle && c.round == s)
                 && (!c.phase1Done && c'.phase1Done <==> c.phase == Agreement && c.round == 2 * s)
                 && (c.phase == Agreement && c'.phase == Aggregate <==> c.phase == Agreement && c.round == 3 * s)
                 && (!c'.isLast && c.phase != Setup ==> OnSchedule(cfg, c'.(round := c.round + 1)))
                 && (c'.isLast ==> OnSchedule(cfg, c')))
  {
  }

  // ----- Sending -----

  /** A message leaves when its next hop is this round's gossip target. */
  predicate Leaves(m: Message, target: int, floods: bool) {
    (floods && m.flood) || m.destination == target
  }

  function Leaving(ms: seq<Message>, target: int, floods: bool): seq<Message> {
    if ms == [] then [] else
      Leaving(ms[..|ms| - 1], target, floods)
      + (if Leaves(ms[|ms| - 1], target, floods) then [ms[|ms| - 1]] else [])
  }

  function Staying(ms: seq<Message>, target: int, floods: bool): seq<Message> {
    if ms == [] then [] else
      Staying(ms[..|ms| - 1], target, floods)
      + (if Leaves(ms[|ms| - 1], target, floods) then [] else [ms[|ms| - 1]])
  }

  function WrapAll(ms: seq<Message>, me: int, round: nat): (r: seq<Transport>)
    ensures |r| == |ms|
  {
    if ms == [] then [] else WrapAll(ms[..|ms| - 1], me, round) + [Transport(me, round, false, ms[|ms| - 1])]
  }

  /** The messages of one round wrapped for sending, the last one marked as final. */
  function Wrap(ms: seq<Message>, me: int, round: nat): (r: seq<Transport>)
    ensures |r| == |ms|
  {
    if ms == [] then [] else WrapAll(ms[..|ms| - 1], me, round) + [Transport(me, round, true, ms[|ms| - 1])]
  }

  lemma {:induction false} WrapAllShape(ms: seq<Message>, me: int, round: nat, k: nat)
    requires k < |ms|
    ensures WrapAll(ms, me, round)[k] == Transport(me, round, false, ms[k])
    decreases |ms|
  {
    if k < |ms| - 1 {
      WrapAllShape(ms[..|ms| - 1], me, round, k);
    }
  }

  lemma WrapShape(ms: seq<Message>, me: int, round: nat)
    ensures forall k :: 0 <= k < |ms| ==> Wrap(ms, me, round)[k] == Transport(me, round, k == |ms| - 1, ms[k])
  {
    forall k | 0 <= k < |ms| ensures Wrap(ms, me, round)[k] == Transport(me, round, k == |ms| - 1, ms[k]) {
      if k < |ms| - 1 {
        WrapAllShape(ms[..|ms| - 1], me, round, k);
      }
    }
  }

  /** With nothing to send, an empty message tells the recipient that the round is over. */
  function Dummy(target: int): Message {
    Overlay(target, Plain, false, Empty)
  }

  function ReadyMessages(cfg: Config, me: int, c: Core): seq<Message>
    requires cfg.Valid() && c.round >= 0
  {
    var target := Target(me, c.round, cfg.n);
    Leaving(c.waiting, target, false) + Leaving(c.outgoing, target, true)
  }

  function BatchOf(cfg: Config, me: int, c: Core): (b: Batch)
    requires cfg.Valid() && c.round >= 0
    ensures b.sender == me && b.recipient == Target(me, c.round, cfg.n) && b.round == c.round
    ensures |b.messages| > 0
  {
    var target := Target(me, c.round, cfg.n);
    var ready := ReadyMessages(cfg, me, c);
    Batch(me, target, c.round, Wrap(if ready == [] then [Dummy(target)] else ready, me, c.round))
  }

  /** Every message of a batch carries the sender and the round, and exactly the last one is marked as final. */
  lemma BatchShape(cfg: Config, me: int, c: Core)
    requires cfg.Valid() && c.round >= 0
    ensures var b := BatchOf(cfg, me, c);
            forall k :: 0 <= k < |b.messages| ==>
              b.messages[k].sender == me && b.messages[k].round == c.round
              && b.messages[k].isFinal == (k == |b.messages| - 1)
  {
    var target := Target(me, c.round, cfg.n);
    var ready := ReadyMessages(cfg, me, c);
    WrapShape(if ready == [] then [Dummy(target)] else ready, me, c.round);
  }

  function AfterSending(cfg: Config, me: int, c: Core): Core
    requires cfg.Valid() && c.round >= 0
  {
    var target := Target(me, c.round, cfg.n);
    c.(waiting := Staying(c.waiting, target, false) + Staying(c.outgoing, target, true), outgoing := [])
  }

  // ----- Receiving -----

  function HandlePayload(cfg: Config, c: Core, p: Payload): Core {
    if c.phase == Shuffle then
      if cfg.script.verifies(p) then c.(contributions := c.contributions + {p}) else c
    else if c.phase == Agreement then c.(votes := c.votes + [p])
    else c
  }

  /** What becomes of a message that opens: it is forwarded later, handed to the current phase, or dropped. */
  function DeliverOpened(cfg: Config, me: int, c: Core, m: Message): Core {
    var moved := m.PathOverlay? && m.remainingPath != [];
    var m' := if moved then m.(destination := m.remainingPath[0], remainingPath := m.remainingPath[1..]) else m;
    var c' := if moved then c.(waiting := c.waiting + [m']) else c;
    match m'.body
    case Empty => c'
    case Encloses(inner) => c'.(waiting := c'.waiting + [inner])
    case Carries(p) => if m'.destination == me then HandlePayload(cfg, c', p) else c'
  }

  /** A received message is opened first; a body locked for another node ends the process there. */
  function Deliver(cfg: Config, me: int, c: Core, received: Message): Core {
    if !c.Alive() then c
    else if !Opens(received, me) then c.(phase := Crashed)
    else DeliverOpened(cfg, me, c, Decrypt(received, me))
  }

  /** Receiving a message leaves the schedule alone, and crashes a node exactly when the message does not open. */
  lemma DeliverKeepsSchedule(cfg: Config, me: int, c: Core, m: Message)
    ensures var c' := Deliver(cfg, me, c, m);
            && c' == c.(phase := c'.phase, waiting := c'.waiting, contributions := c'.contributions, votes := c'.votes)
            && c'.phase == (if c.Alive() && !Opens(m, me) then Crashed else c.phase)
  {
  }

  function OfRound(ts: seq<Transport>, round: int): (r: seq<Transport>)
    ensures |r| <= |ts|
    ensures forall t :: t in r ==> t in ts && t.round == round
  {
    if ts == [] then [] else
      OfRound(ts[..|ts| - 1], round) + (if ts[|ts| - 1].round == round then [ts[|ts| - 1]] else [])
  }

  function NotOfRound(ts: seq<Transport>, round: int): seq<Transport> {
    if ts == [] then [] else
      NotOfRound(ts[..|ts| - 1], round) + (if ts[|ts| - 1].round == round then [] else [ts[|ts| - 1]])
  }

  // ----- Rounds: the three-way recursion -----

  /** How many rounds the node still has before it; every started round brings it closer to 3S. */
  function RoundsLeft(cfg: Config, c: Core): nat
    requires cfg.Valid() && OnSchedule(cfg, c)
  {
    if c.isLast then 0 else 3 * cfg.Span() + 1 - c.round
  }

  lemma DeliverOnSchedule(cfg: Config, me: int, c: Core, m: Message)
    requires cfg.Valid() && OnSchedule(cfg, c) && c.phase != Setup
    ensures var c' := Deliver(cfg, me, c, m);
            OnSchedule(cfg, c') && c'.phase != Setup && c'.round == c.round && RoundsLeft(cfg, c') == RoundsLeft(cfg, c)
  {
    DeliverKeepsSchedule(cfg, me, c, m);
  }

  /** The state right after a new round's batch and ping went out. */
  function NextRound(cfg: Config, env: Env, me: int, q: Node, ended: Core): Node
    requires cfg.Valid() && ended.round >= -1
  {
    var c := ended.(round := ended.round + 1);
    var batch := BatchOf(cfg, me, c);
    var failed := if env.batchArrives(c.round, batch.recipient) then q.failed else q.failed + {batch.recipient};
    var pred := Predecessor(me, c.round, cfg.n);
    var failed' := if pred in failed || env.pingArrives(c.round, pred) then failed else failed + {pred};
    Node(AfterSending(cfg, me, c), failed', NotOfRound(q.future, c.round), q.sent + [batch])
  }

  lemma NextRoundOnSchedule(cfg: Config, env: Env, me: int, q: Node)
    requires cfg.Valid() && OnSchedule(cfg, q.core) && q.core.Active()
    requires !PhaseEnd(cfg, me, q.core).Stops()
    ensures var started := NextRound(cfg, env, me, q, PhaseEnd(cfg, me, q.core)).core;
            OnSchedule(cfg, started) && started.InOverlay() && started.round == q.core.round + 1
  {
    PhasesEndExactly(cfg, me, q.core);
  }

  function EndRound(cfg: Config, env: Env, me: int, q: Node): (r: Node)
    requires cfg.Valid() && OnSchedule(cfg, q.core) && q.core.Active()
    ensures OnSchedule(cfg, r.core) && r.core.phase != Setup
    ensures RoundsLeft(cfg, r.core) <= RoundsLeft(cfg, q.core)
    ensures r.core.Stops() || r.core.round > q.core.round
    decreases RoundsLeft(cfg, q.core), 0, 0
  {
    PhasesEndExactly(cfg, me, q.core);
    var ended := PhaseEnd(cfg, me, q.core);
    if ended.Stops() then q.(core := ended) else
      NextRoundOnSchedule(cfg, env, me, q);
      var started := NextRound(cfg, env, me, q, ended);
      var handled := HandleAll(cfg, env, me, started, OfRound(q.future, started.core.round));
      if handled.core.Alive() && handled.core.round == started.core.round
         && Predecessor(me, started.core.round, cfg.n) in handled.failed
      then EndRound(cfg, env, me, handled)
      else handled
  }

  /** Handles one message of the current round; the final one ends the round. */
  function Handle(cfg: Config, env: Env, me: int, q: Node, t: Transport): (r: Node)
    requires cfg.Valid() && OnSchedule(cfg, q.core) && q.core.phase != Setup
    ensures OnSchedule(cfg, r.core) && r.core.phase != Setup
    ensures RoundsLeft(cfg, r.core) <= RoundsLeft(cfg, q.core)
    ensures r.core.round >= q.core.round
    decreases RoundsLeft(cfg, q.core), 1, 0
  {
    DeliverOnSchedule(cfg, me, q.core, t.message);
    var q' := q.(core := Deliver(cfg, me, q.core, t.message));
    if t.isFinal && q'.core.InOverlay() then EndRound(cfg, env, me, q') else q'
  }

  /** Handles messages one after the other; a crash leaves the rest of them unhandled. */
  function HandleAll(cfg: Config, env: Env, me: int, q: Node, ts: seq<Transport>): (r: Node)
    requires cfg.Valid() && OnSchedule(cfg, q.core) && q.core.phase != Setup
    ensures OnSchedule(cfg, r.core) && r.core.phase != Setup
    ensures RoundsLeft(cfg, r.core) <= RoundsLeft(cfg, q.core)
    ensures r.core.round >= q.core.round
    decreases RoundsLeft(cfg, q.core), 2, |ts|
  {
    if ts == [] then q else
      HandleAll(cfg, env, me, Handle(cfg, env, me, q, ts[0]), ts[1..])
  }

  lemma {:induction false} CrashedHandlesNothing(cfg: Config, env: Env, me: int, q: Node, ts: seq<Transport>)
    requires cfg.Valid() && OnSchedule(cfg, q.core) && q.core.phase != Setup && (!q.core.Alive() || ts == [])
    ensures HandleAll(cfg, env, me, q, ts) == q
    decreases |ts|
  {
    if ts != [] {
      CrashedHandlesNothing(cfg, env, me, q, ts[1..]);
    }
  }

  // ----- The events of one node -----

  datatype Event =
    | SignatureArrives(onions: Option<seq<Message>>, env: Env)
    | Receives(t: Transport, env: Env)
    | TimesOut(answered: bool, env: Env)

  /** The utility's signature arrives: the shuffle starts by ending "round -1", if paths for the onions were found. */
  function StartShuffle(cfg: Config, env: Env, me: int, q: Node, onions: Option<seq<Message>>): (r: Node)
    requires cfg.Valid() && OnSchedule(cfg, q.core) && q.core.phase == Setup
    ensures OnSchedule(cfg, r.core) && r.core.phase != Setup
  {
    if onions.None? then q.(core := q.core.(phase := Crashed)) else
      EndRound(cfg, env, me, q.(core := q.core.(phase := Shuffle, outgoing := q.core.outgoing + onions.value)))
  }

  /** The client's dispatch: handle in the right round, keep early messages, reject late or misrouted ones. */
  function Receive(cfg: Config, env: Env, me: int, q: Node, t: Transport): (r: Node)
    requires cfg.Valid() && OnSchedule(cfg, q.core)
    ensures OnSchedule(cfg, r.core)
  {
    if !q.core.Alive() || Target(t.sender, t.round, cfg.n) != me then q
    else if t.round == q.core.round then Handle(cfg, env, me, q, t)
    else if t.round > q.core.round then q.(future := q.future + [t])
    else q
  }

  /** A round timeout: wait on if the predecessor answered a ping, otherwise give the round up. */
  function TimeOut(cfg: Config, env: Env, me: int, q: Node, answered: bool): (r: Node)
    requires cfg.Valid() && OnSchedule(cfg, q.core) && q.core.Active()
    ensures OnSchedule(cfg, r.core)
  {
    if answered then
      var pred := if q.core.round >= 0 then Predecessor(me, q.core.round, cfg.n) else -1;
      if env.pingArrives(q.core.round, pred) then q else q.(failed := q.failed + {pred})
    else EndRound(cfg, env, me, q)
  }

  /** Events that cannot occur in the current phase change nothing. */
  function React(cfg: Config, me: int, q: Node, e: Event): (r: Node)
    requires cfg.Valid() && OnSchedule(cfg, q.core)
    ensures OnSchedule(cfg, r.core)
  {
    match e
    case SignatureArrives(onions, env) =>
      if q.core.phase == Setup then StartShuffle(cfg, env, me, q, onions) else q
    case Receives(t, env) => Receive(cfg, env, me, q, t)
    case TimesOut(answered, env) =>
      if q.core.InOverlay() then TimeOut(cfg, env, me, q, answered) else q
  }

  /** The node after a list of events, starting idle. */
  function RunOf(cfg: Config, me: int, events: seq<Event>): (r: Node)
    requires cfg.Valid()
    ensures OnSchedule(cfg, r.core)
  {
    if events == [] then Node(IDLE_CORE, {}, [], [])
    else React(cfg, me, RunOf(cfg, me, events[..|events| - 1]), events[|events| - 1])
  }

  // ----- Every run, whatever fails -----

  /** One batch for each round so far, in order, each to that round's gossip target. */
  ghost predicate SentInOrder(cfg: Config, me: int, q: Node)
    requires cfg.Valid()
  {
    && |q.sent| == q.core.round + 1
    && forall t :: 0 <= t < |q.sent| ==>
         q.sent[t].round == t && q.sent[t].sender == me && q.sent[t].recipient == Target(me, t, cfg.n)
  }

  /** The node has sent in order, and all the other had sent before. */
  ghost predicate SentMore(cfg: Config, me: int, q: Node, r: Node)
    requires cfg.Valid()
  {
    SentInOrder(cfg, me, r) && q.sent <= r.sent
  }

  lemma SentMoreAgain(cfg: Config, me: int, q: Node, r: Node, r': Node)
    requires cfg.Valid() && SentMore(cfg, me, q, r) && SentMore(cfg, me, r, r')
    ensures SentMore(cfg, me, q, r')
  {
  }

  lemma NextRoundSendsInOrder(cfg: Config, env: Env, me: int, q: Node, ended: Core)
    requires cfg.Valid() && ended.round >= -1 && ended.round == q.core.round && SentInOrder(cfg, me, q)
    ensures var started := NextRound(cfg, env, me, q, ended);
            SentMore(cfg, me, q, started)
  {
  }

  lemma {:induction false} EndRoundSendsInOrder(cfg: Config, env: Env, me: int, q: Node)
    requires cfg.Valid() && OnSchedule(cfg, q.core) && q.core.Active() && SentInOrder(cfg, me, q)
    ensures SentMore(cfg, me, q, EndRound(cfg, env, me, q))
    decreases RoundsLeft(cfg, q.core), 0, 0
  {
    PhasesEndExactly(cfg, me, q.core);
    var ended := PhaseEnd(cfg, me, q.core);
    if !ended.Stops() {
      NextRoundOnSchedule(cfg, env, me, q);
      var started := NextRound(cfg, env, me, q, ended);
      NextRoundSendsInOrder(cfg, env, me, q, ended);
      HandleAllSendsInOrder(cfg, env, me, started, OfRound(q.future, started.core.round));
      var handled := HandleAll(cfg, env, me, started, OfRound(q.future, started.core.round));
      SentMoreAgain(cfg, me, q, started, handled);
      if handled.core.Alive() && handled.core.round == started.core.round
         && Predecessor(me, started.core.round, cfg.n) in handled.failed {
        EndRoundSendsInOrder(cfg, env, me, handled);
        SentMoreAgain(cfg, me, q, handled, EndRound(cfg, env, me, handled));
      }
    }
  }

  lemma {:induction false} HandleSendsInOrder(cfg: Config, env: Env, me: int, q: Node, t: Transport)
    requires cfg.Valid() && OnSchedule(cfg, q.core) && q.core.phase != Setup && SentInOrder(cfg, me, q)
    ensures SentMore(cfg, me, q, Handle(cfg, env, me, q, t))
    decreases RoundsLeft(cfg, q.core), 1, 0
  {
    DeliverOnSchedule(cfg, me, q.core, t.message);
    var q' := q.(core := Deliver(cfg, me, q.core, t.message));
    if t.isFinal && q'.core.InOverlay() {
      EndRoundSendsInOrder(cfg, env, me, q');
    }
  }

  lemma {:induction false} HandleAllSendsInOrder(cfg: Config, env: Env, me: int, q: Node, ts: seq<Transport>)
    requires cfg.Valid() && OnSchedule(cfg, q.core) && q.core.phase != Setup && SentInOrder(cfg, me, q)
    ensures SentMore(cfg, me, q, HandleAll(cfg, env, me, q, ts))
    decreases RoundsLeft(cfg, q.core), 2, |ts|
  {
    if ts != [] {
      var next := Handle(cfg, env, me, q, ts[0]);
      HandleSendsInOrder(cfg, env, me, q, ts[0]);
      HandleAllSendsInOrder(cfg, env, me, next, ts[1..]);
      SentMoreAgain(cfg, me, q, next, HandleAll(cfg, env, me, next, ts[1..]));
    }
  }

  lemma ReactSendsInOrder(cfg: Config, me: int, q: Node, e: Event)
    requires cfg.Valid() && OnSchedule(cfg, q.core) && SentInOrder(cfg, me, q)
    ensures SentMore(cfg, me, q, React(cfg, me, q, e))
  {
    match e
    case SignatureArrives(onions, env) =>
      if q.core.phase == Setup && onions.Some? {
        EndRoundSendsInOrder(cfg, env, me,
                             q.(core := q.core.(phase := Shuffle, outgoing := q.core.outgoing + onions.value)));
      }
    case Receives(t, env) =>
      if q.core.Alive() && Target(t.sender, t.round, cfg.n) == me && t.round == q.core.round {
        HandleSendsInOrder(cfg, env, me, q, t);
      }
    case TimesOut(answered, env) =>
      if q.core.InOverlay() && !answered {
        EndRoundSendsInOrder(cfg, env, me, q);
      }
  }

  /** In every run, with any timeouts, dead predecessors, lost sends, unreadable messages and failed searches for
      paths, a node takes rounds 0, 1, 2, ... once each and stops after round 3S, unless it crashes before. */
  lemma {:induction false} RunTakesEveryRoundOnce(cfg: Config, me: int, events: seq<Event>)
    requires cfg.Valid()
    ensures SentInOrder(cfg, me, RunOf(cfg, me, events))
    ensures RunOf(cfg, me, events).core.round <= 3 * cfg.Span()
    ensures RunOf(cfg, me, events).core.phase == Aggregate ==> |RunOf(cfg, me, events).sent| == 3 * cfg.Span() + 1
    decreases |events|
  {
    if events != [] {
      var before := events[..|events| - 1];
      RunTakesEveryRoundOnce(cfg, me, before);
      ReactSendsInOrder(cfg, me, RunOf(cfg, me, before), events[|events| - 1]);
    }
  }
}
