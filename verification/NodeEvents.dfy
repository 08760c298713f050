/** What single events do to a node, in terms of its state before. */
module NodeEvents {
  import opened Messages
  import opened Overlay
  import opened ProtocolSpec

  // ----- A message is delivered -----

  /** The payload a message hands to the phase of its receiver: one it carries and need not bring any further. */
  function HandedOver(m: Message, me: int): seq<Payload> {
    var hop := if m.PathOverlay? && m.remainingPath != [] then m.remainingPath[0] else m.destination;
    if m.body.Carries? && hop == me then [m.body.payload] else []
  }

  /** In the agreement phases a node takes in every payload handed over, in order and verified or not. */
  lemma AgreementTakesPayloads(cfg: Config, me: int, c: Core, m: Message)
    requires c.phase == Agreement && Opens(m, me)
    ensures var c' := Deliver(cfg, me, c, m);
            c'.votes == c.votes + HandedOver(m, me) && c' == c.(waiting := c'.waiting, votes := c'.votes)
  {
  }

  /** In the shuffle it keeps exactly those that verify, and afterwards none. */
  lemma ShuffleKeepsVerified(cfg: Config, me: int, c: Core, m: Message)
    requires c.phase != Agreement && c.Alive() && Opens(m, me)
    ensures var c' := Deliver(cfg, me, c, m);
            && c'.contributions ==
               c.contributions + (set p | p in HandedOver(m, me) && c.phase == Shuffle && cfg.script.verifies(p))
            && c' == c.(waiting := c'.waiting, contributions := c'.contributions)
  {
  }

  /** A message locked for the node itself that carries a payload to it is taken in by the agreement phases. */
  lemma OwnMessageIsTakenIn(cfg: Config, me: int, c: Core, p: Payload)
    requires c.phase == Agreement
    ensures Deliver(cfg, me, c, Overlay(me, For(me), false, Carries(p))) == c.(votes := c.votes + [p])
    ensures Deliver(cfg, me, c, PathOverlay(me, For(me), false, Carries(p), [])) == c.(votes := c.votes + [p])
  {
  }

  /** What a message leaves at a node for later rounds: itself on its way to the next hop, and a message inside it. */
  function LeftBehind(m: Message): seq<Message> {
    (if m.PathOverlay? && m.remainingPath != []
     then [PathOverlay(m.remainingPath[0], Plain, m.flood, m.body, m.remainingPath[1..])] else [])
    + (if m.body.Encloses? then [m.body.inner] else [])
  }

  /** A message that opens adds just that to what waits. */
  lemma DeliveryLeavesBehind(cfg: Config, me: int, c: Core, m: Message)
    requires c.Alive() && Opens(m, me)
    ensures var c' := Deliver(cfg, me, c, m);
            c'.waiting == c.waiting + LeftBehind(m) && c'.outgoing == c.outgoing
  {
    var moved := m.PathOverlay? && m.remainingPath != [];
    if !moved && !m.body.Encloses? {
      assert c.waiting + [] == c.waiting;
    } else if moved && m.body.Encloses? {
      var next := PathOverlay(m.remainingPath[0], Plain, m.flood, m.body, m.remainingPath[1..]);
      assert c.waiting + [next] + [m.body.inner] == c.waiting + ([next] + [m.body.inner]);
    }
  }

  // ----- A round's batch is sent -----

  /** The messages that leave, in order, among those of a list. */
  lemma {:induction false} LeavingInOrder(a: seq<Message>, b: seq<Message>, target: int, floods: bool)
    ensures Leaving(a + b, target, floods) == Leaving(a, target, floods) + Leaving(b, target, floods)
    ensures Staying(a + b, target, floods) == Staying(a, target, floods) + Staying(b, target, floods)
    decreases |b|
  {
    if b == [] {
      assert a + b == a;
    } else {
      assert (a + b)[..|a + b| - 1] == a + b[..|b| - 1];
      LeavingInOrder(a, b[..|b| - 1], target, floods);
    }
  }

  lemma {:induction false} PartsAreWhole(ms: seq<Message>, target: int, floods: bool)
    ensures multiset(Leaving(ms, target, floods)) + multiset(Staying(ms, target, floods)) == multiset(ms)
    ensures forall m :: m in Leaving(ms, target, floods) ==> m.destination == target || (floods && m.flood)
    ensures forall m :: m in Staying(ms, target, floods) ==> m.destination != target && !(floods && m.flood)
    decreases |ms|
  {
    if ms != [] {
      PartsAreWhole(ms[..|ms| - 1], target, floods);
      assert ms == ms[..|ms| - 1] + [ms[|ms| - 1]];
    }
  }

  /** The messages inside a batch. */
  function Contents(b: Batch): (r: seq<Message>)
    ensures |r| == |b.messages| && forall k :: 0 <= k < |r| ==> r[k] == b.messages[k].message
  {
    seq(|b.messages|, k requires 0 <= k < |b.messages| => b.messages[k].message)
  }

  lemma ContentsAre(cfg: Config, me: int, c: Core)
    requires cfg.Valid() && c.round >= 0
    ensures var ready := ReadyMessages(cfg, me, c);
            Contents(BatchOf(cfg, me, c)) == if ready == [] then [Dummy(Target(me, c.round, cfg.n))] else ready
  {
    var ready := ReadyMessages(cfg, me, c);
    WrapShape(if ready == [] then [Dummy(Target(me, c.round, cfg.n))] else ready, me, c.round);
  }

  /** All that waits and all that is new, with how often it is there. */
  function InHand(c: Core): multiset<Message> {
    multiset(c.waiting) + multiset(c.outgoing)
  }

  lemma FourParts<T>(a: seq<T>, b: seq<T>, c: seq<T>, d: seq<T>)
    ensures multiset(a + c) + multiset(b + d) == (multiset(a) + multiset(b)) + (multiset(c) + multiset(d))
  {
  }

  /** Nothing is lost or doubled when a batch is sent. */
  lemma SendingConserves(cfg: Config, me: int, c: Core)
    requires cfg.Valid() && c.round >= 0
    ensures var ready, after := ReadyMessages(cfg, me, c), AfterSending(cfg, me, c);
            && multiset(ready) + multiset(after.waiting) == InHand(c)
            && after == c.(waiting := after.waiting, outgoing := [])
            && (ready != [] ==> Contents(BatchOf(cfg, me, c)) == ready)
  {
    var target := Target(me, c.round, cfg.n);
    PartsAreWhole(c.waiting, target, false);
    PartsAreWhole(c.outgoing, target, true);
    FourParts(Leaving(c.waiting, target, false), Staying(c.waiting, target, false),
              Leaving(c.outgoing, target, true), Staying(c.outgoing, target, true));
    ContentsAre(cfg, me, c);
  }

  /** What leaves is for this round's target or new and to be flooded; what stays is neither. */
  lemma WhatLeaves(cfg: Config, me: int, c: Core)
    requires cfg.Valid() && c.round >= 0
    ensures forall m :: m in ReadyMessages(cfg, me, c) ==>
              m.destination == Target(me, c.round, cfg.n) || (m.flood && m in c.outgoing)
    ensures forall m :: m in AfterSending(cfg, me, c).waiting ==>
              m.destination != Target(me, c.round, cfg.n) && (m.flood ==> m in c.waiting)
  {
    var target := Target(me, c.round, cfg.n);
    PartsAreWhole(c.waiting, target, false);
    PartsAreWhole(c.outgoing, target, true);
    forall m | m in ReadyMessages(cfg, me, c) ensures m.destination == target || (m.flood && m in c.outgoing) {
      if m in Leaving(c.outgoing, target, true) {
        assert m in multiset(c.outgoing);
      }
    }
    forall m | m in AfterSending(cfg, me, c).waiting ensures m.destination != target && (m.flood ==> m in c.waiting) {
      if m in Staying(c.waiting, target, false) {
        assert m in multiset(c.waiting);
      }
    }
  }

  /** With nothing to send a node sends one message, from which nobody takes anything. */
  lemma NothingToSend(cfg: Config, me: int, c: Core, you: int, d: Core)
    requires cfg.Valid() && c.round >= 0 && ReadyMessages(cfg, me, c) == []
    ensures var sent := Contents(BatchOf(cfg, me, c));
            |sent| == 1 && sent[0].destination == Target(me, c.round, cfg.n) && Deliver(cfg, you, d, sent[0]) == d
  {
    ContentsAre(cfg, me, c);
  }

  // ----- Which rounds a node goes through, and whom it then holds for dead -----

  /** The gossip partners a node loses in the rounds after `from` up to `to`: targets its batch does not reach and
      predecessors its ping does not reach. */
  ghost function Lost(cfg: Config, env: Env, me: int, first: int, last: int): set<int>
    requires cfg.Valid()
  {
    (set t: nat | first < t <= last && !env.batchArrives(t, Target(me, t, cfg.n)) :: Target(me, t, cfg.n))
    + (set t: nat | first < t <= last && !env.pingArrives(t, Predecessor(me, t, cfg.n)) :: Predecessor(me, t, cfg.n))
  }

  lemma LostInOne(cfg: Config, env: Env, me: int, t: nat)
    requires cfg.Valid()
    ensures var target, pred := Target(me, t, cfg.n), Predecessor(me, t, cfg.n);
            Lost(cfg, env, me, t - 1, t) ==
            (if env.batchArrives(t, target) then {} else {target}) + (if env.pingArrives(t, pred) then {} else {pred})
  {
    var target, pred := Target(me, t, cfg.n), Predecessor(me, t, cfg.n);
    assert t - 1 < t <= t;
  }

  lemma LostInMore(cfg: Config, env: Env, me: int, a: int, b: int, c: int)
    requires cfg.Valid() && a <= b <= c
    ensures Lost(cfg, env, me, a, c) == Lost(cfg, env, me, a, b) + Lost(cfg, env, me, b, c)
  {
  }

  /** The node holds no peers for dead but those it did and those it has lost since, and it does not stand in a new
      round whose predecessor it holds for dead. */
  ghost predicate MovesOn(cfg: Config, env: Env, me: int, q: Node, r: Node)
    requires cfg.Valid()
  {
    && -1 <= q.core.round <= r.core.round
    && r.failed == q.failed + Lost(cfg, env, me, q.core.round, r.core.round)
    && (r.core.InOverlay() ==> q.core.InOverlay())
    && (r.core.InOverlay() && r.core.round > q.core.round ==> Predecessor(me, r.core.round, cfg.n) !in r.failed)
  }

  lemma NothingLost(cfg: Config, env: Env, me: int, round: int)
    requires cfg.Valid()
    ensures Lost(cfg, env, me, round, round) == {}
  {
  }

  lemma MovesOnAgain(cfg: Config, env: Env, me: int, q: Node, r: Node, r': Node)
    requires cfg.Valid() && MovesOn(cfg, env, me, q, r) && MovesOn(cfg, env, me, r, r')
    ensures MovesOn(cfg, env, me, q, r')
  {
    LostInMore(cfg, env, me, q.core.round, r.core.round, r'.core.round);
    NothingLost(cfg, env, me, r.core.round);
  }

  lemma StaysInRound(cfg: Config, env: Env, me: int, q: Node, r: Node)
    requires cfg.Valid() && r.core.round == q.core.round >= -1 && r.failed == q.failed
    requires r.core.InOverlay() ==> q.core.InOverlay()
    ensures MovesOn(cfg, env, me, q, r)
  {
    NothingLost(cfg, env, me, q.core.round);
  }

  lemma NextRoundLoses(cfg: Config, env: Env, me: int, q: Node, ended: Core)
    requires cfg.Valid() && ended.round >= -1 && ended.round == q.core.round
    ensures var started := NextRound(cfg, env, me, q, ended);
            started.failed == q.failed + Lost(cfg, env, me, q.core.round, q.core.round + 1)
  {
    LostInOne(cfg, env, me, q.core.round + 1);
  }

  /** The first round after q that the node does not leave at once. */
  lemma AfterFirstRound(cfg: Config, env: Env, me: int, q: Node, started: Node, r: Node)
    requires cfg.Valid() && started.core.round == q.core.round + 1 >= 0 && q.core.InOverlay()
    requires started.failed == q.failed + Lost(cfg, env, me, q.core.round, q.core.round + 1)
    requires MovesOn(cfg, env, me, started, r)
    requires r.core.InOverlay() && r.core.round == started.core.round ==>
               Predecessor(me, r.core.round, cfg.n) !in r.failed
    ensures MovesOn(cfg, env, me, q, r)
  {
    LostInMore(cfg, env, me, q.core.round, started.core.round, r.core.round);
  }

  /** The round just started ends at once: nothing buffered has ended it, and its predecessor is held for dead. */
  predicate GoesOn(cfg: Config, me: int, started: Node, handled: Node)
    requires cfg.Valid() && started.core.round >= 0
  {
    && handled.core.Alive() && handled.core.round == started.core.round
    && Predecessor(me, started.core.round, cfg.n) in handled.failed
  }

  lemma StopsWhereItIs(cfg: Config, env: Env, me: int, q: Node)
    requires cfg.Valid() && OnSchedule(cfg, q.core) && q.core.Active()
    ensures MovesOn(cfg, env, me, q, q.(core := PhaseEnd(cfg, me, q.core)))
  {
    PhasesEndExactly(cfg, me, q.core);
    StaysInRound(cfg, env, me, q, q.(core := PhaseEnd(cfg, me, q.core)));
  }

  lemma StartsNextRound(cfg: Config, env: Env, me: int, q: Node)
    requires cfg.Valid() && OnSchedule(cfg, q.core) && q.core.Active() && !PhaseEnd(cfg, me, q.core).Stops()
    ensures var started := NextRound(cfg, env, me, q, PhaseEnd(cfg, me, q.core));
            && OnSchedule(cfg, started.core) && started.core.InOverlay() && q.core.InOverlay()
            && started.core.round == q.core.round + 1 >= 0 && RoundsLeft(cfg, started.core) < RoundsLeft(cfg, q.core)
            && started.failed == q.failed + Lost(cfg, env, me, q.core.round, q.core.round + 1)
  {
    PhasesEndExactly(cfg, me, q.core);
    NextRoundOnSchedule(cfg, env, me, q);
    NextRoundLoses(cfg, env, me, q, PhaseEnd(cfg, me, q.core));
  }

  /** However many rounds end in one go, the node stands in none whose predecessor it holds for dead. */
  lemma {:induction false} EndRoundMovesOn(cfg: Config, env: Env, me: int, q: Node)
    requires cfg.Valid() && OnSchedule(cfg, q.core) && q.core.Active()
    ensures MovesOn(cfg, env, me, q, EndRound(cfg, env, me, q))
    decreases RoundsLeft(cfg, q.core), 0, 0
  {
    var ended := PhaseEnd(cfg, me, q.core);
    if ended.Stops() {
      StopsWhereItIs(cfg, env, me, q);
    } else {
      StartsNextRound(cfg, env, me, q);
      var started := NextRound(cfg, env, me, q, ended);
      var buffered := OfRound(q.future, started.core.round);
      HandleAllMovesOn(cfg, env, me, started, buffered);
      var handled := HandleAll(cfg, env, me, started, buffered);
      if GoesOn(cfg, me, started, handled) {
        EndRoundMovesOn(cfg, env, me, handled);
        MovesOnAgain(cfg, env, me, started, handled, EndRound(cfg, env, me, handled));
        AfterFirstRound(cfg, env, me, q, started, EndRound(cfg, env, me, handled));
      } else {
        AfterFirstRound(cfg, env, me, q, started, handled);
      }
    }
  }

  lemma {:induction false} HandleMovesOn(cfg: Config, env: Env, me: int, q: Node, t: Transport)
    requires cfg.Valid() && OnSchedule(cfg, q.core) && q.core.phase != Setup
    ensures MovesOn(cfg, env, me, q, Handle(cfg, env, me, q, t))
    decreases RoundsLeft(cfg, q.core), 1, 0
  {
    DeliverOnSchedule(cfg, me, q.core, t.message);
    DeliverKeepsSchedule(cfg, me, q.core, t.message);
    var q' := q.(core := Deliver(cfg, me, q.core, t.message));
    StaysInRound(cfg, env, me, q, q');
    if t.isFinal && q'.core.InOverlay() {
      EndRoundMovesOn(cfg, env, me, q');
      MovesOnAgain(cfg, env, me, q, q', EndRound(cfg, env, me, q'));
    }
  }

  lemma {:induction false} HandleAllMovesOn(cfg: Config, env: Env, me: int, q: Node, ts: seq<Transport>)
    requires cfg.Valid() && OnSchedule(cfg, q.core) && q.core.phase != Setup
    ensures MovesOn(cfg, env, me, q, HandleAll(cfg, env, me, q, ts))
    decreases RoundsLeft(cfg, q.core), 2, |ts|
  {
    if ts == [] {
      StaysInRound(cfg, env, me, q, q);
    } else {
      var next := Handle(cfg, env, me, q, ts[0]);
      HandleMovesOn(cfg, env, me, q, ts[0]);
      HandleAllMovesOn(cfg, env, me, next, ts[1..]);
      MovesOnAgain(cfg, env, me, q, next, HandleAll(cfg, env, me, next, ts[1..]));
    }
  }

  /** No message is kept for a later round. */
  ghost predicate NothingBuffered(q: Node) {
    forall t: nat :: t > q.core.round ==> OfRound(q.future, t) == []
  }

  /** The node holds the predecessors of the rounds in between for dead, and that of its own if it has stopped there. */
  ghost predicate SkipsTheDead(cfg: Config, me: int, q: Node, r: Node)
    requires cfg.Valid()
  {
    forall t: nat :: q.core.round < t <= r.core.round && (r.core.Stops() || t < r.core.round) ==>
      Predecessor(me, t, cfg.n) in r.failed
  }

  lemma EndedRoundsAreDead(cfg: Config, env: Env, me: int, q: Node, handled: Node, r: Node)
    requires cfg.Valid() && handled.core.round == q.core.round + 1 >= 0 && SkipsTheDead(cfg, me, handled, r)
    requires Predecessor(me, handled.core.round, cfg.n) in handled.failed && handled.failed <= r.failed
    ensures SkipsTheDead(cfg, me, q, r)
  {
  }

  lemma {:induction false} NoneIsLeft(ts: seq<Transport>, u: int, t: int)
    requires OfRound(ts, t) == []
    ensures OfRound(NotOfRound(ts, u), t) == []
    decreases |ts|
  {
    if ts != [] {
      var rest := ts[..|ts| - 1];
      NoneIsLeft(rest, u, t);
      var kept := NotOfRound(rest, u);
      assert NotOfRound(ts, u) != kept ==> NotOfRound(ts, u)[..|kept|] == kept;
    }
  }

  lemma OnlyLaterBuffered(q: Node, started: Node)
    requires NothingBuffered(q) && started.core.round == q.core.round + 1 >= 0
    requires started.future == NotOfRound(q.future, started.core.round)
    ensures NothingBuffered(started)
  {
    forall t: nat | t > started.core.round ensures OfRound(started.future, t) == [] {
      NoneIsLeft(q.future, started.core.round, t);
    }
  }

  /** With nothing buffered a node that ends a round goes on to the first one whose predecessor it does not hold for
      dead, or stops on the way. */
  lemma {:induction false} FirstLiveRound(cfg: Config, env: Env, me: int, q: Node)
    requires cfg.Valid() && OnSchedule(cfg, q.core) && q.core.InOverlay() && NothingBuffered(q)
    ensures var r := EndRound(cfg, env, me, q);
            && SkipsTheDead(cfg, me, q, r)
            && (!r.core.Stops() ==> r.core.round > q.core.round
                                    && Predecessor(me, r.core.round, cfg.n) !in r.failed)
    decreases RoundsLeft(cfg, q.core)
  {
    EndRoundMovesOn(cfg, env, me, q);
    PhasesEndExactly(cfg, me, q.core);
    var ended := PhaseEnd(cfg, me, q.core);
    if !ended.Stops() {
      NextRoundOnSchedule(cfg, env, me, q);
      var started := NextRound(cfg, env, me, q, ended);
      OnlyLaterBuffered(q, started);
      assert OfRound(q.future, started.core.round) == [];
      if Predecessor(me, started.core.round, cfg.n) in started.failed {
        FirstLiveRound(cfg, env, me, started);
        EndRoundMovesOn(cfg, env, me, started);
        EndedRoundsAreDead(cfg, env, me, q, started, EndRound(cfg, env, me, started));
      }
    }
  }

  // ----- Timeouts -----

  /** Without an answer from the predecessor the round ends: the node goes on to a later one, having sent a batch, in
      which it does not hold the predecessor for dead, or it stops. */
  lemma UnansweredTimeoutEndsRound(cfg: Config, env: Env, me: int, q: Node)
    requires cfg.Valid() && OnSchedule(cfg, q.core) && q.core.InOverlay() && SentInOrder(cfg, me, q)
    ensures var r := React(cfg, me, q, TimesOut(false, env));
            && MovesOn(cfg, env, me, q, r)
            && (r.core.Stops() || (r.core.round > q.core.round && |r.sent| > |q.sent|))
  {
    EndRoundMovesOn(cfg, env, me, q);
    EndRoundSendsInOrder(cfg, env, me, q);
  }

  /** With an answer the node waits on, and holds the predecessor for dead only if the next ping fails. */
  lemma AnsweredTimeoutWaits(cfg: Config, env: Env, me: int, q: Node)
    requires cfg.Valid() && OnSchedule(cfg, q.core) && q.core.InOverlay() && q.core.round >= 0
    ensures var r, pred := React(cfg, me, q, TimesOut(true, env)), Predecessor(me, q.core.round, cfg.n);
            && r.core == q.core && r.sent == q.sent && r.future == q.future
            && r.failed == q.failed + (if env.pingArrives(q.core.round, pred) then {} else {pred})
  {
  }

  // ----- Late and misrouted messages -----

  /** Messages of rounds the node has left, and messages that gossip does not bring to it. */
  predicate Rejected(cfg: Config, me: int, q: Node, t: Transport)
    requires cfg.Valid()
  {
    t.round < q.core.round || Target(t.sender, t.round, cfg.n) != me
  }

  /** A rejected message changes nothing, and one of a later round is only kept for then. */
  lemma RejectedChangesNothing(cfg: Config, env: Env, me: int, q: Node, t: Transport)
    requires cfg.Valid() && OnSchedule(cfg, q.core)
    ensures Rejected(cfg, me, q, t) ==> React(cfg, me, q, Receives(t, env)) == q
    ensures !Rejected(cfg, me, q, t) && t.round > q.core.round && q.core.Alive() ==>
              React(cfg, me, q, Receives(t, env)) == q.(future := q.future + [t])
  {
  }

  predicate IsRejected(cfg: Config, me: int, before: seq<Event>, e: Event)
    requires cfg.Valid()
  {
    e.Receives? && Rejected(cfg, me, RunOf(cfg, me, before), e.t)
  }

  /** The events of a run without the messages that are rejected on arrival. */
  function WithoutRejected(cfg: Config, me: int, events: seq<Event>): seq<Event>
    requires cfg.Valid()
  {
    if events == [] then [] else
      var before, e := events[..|events| - 1], events[|events| - 1];
      WithoutRejected(cfg, me, before)
      + if IsRejected(cfg, me, before, e) then [] else [e]
  }

  lemma OneMoreKept(cfg: Config, me: int, before: seq<Event>, e: Event)
    requires cfg.Valid()
    ensures WithoutRejected(cfg, me, before + [e]) ==
            WithoutRejected(cfg, me, before) + if IsRejected(cfg, me, before, e) then [] else [e]
  {
    assert (before + [e])[..|before + [e]| - 1] == before;
  }

  lemma OneEventMore(cfg: Config, me: int, before: seq<Event>, e: Event)
    requires cfg.Valid()
    ensures RunOf(cfg, me, before + [e]) == React(cfg, me, RunOf(cfg, me, before), e)
  {
    assert (before + [e])[..|before + [e]| - 1] == before;
  }

  lemma OneRejectedMore(cfg: Config, me: int, before: seq<Event>, e: Event)
    requires cfg.Valid() && IsRejected(cfg, me, before, e)
    ensures RunOf(cfg, me, before + [e]) == RunOf(cfg, me, before)
  {
    OneEventMore(cfg, me, before, e);
    RejectedChangesNothing(cfg, e.env, me, RunOf(cfg, me, before), e.t);
  }

  lemma OneMoreOfBoth(cfg: Config, me: int, before: seq<Event>, rest: seq<Event>, e: Event)
    requires cfg.Valid() && RunOf(cfg, me, before) == RunOf(cfg, me, rest)
    ensures RunOf(cfg, me, before + [e]) == RunOf(cfg, me, rest + [e])
  {
    OneEventMore(cfg, me, before, e);
    OneEventMore(cfg, me, rest, e);
  }

  ghost predicate EndsTheSame(cfg: Config, me: int, events: seq<Event>)
    requires cfg.Valid()
  {
    RunOf(cfg, me, events) == RunOf(cfg, me, WithoutRejected(cfg, me, events))
  }

  lemma StillTheSame(cfg: Config, me: int, before: seq<Event>, e: Event)
    requires cfg.Valid() && EndsTheSame(cfg, me, before)
    ensures EndsTheSame(cfg, me, before + [e])
  {
    OneMoreKept(cfg, me, before, e);
    if IsRejected(cfg, me, before, e) {
      OneRejectedMore(cfg, me, before, e);
      assert WithoutRejected(cfg, me, before + [e]) == WithoutRejected(cfg, me, before);
    } else {
      OneMoreOfBoth(cfg, me, before, WithoutRejected(cfg, me, before), e);
    }
  }

  /** A run ends in the same node as without its late and misrouted messages. */
  lemma {:induction false} RejectedDoNotMatter(cfg: Config, me: int, events: seq<Event>)
    requires cfg.Valid()
    ensures EndsTheSame(cfg, me, events)
    decreases |events|
  {
    if events != [] {
      var before, e := events[..|events| - 1], events[|events| - 1];
      RejectedDoNotMatter(cfg, me, before);
      StillTheSame(cfg, me, before, e);
      assert events == before + [e];
    }
  }
}
