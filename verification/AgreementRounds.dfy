/** What reaches the agreement phases of a node in the rounds after the shuffle. */
module AgreementRounds {
  import opened LockStep
  import opened Messages
  import opened NodeEvents
  import opened OnionDelivery
  import opened Overlay
  import opened PathDelivery
  import opened ProtocolSpec
  import opened Results
  import opened RoundSystem
  import opened ShuffleResult

  /** The payloads a list of messages hands over, in order. */
  function AllHandedOver(ts: seq<Transport>, me: int): seq<Payload> {
    if ts == [] then [] else HandedOver(ts[0].message, me) + AllHandedOver(ts[1..], me)
  }

  /** The payloads delivered to node j as their destination in rounds S + 1 to t, in order. */
  ghost function DeliveredBy(w: World, j: int, t: nat): seq<Payload>
    requires w.Valid()
    decreases t
  {
    if t <= w.cfg.Span() then []
    else DeliveredBy(w, j, t - 1) + AllHandedOver(w.Incoming(j, t).messages, j)
  }

  lemma Regroup<T>(a: seq<T>, b: seq<T>, c: seq<T>)
    ensures (a + b) + c == a + (b + c)
  {
  }

  lemma OneVoteMore(cfg: Config, me: int, c: Core, ts: seq<Transport>)
    requires c.phase == Agreement && ts != [] && DeliverAll(cfg, me, c, ts).Alive()
    ensures var next := Deliver(cfg, me, c, ts[0].message);
            && next.phase == Agreement && DeliverAll(cfg, me, next, ts[1..]) == DeliverAll(cfg, me, c, ts)
            && next.votes == c.votes + HandedOver(ts[0].message, me)
  {
    AliveBefore(cfg, me, Deliver(cfg, me, c, ts[0].message), ts[1..]);
    DeliverKeepsSchedule(cfg, me, c, ts[0].message);
    AgreementTakesPayloads(cfg, me, c, ts[0].message);
  }

  lemma {:induction false} DeliveriesAreVotes(cfg: Config, me: int, c: Core, ts: seq<Transport>)
    requires c.phase == Agreement && DeliverAll(cfg, me, c, ts).Alive()
    ensures DeliverAll(cfg, me, c, ts).votes == c.votes + AllHandedOver(ts, me)
    decreases |ts|
  {
    if ts == [] {
      assert c.votes + [] == c.votes;
    } else {
      var next := Deliver(cfg, me, c, ts[0].message);
      OneVoteMore(cfg, me, c, ts);
      DeliveriesAreVotes(cfg, me, next, ts[1..]);
      Regroup(c.votes, HandedOver(ts[0].message, me), AllHandedOver(ts[1..], me));
    }
  }

  lemma {:induction false} NoVotesOutsideAgreement(cfg: Config, me: int, c: Core, ts: seq<Transport>)
    requires c.phase != Agreement
    ensures DeliverAll(cfg, me, c, ts).votes == c.votes
    decreases |ts|
  {
    if ts != [] {
      DeliverKeepsSchedule(cfg, me, c, ts[0].message);
      if c.Alive() && Opens(ts[0].message, me) {
        ShuffleKeepsVerified(cfg, me, c, ts[0].message);
      }
      NoVotesOutsideAgreement(cfg, me, Deliver(cfg, me, c, ts[0].message), ts[1..]);
    }
  }

  /** The node's votes are the payloads delivered to it. */
  ghost predicate VotesAre(w: World, j: int, t: nat, c: Core)
    requires w.Valid()
  {
    c.votes == DeliveredBy(w, j, t)
  }

  lemma VotesInShuffle(w: World, j: int, t: nat)
    requires w.Valid() && t <= w.cfg.Span() && w.Waiting(j, t).Alive()
    requires t > 0 ==> VotesAre(w, j, t - 1, w.Handled(j, t - 1))
    ensures VotesAre(w, j, t, w.Handled(j, t))
  {
    ShuffleLasts(w, j, t);
    if t > 0 {
      ShuffleOnlyForwards(w, j, t);
    }
    NoVotesOutsideAgreement(w.cfg, j, w.Waiting(j, t), w.Incoming(j, t).messages);
  }

  lemma VotesInAgreement(w: World, j: int, t: nat)
    requires w.Valid() && w.cfg.Span() < t <= w.LastRound() && w.Handled(j, t).Alive() && w.Waiting(j, t).Alive()
    requires VotesAre(w, j, t - 1, w.Handled(j, t - 1))
    ensures VotesAre(w, j, t - 1, w.Waiting(j, t)) && VotesAre(w, j, t, w.Handled(j, t))
  {
    LockStepOnSchedule(w, j, t);
    assert w.Waiting(j, t).phase == Agreement;
    DeliveriesAreVotes(w.cfg, j, w.Waiting(j, t), w.Incoming(j, t).messages);
  }

  /** In lock step the votes a node has at the end of a round are, in order, the payloads delivered to it as their
      destination since the shuffle. */
  lemma {:induction false} VotesAreDelivered(w: World, j: int, t: nat)
    requires w.Valid() && t <= w.LastRound() && w.Handled(j, t).Alive()
    ensures VotesAre(w, j, t, w.Handled(j, t))
    decreases t
  {
    WaitedBefore(w, j, t);
    if t > 0 {
      AliveRoundBefore(w, j, t);
      VotesAreDelivered(w, j, t - 1);
    }
    if t <= w.cfg.Span() {
      VotesInShuffle(w, j, t);
    } else {
      VotesInAgreement(w, j, t);
    }
  }

  // ----- What leaves at the ends of the phases -----

  lemma {:induction false} DeliveriesLeaveOutgoing(cfg: Config, me: int, c: Core, ts: seq<Transport>)
    ensures DeliverAll(cfg, me, c, ts).outgoing == c.outgoing
    decreases |ts|
  {
    if ts != [] {
      DeliveriesLeaveOutgoing(cfg, me, Deliver(cfg, me, c, ts[0].message), ts[1..]);
    }
  }

  lemma NothingOutgoing(w: World, j: int, t: nat)
    requires w.Valid()
    ensures w.Handled(j, t).outgoing == []
  {
    DeliveriesLeaveOutgoing(w.cfg, j, w.Waiting(j, t), w.Incoming(j, t).messages);
  }

  lemma ShuffleEndsWith(cfg: Config, me: int, c: Core)
    requires cfg.Valid() && c.phase == Shuffle && c.round == cfg.Span() && PhaseEnd(cfg, me, c).Alive()
    requires c.outgoing == []
    ensures Some(PhaseEnd(cfg, me, c).outgoing) == cfg.script.signedValues(me, c.contributions)
  {
    var messages := cfg.script.signedValues(me, c.contributions);
    assert c.outgoing + messages.value == messages.value;
  }

  lemma Phase1EndsWith(cfg: Config, me: int, c: Core)
    requires cfg.Valid() && c.phase == Agreement && c.round == 2 * cfg.Span() && OnSchedule(cfg, c)
    requires PhaseEnd(cfg, me, c).Alive() && c.outgoing == []
    ensures Some(PhaseEnd(cfg, me, c).outgoing) == cfg.script.acceptedValues(me, c.votes)
  {
    var messages := cfg.script.acceptedValues(me, c.votes);
    assert c.outgoing + messages.value == messages.value;
  }

  lemma RoundEndsInto(w: World, j: int, t: nat)
    requires w.Valid() && w.Waiting(j, t + 1).Alive()
    ensures w.Waiting(j, t).Alive() && w.Handled(j, t).Alive() && PhaseEnd(w.cfg, j, w.Handled(j, t)).Alive()
    ensures w.Sending(j, t + 1).outgoing == PhaseEnd(w.cfg, j, w.Handled(j, t)).outgoing
  {
    AliveRoundBefore(w, j, t + 1);
    AliveThrough(w, j, t + 1);
  }

  /** At the end of the shuffle a node multicasts what its script makes of the contributions it holds, and nothing
      else. */
  lemma SignedValuesLeave(w: World, j: int)
    requires w.Valid() && w.Waiting(j, w.cfg.Span() + 1).Alive()
    ensures var s := w.cfg.Span();
            && w.Handled(j, s).Alive()
            && Some(w.Sending(j, s + 1).outgoing) == w.cfg.script.signedValues(j, w.Handled(j, s).contributions)
  {
    var s := w.cfg.Span();
    RoundEndsInto(w, j, s);
    ShuffleLasts(w, j, s);
    NothingOutgoing(w, j, s);
    ShuffleEndsWith(w.cfg, j, w.Handled(j, s));
  }

  /** At the end of phase 1, after round 2S, it multicasts what its script makes of the payloads delivered to it since
      the shuffle. */
  lemma AcceptedValuesLeave(w: World, j: int)
    requires w.Valid() && w.Waiting(j, 2 * w.cfg.Span() + 1).Alive()
    ensures var s := w.cfg.Span();
            Some(w.Sending(j, 2 * s + 1).outgoing) == w.cfg.script.acceptedValues(j, DeliveredBy(w, j, 2 * s))
  {
    var t := 2 * w.cfg.Span();
    RoundEndsInto(w, j, t);
    LockStepOnSchedule(w, j, t);
    VotesAreDelivered(w, j, t);
    NothingOutgoing(w, j, t);
    Phase1EndsWith(w.cfg, j, w.Handled(j, t));
  }

  // ----- In every run -----

  /** Where a node that has started stands, and what has been delivered to it. */
  lemma StandsAt(w: World, s: System, j: int)
    requires Inv(w, s) && w.IsNode(j) && s.nodes[j].core.round >= 0
    ensures var c := s.nodes[j].core;
            && c.Alive() && c.round <= w.LastRound()
            && c == (if c.isLast then w.Finished(j) else w.Waiting(j, c.round))
            && (c.isLast ==> c.round == w.LastRound())
  {
    assert InStep(w, s.delivered, j, s.nodes[j]);
  }

  lemma HasReceived(w: World, s: System, j: int, t: nat)
    requires Inv(w, s) && w.IsNode(j) && t < s.nodes[j].core.round
    ensures w.Incoming(j, t) in s.delivered
  {
    assert Arrived(w, s.delivered, j, t);
  }

  /** A node has left the rounds before its own alive. */
  lemma StandsAlive(w: World, s: System, j: int, t: nat)
    requires Inv(w, s) && w.IsNode(j) && t <= s.nodes[j].core.round
    ensures w.Waiting(j, t).Alive()
  {
    var c := s.nodes[j].core;
    StandsAt(w, s, j);
    if c.isLast {
      HandledEarlier(w, j, t, w.LastRound());
    } else if t < c.round {
      AliveEarlier(w, j, t, c.round);
    }
  }

  lemma VotesStay(w: World, j: int, t: nat)
    requires w.Valid() && t > 0
    ensures w.Waiting(j, t).votes == w.Handled(j, t - 1).votes
  {
  }

  lemma VotesWhileWaiting(w: World, j: int, t: nat)
    requires w.Valid() && 0 < t <= w.LastRound() && w.Waiting(j, t).Alive()
    ensures w.Waiting(j, t).votes == DeliveredBy(w, j, t - 1)
  {
    AliveRoundBefore(w, j, t);
    VotesAreDelivered(w, j, t - 1);
    VotesStay(w, j, t);
  }

  lemma VotesWhenFinished(w: World, j: int)
    requires w.Valid() && w.Finished(j).Alive()
    ensures w.Finished(j).votes == DeliveredBy(w, j, w.LastRound())
  {
    VotesAreDelivered(w, j, w.LastRound());
  }

  /** In every run, as long as no node has crashed, a node's votes are, in order, the payloads delivered to it as their
      destination in the rounds since the shuffle that it has left. */
  lemma VotesInEveryRun(w: World, run: seq<System>, a: nat, j: int)
    requires IsRun(w, run) && a < |run| && run[a].AllAlive() && w.IsNode(j)
    requires run[a].nodes[j].core.round > w.cfg.Span()
    ensures var c := run[a].nodes[j].core;
            && c.votes == DeliveredBy(w, j, if c.isLast then c.round else c.round - 1)
            && forall t: nat :: t < c.round ==> w.Incoming(j, t) in run[a].delivered
  {
    RunKeepsInv(w, run, a);
    var c := run[a].nodes[j].core;
    StandsAt(w, run[a], j);
    forall t: nat | t < c.round ensures w.Incoming(j, t) in run[a].delivered {
      HasReceived(w, run[a], j, t);
    }
    if c.isLast {
      VotesWhenFinished(w, j);
    } else {
      VotesWhileWaiting(w, j, c.round);
    }
  }

  lemma {:induction false} ContainedIsHandedOver(ts: seq<Transport>, k: nat, me: int, p: Payload)
    requires k < |ts| && p in HandedOver(ts[k].message, me)
    ensures p in AllHandedOver(ts, me)
    decreases k
  {
    if k > 0 {
      ContainedIsHandedOver(ts[1..], k - 1, me, p);
    }
  }

  lemma {:induction false} DeliveredStays(w: World, j: int, t: nat, u: nat, p: Payload)
    requires w.Valid() && t <= u && p in DeliveredBy(w, j, t)
    ensures p in DeliveredBy(w, j, u)
    decreases u
  {
    if t < u {
      DeliveredStays(w, j, t, u - 1, p);
    }
  }

  /** A value signed for a proxy that is met directly by round u is delivered to it by then. */
  lemma SingleHopIsDelivered(w: World, i: int, j: int, u: nat, p: Payload)
    requires w.Valid() && w.IsNode(i) && w.IsNode(j) && w.Waiting(i, w.cfg.Span() + 1).Alive()
    requires Signs(w, i, PathMessage([j], For(j), p)) && w.cfg.Span() < u && Target(i, u, w.cfg.n) == j
    ensures p in DeliveredBy(w, j, u)
  {
    var m := PathMessage([j], For(j), p);
    SignedValueWaits(w, i, m);
    var t := WaitingIsSent(w, i, w.cfg.Span() + 1, u, m);
    var ts := w.Incoming(j, t).messages;
    var k :| 0 <= k < |ts| && ts[k].message == m;
    ContainedIsHandedOver(ts, k, j, p);
    DeliveredStays(w, j, t, u, p);
  }

  lemma DeliveredIsAmongVotes(w: World, run: seq<System>, a: nat, j: int, u: nat, p: Payload)
    requires IsRun(w, run) && a < |run| && run[a].AllAlive() && w.IsNode(j)
    requires w.cfg.Span() < u < run[a].nodes[j].core.round && p in DeliveredBy(w, j, u)
    ensures p in run[a].nodes[j].core.votes
  {
    VotesInEveryRun(w, run, a, j);
    var c := run[a].nodes[j].core;
    DeliveredStays(w, j, u, if c.isLast then c.round else c.round - 1, p);
  }

  lemma PartnerHasLeftShuffle(w: World, s: System, i: int, j: int, u: nat)
    requires Inv(w, s) && w.IsNode(i) && w.IsNode(j) && Target(i, u, w.cfg.n) == j
    requires w.cfg.Span() < u < s.nodes[j].core.round
    ensures w.Waiting(i, w.cfg.Span() + 1).Alive()
  {
    PredecessorReached(w, s, j, u);
    GossipInverse(i, j, u, w.cfg.n);
    StandsAlive(w, s, i, w.cfg.Span() + 1);
  }

  /** In every run, as long as no node has crashed, such a value is among the votes of a proxy that has left round u; if
      that is 2S at the latest, among those over which the proxy's phase 1 ends. */
  lemma SingleHopValuesAreTakenIn(w: World, run: seq<System>, a: nat, i: int, j: int, u: nat, p: Payload)
    requires IsRun(w, run) && a < |run| && run[a].AllAlive() && w.IsNode(i) && w.IsNode(j)
    requires Signs(w, i, PathMessage([j], For(j), p)) && Target(i, u, w.cfg.n) == j
    requires w.cfg.Span() < u < run[a].nodes[j].core.round
    ensures p in run[a].nodes[j].core.votes
    ensures u <= 2 * w.cfg.Span() ==> p in DeliveredBy(w, j, 2 * w.cfg.Span())
  {
    RunKeepsInv(w, run, a);
    PartnerHasLeftShuffle(w, run[a], i, j, u);
    SingleHopIsDelivered(w, i, j, u, p);
    DeliveredIsAmongVotes(w, run, a, j, u, p);
    if u <= 2 * w.cfg.Span() {
      DeliveredStays(w, j, u, 2 * w.cfg.Span(), p);
    }
  }
}
