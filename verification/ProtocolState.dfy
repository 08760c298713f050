/** The protocol state of one node, updated in place by its handlers. */
module ProtocolState {
  import opened NumberTheory
  import opened Overlay
  import opened Messages
  import opened Results
  import opened ProtocolSpec

  /** A node that has sent, pinged and collected what came early is the one the next round starts with. */
  lemma StartedIs(cfg: Config, env: Env, me: int, q: Node, ended: Core, started: Node)
    requires cfg.Valid() && ended.round >= -1
    requires var c := ended.(round := ended.round + 1);
             var batch, pred := BatchOf(cfg, me, c), Predecessor(me, c.round, cfg.n);
             var failed := if env.batchArrives(c.round, batch.recipient) then q.failed
                           else q.failed + {batch.recipient};
             && started.core == AfterSending(cfg, me, c) && started.sent == q.sent + [batch]
             && started.failed ==
                (if pred in failed || env.pingArrives(c.round, pred) then failed else failed + {pred})
             && started.future == NotOfRound(q.future, c.round)
    ensures started == NextRound(cfg, env, me, q, ended)
  {
  }

  class ProtocolState {
    const cfg: Config
    const id: int
    const log2n: nat
    const failuresTolerated: nat
    var phase: Phase
    var overlayRound: int
    var isLastRound: bool
    var agreementStartRound: int
    var phase1Finished: bool
    var waitingMessages: seq<Message>
    var outgoingMessages: seq<Message>
    var futureMessages: seq<Transport>
    var failedMeters: set<int>
    var proxyValues: set<Payload>
    var agreementMessages: seq<Payload>
    /** Everything handed to the network so far. */
    var network: seq<Batch>

    ghost function Core(): Core
      reads this
    {
      ProtocolSpec.Core(phase, overlayRound, agreementStartRound, phase1Finished, isLastRound,
                        waitingMessages, outgoingMessages, proxyValues, agreementMessages)
    }

    ghost function Abstract(): Node
      reads this
    {
      Node(Core(), failedMeters, futureMessages, network)
    }

    ghost predicate Valid()
      reads this
    {
      && cfg.Valid() && log2n == cfg.LogN() && failuresTolerated == cfg.Faults()
      && OnSchedule(cfg, Core())
    }

    constructor (cfg: Config, id: int)
      requires cfg.Valid()
      ensures Valid() && this.cfg == cfg && this.id == id
      ensures Abstract() == RunOf(cfg, id, [])
    {
      this.cfg, this.id := cfg, id;
      log2n, failuresTolerated := CeilLog2(cfg.n), CeilLog2(cfg.n);
      phase, overlayRound, isLastRound, agreementStartRound, phase1Finished := Setup, -1, false, 0, false;
      waitingMessages, outgoingMessages, futureMessages := [], [], [];
      failedMeters, proxyValues, agreementMessages, network := {}, {}, [], [];
    }

    method EndOverlayRound(env: Env)
      requires Valid() && Core().Active()
      modifies this
      ensures Valid() && Abstract() == EndRound(cfg, env, id, old(Abstract()))
      decreases RoundsLeft(cfg, Core()), 0, 1
    {
      ghost var begun := Abstract();
      PhasesEndExactly(cfg, id, Core());
      SquareIs(log2n);
      if phase == Shuffle && overlayRound >= 2 * failuresTolerated + log2n * log2n + 1 {
        var signed := cfg.script.signedValues(id, proxyValues);
        if signed.None? {
          phase := Crashed;
          return;
        }
        outgoingMessages := outgoingMessages + signed.value;
        agreementStartRound := overlayRound;
        phase := Agreement;
      } else if phase == Agreement
                && overlayRound >= agreementStartRound + 4 * failuresTolerated + 2 * (log2n * log2n) + 2
                && phase1Finished {
        phase := Aggregate;
        isLastRound := true;
      } else if phase == Agreement
                && overlayRound >= agreementStartRound + 2 * failuresTolerated + log2n * log2n + 1
                && !phase1Finished {
        var accepted := cfg.script.acceptedValues(id, agreementMessages);
        if accepted.None? {
          phase := Crashed;
          return;
        }
        outgoingMessages := outgoingMessages + accepted.value;
        phase1Finished := true;
      }
      CommonEndOverlayRound(env, begun);
    }

    method HandleSignatureResponse(onions: Option<seq<Message>>, env: Env)
      requires Valid() && phase == Setup
      modifies this
      ensures Valid() && Abstract() == StartShuffle(cfg, env, id, old(Abstract()), onions)
    {
      if onions.None? {
        phase := Crashed;
        return;
      }
      phase := Shuffle;
      outgoingMessages := outgoingMessages + onions.value;
      EndOverlayRound(env);
    }

    /** A predecessor that is not known to be dead is pinged, and held for dead if the ping fails. */
    method PingPredecessor(env: Env) returns (predecessor: int)
      requires cfg.Valid() && overlayRound >= 0
      modifies this`failedMeters
      ensures predecessor == Predecessor(id, overlayRound, cfg.n)
      ensures failedMeters ==
              if predecessor in old(failedMeters) || env.pingArrives(overlayRound, predecessor)
              then old(failedMeters) else old(failedMeters) + {predecessor}
    {
      predecessor := Predecessor(id, overlayRound, cfg.n);
      if predecessor !in failedMeters {
        var success := env.pingArrives(overlayRound, predecessor);
        if !success {
          failedMeters := failedMeters + {predecessor};
        }
      }
    }

    /** Removes the buffered messages of the current round. */
    method TakeFutureMessages() returns (received: seq<Transport>)
      modifies this`futureMessages
      ensures received == OfRound(old(futureMessages), overlayRound)
      ensures futureMessages == NotOfRound(old(futureMessages), overlayRound)
    {
      ghost var all := futureMessages;
      var remaining := futureMessages;
      received, futureMessages := [], [];
      while remaining != []
        invariant |remaining| <= |all| && remaining == all[|all| - |remaining|..]
        invariant received == OfRound(all[..|all| - |remaining|], overlayRound)
        invariant futureMessages == NotOfRound(all[..|all| - |remaining|], overlayRound)
        decreases |remaining|
      {
        ghost var done := |all| - |remaining|;
        assert all[..done + 1][..done] == all[..done] && all[..done + 1][done] == remaining[0];
        if remaining[0].round == overlayRound {
          received := received + [remaining[0]];
        } else {
          futureMessages := futureMessages + [remaining[0]];
        }
        remaining := remaining[1..];
      }
      assert all[..|all|] == all;
    }

    /** Splits a list into what leaves for the target now and what stays, in order. */
    static method Partition(messages: seq<Message>, target: int, floods: bool)
      returns (leaving: seq<Message>, staying: seq<Message>)
      ensures leaving == Leaving(messages, target, floods)
      ensures staying == Staying(messages, target, floods)
    {
      leaving, staying := [], [];
      var k := 0;
      while k < |messages|
        invariant 0 <= k <= |messages|
        invariant leaving == Leaving(messages[..k], target, floods)
        invariant staying == Staying(messages[..k], target, floods)
      {
        assert messages[..k + 1][..k] == messages[..k];
        if Leaves(messages[k], target, floods) {
          leaving := leaving + [messages[k]];
        } else {
          staying := staying + [messages[k]];
        }
        k := k + 1;
      }
      assert messages[..k] == messages;
    }

    method SendOverlayMessageBatch(env: Env)
      requires cfg.Valid() && overlayRound >= 0
      modifies this`waitingMessages, this`outgoingMessages, this`failedMeters, this`network
      ensures Core() == AfterSending(cfg, id, old(Core()))
      ensures var batch := BatchOf(cfg, id, old(Core()));
              && network == old(network) + [batch]
              && failedMeters == if env.batchArrives(overlayRound, batch.recipient) then old(failedMeters)
                                 else old(failedMeters) + {batch.recipient}
    {
      var target := Target(id, overlayRound, cfg.n);
      var ready, held := Partition(waitingMessages, target, false);
      var readyOutgoing, heldOutgoing := Partition(outgoingMessages, target, true);
      ready := ready + readyOutgoing;
      waitingMessages, outgoingMessages := held + heldOutgoing, [];
      if ready == [] {
        ready := [Dummy(target)];
      }
      network := network + [Batch(id, target, overlayRound, Wrap(ready, id, overlayRound))];
      var success := env.batchArrives(overlayRound, target);
      if !success {
        failedMeters := failedMeters + {target};
      }
    }

    /** Advances the round, sends its batch, pings the predecessor and collects what came early. */
    method StartNextRound(env: Env, ghost begun: Node) returns (predecessor: int, received: seq<Transport>)
      requires cfg.Valid() && log2n == cfg.LogN() && failuresTolerated == cfg.Faults()
      requires OnSchedule(cfg, begun.core) && begun.core.Active()
      requires Abstract() == begun.(core := PhaseEnd(cfg, id, begun.core)) && !Core().Stops()
      modifies this
      ensures Valid() && Core().Active()
      ensures Abstract() == NextRound(cfg, env, id, begun, PhaseEnd(cfg, id, begun.core))
      ensures predecessor == Predecessor(id, overlayRound, cfg.n)
      ensures received == OfRound(begun.future, overlayRound)
    {
      NextRoundOnSchedule(cfg, env, id, begun);
      ghost var ended := PhaseEnd(cfg, id, begun.core);
      overlayRound := overlayRound + 1;
      assert Core() == ended.(round := ended.round + 1);
      SendOverlayMessageBatch(env);
      predecessor := PingPredecessor(env);
      received := TakeFutureMessages();
      StartedIs(cfg, env, id, begun, ended, Abstract());
    }

    /** Starts the next round: sends, pings the predecessor, and handles what was buffered for it. */
    method CommonEndOverlayRound(env: Env, ghost begun: Node)
      requires cfg.Valid() && log2n == cfg.LogN() && failuresTolerated == cfg.Faults()
      requires OnSchedule(cfg, begun.core) && begun.core.Active()
      requires Abstract() == begun.(core := PhaseEnd(cfg, id, begun.core)) && phase != Crashed
      modifies this
      ensures Valid() && Abstract() == EndRound(cfg, env, id, begun)
      decreases RoundsLeft(cfg, begun.core), 0, 0
    {
      PhasesEndExactly(cfg, id, begun.core);
      if isLastRound {
        return;
      }
      var predecessor, received := StartNextRound(env, begun);
      var localOverlayRound := overlayRound;
      HandleReceivedMessages(received, env);
      if phase != Crashed && localOverlayRound == overlayRound && predecessor in failedMeters {
        EndOverlayRound(env);
      }
    }

    method HandleReceivedMessages(received: seq<Transport>, env: Env)
      requires Valid() && Core().Active()
      modifies this
      ensures Valid() && phase != Setup
      ensures Abstract() == HandleAll(cfg, env, id, old(Abstract()), received)
      decreases RoundsLeft(cfg, Core()), 2, 0
    {
      var k := 0;
      while k < |received| && phase != Crashed
        invariant 0 <= k <= |received| && Valid() && phase != Setup
        invariant RoundsLeft(cfg, Core()) <= old(RoundsLeft(cfg, Core()))
        invariant HandleAll(cfg, env, id, Abstract(), received[k..]) ==
                  HandleAll(cfg, env, id, old(Abstract()), received)
      {
        assert received[k..][1..] == received[k + 1..];
        HandleOverlayMessage(received[k], env);
        k := k + 1;
      }
      CrashedHandlesNothing(cfg, env, id, Abstract(), received[k..]);
    }

    /** The shuffle keeps verified contributions; the agreement phase takes every message. */
    method HandlePhaseMessage(payload: Payload)
      modifies this`proxyValues, this`agreementMessages
      ensures Core() == HandlePayload(cfg, old(Core()), payload)
    {
      if phase == Shuffle {
        if cfg.script.verifies(payload) {
          proxyValues := proxyValues + {payload};
        }
      } else if phase == Agreement {
        agreementMessages := agreementMessages + [payload];
      }
    }

    /** Opens a message and keeps, hands on or drops what is inside; the exception that follows a failed
        decryption is caught nowhere. */
    method DeliverMessage(received: Message)
      requires phase != Crashed
      modifies this`phase, this`waitingMessages, this`proxyValues, this`agreementMessages
      ensures Core() == Deliver(cfg, id, old(Core()), received)
    {
      if !Opens(received, id) {
        phase := Crashed;
        return;
      }
      var message := Decrypt(received, id);
      if message.PathOverlay? && message.remainingPath != [] {
        message := message.(destination := message.remainingPath[0], remainingPath := message.remainingPath[1..]);
        waitingMessages := waitingMessages + [message];
      }
      if message.body.Encloses? {
        waitingMessages := waitingMessages + [message.body.inner];
      } else if message.body.Carries? && message.destination == id {
        HandlePhaseMessage(message.body.payload);
      }
    }

    /** Opens and delivers a message; the final one ends the round, unless opening it has crashed the node. */
    method HandleOverlayMessage(t: Transport, env: Env)
      requires Valid() && Core().Active()
      modifies this
      ensures Valid() && Abstract() == Handle(cfg, env, id, old(Abstract()), t)
      decreases RoundsLeft(cfg, Core()), 1, 0
    {
      DeliverOnSchedule(cfg, id, Core(), t.message);
      DeliverMessage(t.message);
      if t.isFinal && (phase == Shuffle || phase == Agreement) {
        EndOverlayRound(env);
      }
    }

    method HandleRoundTimeout(pingAnswered: bool, env: Env)
      requires Valid() && Core().Active()
      modifies this
      ensures Valid() && Abstract() == TimeOut(cfg, env, id, old(Abstract()), pingAnswered)
    {
      if pingAnswered {
        var predecessor := if overlayRound >= 0 then Predecessor(id, overlayRound, cfg.n) else -1;
        var success := env.pingArrives(overlayRound, predecessor);
        if !success {
          failedMeters := failedMeters + {predecessor};
        }
      } else {
        EndOverlayRound(env);
      }
    }

    method BufferFutureMessage(t: Transport)
      modifies this`futureMessages
      ensures futureMessages == old(futureMessages) + [t]
    {
      futureMessages := futureMessages + [t];
    }
  }

  /** The client's dispatch of overlay messages. */
  class QueryClient {
    const protocol: ProtocolState
    constructor (protocol: ProtocolState)
      ensures this.protocol == protocol
    {
      this.protocol := protocol;
    }

    method HandleMessage(t: Transport, env: Env)
      requires protocol.Valid() && protocol.phase != Crashed
      modifies protocol
      ensures protocol.Valid()
      ensures protocol.Abstract() == Receive(protocol.cfg, env, protocol.id, old(protocol.Abstract()), t)
    {
      if Target(t.sender, t.round, protocol.cfg.n) == protocol.id {
        if t.round == protocol.overlayRound {
          protocol.HandleOverlayMessage(t, env);
        } else if t.round > protocol.overlayRound {
          protocol.BufferFutureMessage(t);
        }
      }
    }
  }
}
