/** The aggregate phase at one node: the protocol's handlers around the tree state, and the client's dispatch. */
module AggregationPhase {
  import opened AggregationRun
  import opened Contributions
  import opened Groups
  import opened GroupTotals
  import opened TreeAggregation

  datatype Phase = Overlay | Aggregate | Idle

  /** Handling a message neither reads nor changes the buffer. */
  lemma BufferIsSeparate(s: Setting, i: nat, q: AggNode, m: AggregationMessage, buffer: seq<AggregationMessage>)
    requires s.Valid() && i < s.n
    ensures HandleAggregation(s, i, q.(buffer := buffer), m) == HandleAggregation(s, i, q, m).(buffer := buffer)
  {
  }

  lemma OneMoreBuffered(s: Setting, i: nat, ready: AggNode, all: seq<AggregationMessage>, k: nat)
    requires s.Valid() && i < s.n && k < |all|
    ensures var q := HandleBuffered(s, i, ready, all[..k]);
            HandleBuffered(s, i, ready, all[..k + 1]).(buffer := all[k + 1..]) ==
            HandleAggregation(s, i, q.(buffer := all[k..]), all[k]).(buffer := all[k + 1..])
  {
    assert all[..k + 1][..k] == all[..k];
    BufferIsSeparate(s, i, HandleBuffered(s, i, ready, all[..k]), all[k], all[k..]);
  }

  /** The fields of the protocol state that the aggregate phase uses. */
  class AggregateState {
    const id: nat
    const tree: TreeAggregationState
    var protocolPhase: Phase
    var acceptedProxyValues: set<Contribution>
    var futureMessages: seq<AggregationMessage>

    ghost function Abstract(): AggNode
      reads this, tree
    {
      AggNode(protocolPhase != Overlay, protocolPhase == Idle, tree.Current(), futureMessages, tree.network)
    }

    /** This node is node id of the setting. */
    ghost predicate IsNodeOf(s: Setting)
      reads this, tree
    {
      && tree.Valid() && id == tree.nodeId && s.n == tree.numMeters && s.Valid()
      && s.forest == OverlayForest(tree.numGroups, s.n) && s.a == tree.aggregator
      && acceptedProxyValues == s.accepted(id)
      && (protocolPhase != Overlay ==> tree.childrenNeeded == s.Needed(id))
    }

    constructor (tree: TreeAggregationState, accepted: set<Contribution>)
      requires tree.Valid()
      ensures this.tree == tree && id == tree.nodeId && acceptedProxyValues == accepted
      ensures Abstract() == AggNode(false, false, tree.Current(), [], tree.network)
    {
      this.tree, id, acceptedProxyValues := tree, tree.nodeId, accepted;
      protocolPhase, futureMessages := Overlay, [];
    }

    method SendAggregateIfDone(ghost s: Setting)
      requires IsNodeOf(s) && protocolPhase != Overlay
      modifies this`protocolPhase, tree
      ensures IsNodeOf(s) && Abstract() == SendIfDone(s, id, old(Abstract()))
    {
      var done := tree.DoneReceivingFromChildren();
      if done {
        tree.ComputeAndSendAggregate(acceptedProxyValues);
        protocolPhase := Idle;
      }
    }

    method HandleAggregationMessage(m: AggregationMessage, ghost s: Setting)
      requires IsNodeOf(s) && protocolPhase != Overlay
      modifies this`protocolPhase, tree
      ensures IsNodeOf(s) && Abstract() == HandleAggregation(s, id, old(Abstract()), m)
    {
      tree.HandleMessage(m);
      SendAggregateIfDone(s);
    }

    /** Takes in the early messages, first to last, each leaving the buffer once handled. */
    method HandleFutureMessages(ghost s: Setting)
      requires IsNodeOf(s) && protocolPhase != Overlay
      modifies this`protocolPhase, this`futureMessages, tree
      ensures IsNodeOf(s) && protocolPhase != Overlay
      ensures Abstract() == HandleBuffered(s, id, old(Abstract()), old(futureMessages)).(buffer := [])
    {
      ghost var ready, all := Abstract(), futureMessages;
      ghost var handled := 0;
      assert all[..0] == [];
      while futureMessages != []
        invariant IsNodeOf(s) && protocolPhase != Overlay
        invariant 0 <= handled <= |all| && futureMessages == all[handled..]
        invariant Abstract() == HandleBuffered(s, id, ready, all[..handled]).(buffer := all[handled..])
        decreases |futureMessages|
      {
        var m := futureMessages[0];
        HandleAggregationMessage(m, s);
        futureMessages := futureMessages[1..];
        OneMoreBuffered(s, id, ready, all, handled);
        handled := handled + 1;
      }
      assert all[..handled] == all;
    }

    /** Entering the phase: a leaf sends at once, others first take in what came early. */
    method StartAggregatePhase(failed: set<int>, ghost s: Setting)
      requires IsNodeOf(s) && protocolPhase == Overlay && failed == s.failed
      modifies this`protocolPhase, this`futureMessages, tree
      ensures IsNodeOf(s) && Abstract() == StartAggregate(s, id, old(Abstract()))
    {
      protocolPhase := Aggregate;
      tree.Initialize(failed);
      ghost var begun := Abstract();
      SendAggregateIfDone(s);
      if protocolPhase == Aggregate {
        HandleFutureMessages(s);
      }
    }

    /** The client's dispatch: only the own group; handled while aggregating, kept otherwise. */
    method ReceiveAggregationMessage(m: AggregationMessage, ghost s: Setting)
      requires IsNodeOf(s) && 0 <= m.sender < s.n
      modifies this`protocolPhase, this`futureMessages, tree
      ensures IsNodeOf(s) && Abstract() == ReceiveAggregation(s, id, old(Abstract()), m)
    {
      if GroupFor(m.sender, tree.numGroups, tree.numMeters) == GroupFor(id, tree.numGroups, tree.numMeters) {
        if protocolPhase == Aggregate {
          HandleAggregationMessage(m, s);
        } else {
          futureMessages := futureMessages + [m];
        }
      }
    }
  }
}
