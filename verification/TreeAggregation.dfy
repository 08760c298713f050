/** One node's part in the tree aggregation of its group. */
module TreeAggregation {
  import opened Collections
  import opened Contributions
  import opened Groups

  datatype AggregationMessage = AggregationMessage(sender: int, value: Record, contributors: nat)

  /** The intermediate aggregate: value, contributions counted, child messages received. */
  datatype Partial = Partial(value: Record, contributors: nat, received: nat)

  /** How many children a node waits for. */
  function LiveChildren(node: nat, groups: nat, n: nat, failed: set<int>): nat
    requires 2 <= groups <= n && node < n
  {
    var children := Children(node, groups, n);
    (if children.0 == -1 || children.0 in failed then 0 else 1)
    + (if children.1 == -1 || children.1 in failed then 0 else 1)
  }

  /** Takes in a child's message; the first value is stored, later ones are combined. */
  function Absorb(a: Aggregator, p: Partial, m: AggregationMessage): Partial {
    if p.contributors == 0 then Partial(m.value, m.contributors, p.received + 1)
    else Partial(a.Aggregate([m.value, p.value]), p.contributors + m.contributors, p.received + 1)
  }

  /** The message a node sends: its own contributions together with the intermediate value, if any. */
  ghost function Close(a: Aggregator, node: int, p: Partial, accepted: set<Contribution>): AggregationMessage {
    AggregationMessage(node,
                       if p.contributors > 0 then a.combine(a.Total(multiset(accepted)), p.value)
                       else a.Total(multiset(accepted)),
                       p.contributors + |accepted|)
  }

  /** The value and count describe exactly this bag of contributions. */
  ghost predicate Describes(a: Aggregator, value: Record, contributors: nat, bag: multiset<Contribution>) {
    contributors == |bag| && (contributors > 0 ==> value == a.Total(bag))
  }

  lemma EmptyBag(bag: multiset<Contribution>)
    requires |bag| == 0
    ensures bag == multiset{}
  {
  }

  lemma CombineUnit(a: Aggregator, x: Record)
    requires a.Lawful()
    ensures a.combine(a.unit, x) == x && a.combine(x, a.unit) == x
  {
    assert a.IsUnitFor(x);
  }

  /** Taking in a message that describes a bag adds that bag. */
  lemma AbsorbAdds(a: Aggregator, p: Partial, bag: multiset<Contribution>,
                   m: AggregationMessage, more: multiset<Contribution>)
    requires a.Lawful() && Describes(a, p.value, p.contributors, bag) && Describes(a, m.value, m.contributors, more)
    requires m.contributors == 0 ==> m.value == a.unit
    ensures var r := Absorb(a, p, m);
            Describes(a, r.value, r.contributors, bag + more) && r.received == p.received + 1
  {
    if p.contributors == 0 {
      EmptyBag(bag);
      assert bag + more == more;
    } else {
      AggregateOfTwo(a, m.value, p.value);
      if m.contributors == 0 {
        EmptyBag(more);
        assert bag + more == bag;
        CombineUnit(a, p.value);
      } else {
        TotalUnion(a, more, bag);
        assert bag + more == more + bag;
      }
    }
  }

  /** The message a node sends describes its own contributions and everything its children reported. */
  lemma CloseDescribes(a: Aggregator, node: int, p: Partial, bag: multiset<Contribution>, accepted: set<Contribution>)
    requires a.Lawful() && Describes(a, p.value, p.contributors, bag)
    ensures var m := Close(a, node, p, accepted);
            && m.value == a.Total(multiset(accepted) + bag) && m.contributors == |multiset(accepted) + bag|
            && (m.contributors == 0 ==> m.value == a.unit)
  {
    if p.contributors > 0 {
      TotalUnion(a, multiset(accepted), bag);
    } else {
      EmptyBag(bag);
      assert multiset(accepted) + bag == multiset(accepted);
    }
    if |multiset(accepted) + bag| == 0 {
      EmptyBag(multiset(accepted) + bag);
    }
  }

  class TreeAggregationState {
    const nodeId: nat
    const numGroups: nat
    const numMeters: nat
    const aggregator: Aggregator
    var initialized: bool
    var childrenReceivedFrom: nat
    var childrenNeeded: nat
    var intermediateValue: Record
    var numContributors: nat
    /** Messages handed to the network, each with its recipient; -1 is the utility. */
    var network: seq<(int, AggregationMessage)>

    ghost predicate Valid()
      reads this
    {
      2 <= numGroups <= numMeters && nodeId < numMeters && aggregator.Lawful()
    }

    ghost function Current(): Partial
      reads this
    {
      Partial(intermediateValue, numContributors, childrenReceivedFrom)
    }

    constructor (nodeId: nat, numGroups: nat, numMeters: nat, aggregator: Aggregator, default: Record)
      requires 2 <= numGroups <= numMeters && nodeId < numMeters && aggregator.Lawful()
      ensures Valid() && !initialized && Current() == Partial(default, 0, 0) && network == []
      ensures this.nodeId == nodeId && this.numGroups == numGroups && this.numMeters == numMeters
      ensures this.aggregator == aggregator
    {
      this.nodeId, this.numGroups, this.numMeters, this.aggregator := nodeId, numGroups, numMeters, aggregator;
      initialized, childrenReceivedFrom, childrenNeeded := false, 0, 2;
      intermediateValue, numContributors, network := default, 0, [];
    }

    method Initialize(failed: set<int>)
      requires Valid()
      modifies this`initialized, this`childrenReceivedFrom, this`childrenNeeded
      ensures Valid() && initialized
      ensures childrenNeeded == LiveChildren(nodeId, numGroups, numMeters, failed)
      ensures Current() == old(Current()).(received := 0)
    {
      childrenReceivedFrom := 0;
      var children := Children(nodeId, numGroups, numMeters);
      childrenNeeded := 2;
      if children.0 == -1 || children.0 in failed {
        childrenNeeded := childrenNeeded - 1;
      }
      if children.1 == -1 || children.1 in failed {
        childrenNeeded := childrenNeeded - 1;
      }
      initialized := true;
    }

    method DoneReceivingFromChildren() returns (done: bool)
      ensures done == (childrenReceivedFrom >= childrenNeeded)
    {
      done := childrenReceivedFrom >= childrenNeeded;
    }

    method HandleMessage(m: AggregationMessage)
      requires Valid()
      modifies this`childrenReceivedFrom, this`intermediateValue, this`numContributors
      ensures Valid() && Current() == Absorb(aggregator, old(Current()), m)
    {
      if numContributors == 0 {
        intermediateValue := m.value;
        numContributors := m.contributors;
      } else {
        intermediateValue := aggregator.Aggregate([m.value, intermediateValue]);
        numContributors := numContributors + m.contributors;
      }
      childrenReceivedFrom := childrenReceivedFrom + 1;
    }

    /** The records of the accepted contributions, in whatever order the set yields them. */
    method CollectValues(accepted: set<Contribution>) returns (values: seq<Record>)
      requires Valid()
      ensures aggregator.Aggregate(values) == aggregator.Total(multiset(accepted))
    {
      values := [];
      ghost var cs: seq<Contribution> := [];
      var pending := accepted;
      while pending != {}
        invariant pending <= accepted && values == Values(cs)
        invariant multiset(cs) + multiset(pending) == multiset(accepted)
        decreases pending
      {
        var c := AnyOf(pending);
        pending := pending - {c};
        values := values + [c.value];
        cs := cs + [c];
      }
      assert multiset(cs) == multiset(accepted);
      AggregateIsTotal(aggregator, cs);
    }

    method ComputeAndSendAggregate(accepted: set<Contribution>)
      requires Valid()
      modifies this`intermediateValue, this`numContributors, this`network
      ensures Valid()
      ensures var m := Close(aggregator, nodeId, old(Current()), accepted);
              && network == old(network) + [(Parent(nodeId, numGroups, numMeters), m)]
              && intermediateValue == m.value && numContributors == m.contributors
    {
      var values := CollectValues(accepted);
      if numContributors > 0 {
        AggregateAppend(aggregator, values, intermediateValue);
        values := values + [intermediateValue];
      }
      intermediateValue := aggregator.Aggregate(values);
      numContributors := numContributors + |accepted|;
      network := network + [(Parent(nodeId, numGroups, numMeters),
                             AggregationMessage(nodeId, intermediateValue, numContributors))];
    }
  }
}
