/** Tree aggregation of all nodes together, under any arrival order and a fixed set of failed nodes. */
module AggregationRun {
  import opened Contributions
  import opened NumberTheory
  import opened TreeAggregation

  /** The shape of the groups: each node's children, parent and group; -1 stands for no node. */
  datatype Forest = Forest(left: seq<int>, right: seq<int>, parent: seq<int>, group: seq<int>) {
    ghost predicate HasSize(n: nat) {
      |left| == n && |right| == n && |parent| == n && |group| == n
    }

    ghost predicate IsEdge(child: int, i: nat, n: nat)
      requires HasSize(n) && i < n
    {
      i < child < n && parent[child] == i && group[child] == group[i]
    }

    ghost predicate NodeShaped(i: nat, n: nat)
      requires HasSize(n) && i < n
    {
      && (left[i] == -1 || IsEdge(left[i], i, n))
      && (right[i] == -1 || (IsEdge(right[i], i, n) && left[i] != right[i]))
      && (parent[i] == -1 || (0 <= parent[i] < i && (left[parent[i]] == i || right[parent[i]] == i)))
    }

    ghost predicate OneRoot(i: nat, j: nat, n: nat)
      requires HasSize(n) && i < n && j < n
    {
      parent[i] == -1 && parent[j] == -1 && group[i] == group[j] ==> i == j
    }

    /** Every node knows its children and parent alike, ids grow downwards, and a group has one root. */
    ghost predicate WellFormed(n: nat) {
      && HasSize(n)
      && (forall i: nat :: i < n ==> NodeShaped(i, n))
      && (forall i: nat, j: nat :: i < n && j < n ==> OneRoot(i, j, n))
    }
  }

  /** The aggregate function, the forest, what each node accepted, and who has failed. */
  datatype Setting = Setting(a: Aggregator, n: nat, forest: Forest, accepted: int -> set<Contribution>,
                             failed: set<int>, default: Record) {
    ghost predicate Valid() {
      a.Lawful() && forest.WellFormed(n)
    }

    ghost predicate Live(i: int) {
      0 <= i < n && i !in failed
    }

    ghost predicate IsChild(child: int, i: nat)
      requires forest.HasSize(n) && i < n
    {
      child >= 0 && (child == forest.left[i] || child == forest.right[i])
    }

    /** The contributions of a node and of everything below it that live tree edges join to it. */
    ghost function Below(i: nat): multiset<Contribution>
      requires forest.WellFormed(n) && i < n
      decreases n - i, 0
    {
      assert forest.NodeShaped(i, n);
      multiset(accepted(i)) + BelowChild(i, forest.left[i]) + BelowChild(i, forest.right[i])
    }

    ghost function BelowChild(parent: nat, child: int): multiset<Contribution>
      requires forest.WellFormed(n) && parent < n && (child == -1 || parent < child < n)
      decreases n - parent - 1, 1
    {
      if child == -1 || child in failed then multiset{} else Below(child)
    }

    ghost function Report(i: nat): AggregationMessage
      requires forest.WellFormed(n) && i < n
    {
      AggregationMessage(i, a.Total(Below(i)), |Below(i)|)
    }

    /** How many live children a node waits for. */
    function Needed(i: nat): nat
      requires |forest.left| == |forest.right| == n && i < n
    {
      (if forest.left[i] == -1 || forest.left[i] in failed then 0 else 1)
      + (if forest.right[i] == -1 || forest.right[i] in failed then 0 else 1)
    }

    /** What a node has been told by its children so far. */
    ghost function Told(delivered: set<int>, i: nat): multiset<Contribution>
      requires forest.WellFormed(n) && i < n
    {
      assert forest.NodeShaped(i, n);
      (if forest.left[i] in delivered then BelowChild(i, forest.left[i]) else multiset{})
      + (if forest.right[i] in delivered then BelowChild(i, forest.right[i]) else multiset{})
    }

    ghost function Heard(delivered: set<int>, i: nat): nat
      requires forest.WellFormed(n) && i < n
    {
      (if forest.left[i] in delivered && forest.left[i] !in failed then 1 else 0)
      + (if forest.right[i] in delivered && forest.right[i] !in failed then 1 else 0)
    }
  }

  /** A node in the aggregate phase: not started, collecting, or done after sending. */
  datatype AggNode = AggNode(started: bool, done: bool, partial: Partial, buffer: seq<AggregationMessage>,
                             sent: seq<(int, AggregationMessage)>)

  ghost function SendIfDone(s: Setting, i: nat, q: AggNode): AggNode
    requires s.Valid() && i < s.n
  {
    if q.partial.received >= s.Needed(i) then
      var m := Close(s.a, i, q.partial, s.accepted(i));
      q.(done := true, sent := q.sent + [(s.forest.parent[i], m)],
         partial := q.partial.(value := m.value, contributors := m.contributors))
    else q
  }

  ghost function HandleAggregation(s: Setting, i: nat, q: AggNode, m: AggregationMessage): AggNode
    requires s.Valid() && i < s.n
  {
    SendIfDone(s, i, q.(partial := Absorb(s.a, q.partial, m)))
  }

  ghost function HandleBuffered(s: Setting, i: nat, q: AggNode, ms: seq<AggregationMessage>): AggNode
    requires s.Valid() && i < s.n
  {
    if ms == [] then q
    else HandleAggregation(s, i, HandleBuffered(s, i, q, ms[..|ms| - 1]), ms[|ms| - 1])
  }

  /** Entering the aggregate phase: a leaf sends at once, others first take in what came early. */
  ghost function StartAggregate(s: Setting, i: nat, q: AggNode): AggNode
    requires s.Valid() && i < s.n
  {
    var q' := SendIfDone(s, i, q.(started := true, partial := q.partial.(received := 0)));
    if q'.done then q' else HandleBuffered(s, i, q', q.buffer).(buffer := [])
  }

  /** The client's dispatch: only the own group; handled while collecting, kept otherwise. */
  ghost function ReceiveAggregation(s: Setting, i: nat, q: AggNode, m: AggregationMessage): AggNode
    requires s.Valid() && i < s.n
  {
    if !(0 <= m.sender < s.n) || s.forest.group[m.sender] != s.forest.group[i] then q
    else if q.started && !q.done then HandleAggregation(s, i, q, m)
    else q.(buffer := q.buffer + [m])
  }

  /** A message of another group changes nothing; one of the own group is kept until the node collects and after it has
      sent; while it collects any of the own group counts as a child's, and the last one needed makes it send. */
  lemma DispatchExactly(s: Setting, i: nat, q: AggNode, m: AggregationMessage)
    requires s.Valid() && i < s.n && 0 <= m.sender < s.n
    ensures var r := ReceiveAggregation(s, i, q, m);
            if s.forest.group[m.sender] != s.forest.group[i] then r == q
            else if !q.started || q.done then r == q.(buffer := q.buffer + [m])
            else
              && r.buffer == q.buffer && r.partial.received == q.partial.received + 1
              && (r.done <==> r.partial.received >= s.Needed(i))
              && r.partial.contributors ==
                 q.partial.contributors + m.contributors + (if r.done then |s.accepted(i)| else 0)
              && r.sent == q.sent + (if !r.done then [] else
                                       [(s.forest.parent[i],
                                         AggregationMessage(i, r.partial.value, r.partial.contributors))])
  {
    var r := ReceiveAggregation(s, i, q, m);
    assert q.sent + [] == q.sent;
    assert |multiset(s.accepted(i))| == |s.accepted(i)|;
  }

  // ----- The system -----

  datatype System = System(nodes: seq<AggNode>, delivered: set<int>)

  ghost function Initial(s: Setting): System {
    System(seq(s.n, i => AggNode(false, false, Partial(s.default, 0, 0), [], [])), {})
  }

  ghost predicate StartStep(s: Setting, y: System, y': System, i: int)
    requires s.Valid() && |y.nodes| == s.n
  {
    && s.Live(i) && !y.nodes[i].started
    && y' == y.(nodes := y.nodes[i := StartAggregate(s, i, y.nodes[i])])
  }

  /** A sent report reaches the parent once. */
  ghost predicate DeliverStep(s: Setting, y: System, y': System, i: int)
    requires s.Valid() && |y.nodes| == s.n
  {
    && s.Live(i) && y.nodes[i].sent != [] && i !in y.delivered
    && var (p, m) := y.nodes[i].sent[0];
       && s.Live(p)
       && y' == System(y.nodes[p := ReceiveAggregation(s, p, y.nodes[p], m)], y.delivered + {i})
  }

  ghost predicate Step(s: Setting, y: System, y': System)
    requires s.Valid() && |y.nodes| == s.n
  {
    exists i :: StartStep(s, y, y', i) || DeliverStep(s, y, y', i)
  }

  ghost predicate StepAt(s: Setting, run: seq<System>, k: nat)
    requires s.Valid() && k + 1 < |run| && |run[k].nodes| == s.n
  {
    Step(s, run[k], run[k + 1])
  }

  ghost predicate IsRun(s: Setting, run: seq<System>) {
    && s.Valid() && |run| > 0 && run[0] == Initial(s)
    && (forall k :: 0 <= k < |run| ==> |run[k].nodes| == s.n)
    && (forall k: nat :: k < |run| - 1 ==> StepAt(s, run, k))
  }

  // ----- The invariant -----

  function AbsorbAll(a: Aggregator, p: Partial, ms: seq<AggregationMessage>): Partial {
    if ms == [] then p else Absorb(a, AbsorbAll(a, p, ms[..|ms| - 1]), ms[|ms| - 1])
  }

  /** The partial aggregate is exactly what the delivered children reported. */
  ghost predicate Accurate(s: Setting, delivered: set<int>, i: nat, p: Partial)
    requires s.Valid() && i < s.n
  {
    Describes(s.a, p.value, p.contributors, s.Told(delivered, i)) && p.received == s.Heard(delivered, i)
  }

  ghost predicate NodeInv(s: Setting, delivered: set<int>, i: nat, q: AggNode)
    requires s.Valid() && i < s.n
  {
    if q.done then
      && q.started && q.sent == [(s.forest.parent[i], s.Report(i))]
      && s.Heard(delivered, i) == s.Needed(i)
    else if q.started then
      && q.sent == [] && q.buffer == []
      && Accurate(s, delivered, i, q.partial) && s.Heard(delivered, i) < s.Needed(i)
    else
      && q.sent == [] && q.partial == Partial(s.default, 0, 0) && |q.buffer| == s.Heard(delivered, i)
      && Accurate(s, delivered, i, AbsorbAll(s.a, q.partial, q.buffer))
  }

  /** A live node keeps its own invariant, and only sent reports count as delivered. */
  ghost predicate NodeOk(s: Setting, y: System, i: nat)
    requires s.Valid() && |y.nodes| == s.n && i < s.n
  {
    && (s.Live(i) ==> NodeInv(s, y.delivered, i, y.nodes[i]))
    && (i in y.delivered ==> s.Live(i) && y.nodes[i].done)
  }

  ghost predicate Inv(s: Setting, y: System) {
    && s.Valid() && |y.nodes| == s.n
    && (forall i: nat :: i < s.n ==> NodeOk(s, y, i))
    && y.delivered <= Range(0, s.n)
  }

  // ----- One node -----

  lemma HeardAtMostNeeded(s: Setting, delivered: set<int>, i: nat)
    requires s.Valid() && i < s.n && -1 !in delivered
    ensures s.Heard(delivered, i) <= s.Needed(i)
    ensures s.Heard(delivered, i) == s.Needed(i) ==>
              multiset(s.accepted(i)) + s.Told(delivered, i) == s.Below(i)
  {
    assert s.forest.NodeShaped(i, s.n);
  }

  /** With every child heard, the message sent is the node's report. */
  lemma SendsReport(s: Setting, delivered: set<int>, i: nat, p: Partial)
    requires s.Valid() && i < s.n && -1 !in delivered && Accurate(s, delivered, i, p)
    requires s.Heard(delivered, i) == s.Needed(i)
    ensures Close(s.a, i, p, s.accepted(i)) == s.Report(i)
  {
    HeardAtMostNeeded(s, delivered, i);
    CloseDescribes(s.a, i, p, s.Told(delivered, i), s.accepted(i));
  }

  lemma ReportDescribes(s: Setting, i: nat)
    requires s.Valid() && i < s.n
    ensures var m := s.Report(i);
            Describes(s.a, m.value, m.contributors, s.Below(i)) && (m.contributors == 0 ==> m.value == s.a.unit)
  {
    if |s.Below(i)| == 0 {
      EmptyBag(s.Below(i));
    }
  }

  /** Hearing from one more live child adds exactly what is below it. */
  lemma ToldGrows(s: Setting, delivered: set<int>, i: nat, c: nat)
    requires s.Valid() && i < s.n && s.Live(c) && c !in delivered && s.IsChild(c, i)
    ensures s.Told(delivered + {c}, i) == s.Told(delivered, i) + s.Below(c)
    ensures s.Heard(delivered + {c}, i) == s.Heard(delivered, i) + 1
  {
    assert s.forest.NodeShaped(i, s.n);
    var left, right := s.forest.left[i], s.forest.right[i];
    if c == left {
      assert right in delivered + {c} <==> right in delivered;
    } else {
      assert left in delivered + {c} <==> left in delivered;
    }
  }

  /** Hearing from one more live child keeps the partial aggregate accurate. */
  lemma AbsorbStaysAccurate(s: Setting, delivered: set<int>, i: nat, c: nat, p: Partial)
    requires s.Valid() && i < s.n && s.Live(c) && c !in delivered && s.IsChild(c, i)
    requires Accurate(s, delivered, i, p)
    ensures Accurate(s, delivered + {c}, i, Absorb(s.a, p, s.Report(c)))
    ensures s.Heard(delivered + {c}, i) == s.Heard(delivered, i) + 1
  {
    ToldGrows(s, delivered, i, c);
    ReportDescribes(s, c);
    AbsorbAdds(s.a, p, s.Told(delivered, i), s.Report(c), s.Below(c));
  }

  lemma OthersUnaffected(s: Setting, delivered: set<int>, i: nat, c: nat)
    requires s.Valid() && i < s.n && !s.IsChild(c, i)
    ensures s.Told(delivered + {c}, i) == s.Told(delivered, i) && s.Heard(delivered + {c}, i) == s.Heard(delivered, i)
  {
  }

  lemma {:induction false} BufferedInOrder(s: Setting, i: nat, q: AggNode, ms: seq<AggregationMessage>)
    requires s.Valid() && i < s.n && q.partial.received == 0 && |ms| <= s.Needed(i) && s.Needed(i) > 0
    ensures AbsorbAll(s.a, q.partial, ms).received == |ms|
    ensures HandleBuffered(s, i, q, ms) ==
            (if ms == [] then q else SendIfDone(s, i, q.(partial := AbsorbAll(s.a, q.partial, ms))))
    decreases |ms|
  {
    if ms != [] {
      var before := ms[..|ms| - 1];
      BufferedInOrder(s, i, q, before);
      assert HandleBuffered(s, i, q, before) == q.(partial := AbsorbAll(s.a, q.partial, before));
    }
  }

  lemma StartKeepsNodeInv(s: Setting, delivered: set<int>, i: nat, q: AggNode)
    requires s.Valid() && s.Live(i) && -1 !in delivered && NodeInv(s, delivered, i, q) && !q.started && !q.done
    ensures NodeInv(s, delivered, i, StartAggregate(s, i, q)) && StartAggregate(s, i, q).started
  {
    HeardAtMostNeeded(s, delivered, i);
    var begun := q.(started := true, partial := q.partial.(received := 0));
    assert begun.partial == q.partial;
    if s.Needed(i) == 0 {
      assert q.buffer == [];
      SendsReport(s, delivered, i, q.partial);
    } else {
      BufferedInOrder(s, i, begun, q.buffer);
      if |q.buffer| == s.Needed(i) {
        SendsReport(s, delivered, i, AbsorbAll(s.a, q.partial, q.buffer));
      }
    }
  }

  lemma CollectKeepsNodeInv(s: Setting, delivered: set<int>, i: nat, c: nat, q: AggNode)
    requires s.Valid() && s.Live(i) && s.Live(c) && -1 !in delivered && c !in delivered
    requires s.IsChild(c, i) && NodeInv(s, delivered, i, q) && q.started && !q.done
    ensures NodeInv(s, delivered + {c}, i, HandleAggregation(s, i, q, s.Report(c)))
  {
    var p := Absorb(s.a, q.partial, s.Report(c));
    AbsorbStaysAccurate(s, delivered, i, c, q.partial);
    HeardAtMostNeeded(s, delivered + {c}, i);
    if s.Heard(delivered + {c}, i) == s.Needed(i) {
      SendsReport(s, delivered + {c}, i, p);
    }
  }

  /** A node that has heard from all its live children has none left to hear from. */
  lemma AllHeard(s: Setting, delivered: set<int>, i: nat, c: nat)
    requires s.Valid() && i < s.n && s.Live(c) && -1 !in delivered && s.IsChild(c, i)
    requires s.Heard(delivered, i) == s.Needed(i)
    ensures c in delivered
  {
    assert s.forest.NodeShaped(i, s.n);
  }

  lemma ReceiveKeepsNodeInv(s: Setting, delivered: set<int>, i: nat, c: nat, q: AggNode)
    requires s.Valid() && s.Live(i) && s.Live(c) && -1 !in delivered && c !in delivered
    requires s.IsChild(c, i) && NodeInv(s, delivered, i, q)
    ensures NodeInv(s, delivered + {c}, i, ReceiveAggregation(s, i, q, s.Report(c)))
    ensures !q.done
  {
    assert s.forest.NodeShaped(i, s.n);
    if q.done {
      AllHeard(s, delivered, i, c);
      assert false;
    } else if q.started {
      CollectKeepsNodeInv(s, delivered, i, c, q);
    } else {
      AbsorbStaysAccurate(s, delivered, i, c, AbsorbAll(s.a, q.partial, q.buffer));
      assert (q.buffer + [s.Report(c)])[..|q.buffer|] == q.buffer;
    }
  }

  // ----- Every run -----

  lemma InitialInv(s: Setting)
    requires s.Valid()
    ensures Inv(s, Initial(s))
  {
  }

  lemma StartKeepsInv(s: Setting, y: System, y': System, i: int)
    requires Inv(s, y) && StartStep(s, y, y', i)
    ensures Inv(s, y')
  {
    assert NodeOk(s, y, i);
    StartKeepsNodeInv(s, y.delivered, i, y.nodes[i]);
    forall j: nat | j < s.n && j != i ensures NodeOk(s, y', j) {
      assert NodeOk(s, y, j);
    }
  }

  /** Parents and children agree on who is whose. */
  lemma EdgesAgree(s: Setting, c: nat, i: nat)
    requires s.Valid() && c < s.n && i < s.n
    ensures s.IsChild(c, i) <==> s.forest.parent[c] == i
    ensures s.IsChild(c, i) ==> c > i && s.forest.group[c] == s.forest.group[i]
  {
    assert s.forest.NodeShaped(i, s.n) && s.forest.NodeShaped(c, s.n);
  }

  lemma OthersKeepNodeInv(s: Setting, delivered: set<int>, i: nat, c: nat, q: AggNode)
    requires s.Valid() && i < s.n && !s.IsChild(c, i) && NodeInv(s, delivered, i, q)
    ensures NodeInv(s, delivered + {c}, i, q)
  {
    OthersUnaffected(s, delivered, i, c);
  }

  lemma DeliverKeepsInv(s: Setting, y: System, y': System, i: int)
    requires Inv(s, y) && DeliverStep(s, y, y', i)
    ensures Inv(s, y')
  {
    assert NodeOk(s, y, i);
    var p := s.forest.parent[i];
    EdgesAgree(s, i, p);
    assert NodeOk(s, y, p);
    ReceiveKeepsNodeInv(s, y.delivered, p, i, y.nodes[p]);
    forall j: nat | j < s.n && j != p ensures NodeOk(s, y', j) {
      assert NodeOk(s, y, j);
      if s.Live(j) {
        EdgesAgree(s, i, j);
        OthersKeepNodeInv(s, y.delivered, j, i, y.nodes[j]);
      }
    }
  }

  lemma StepKeepsInv(s: Setting, y: System, y': System)
    requires Inv(s, y) && |y'.nodes| == s.n && Step(s, y, y')
    ensures Inv(s, y')
  {
    var i :| StartStep(s, y, y', i) || DeliverStep(s, y, y', i);
    if StartStep(s, y, y', i) {
      StartKeepsInv(s, y, y', i);
    } else {
      DeliverKeepsInv(s, y, y', i);
    }
  }

  lemma {:induction false} RunKeepsInv(s: Setting, run: seq<System>, k: nat)
    requires IsRun(s, run) && k < |run|
    ensures Inv(s, run[k])
  {
    if k == 0 {
      InitialInv(s);
    } else {
      RunKeepsInv(s, run, k - 1);
      assert StepAt(s, run, k - 1);
      StepKeepsInv(s, run[k - 1], run[k]);
    }
  }

  /** In every run a live node sends at most one message, to its parent, and it is its exact report. */
  lemma LiveNodesReportOnce(s: Setting, run: seq<System>, k: nat, i: nat)
    requires IsRun(s, run) && k < |run| && s.Live(i)
    ensures var sent := run[k].nodes[i].sent;
            sent == [] || sent == [(s.forest.parent[i], s.Report(i))]
  {
    RunKeepsInv(s, run, k);
    assert NodeOk(s, run[k], i);
  }

  ghost predicate Enabled(s: Setting, y: System)
    requires s.Valid() && |y.nodes| == s.n
  {
    exists i, y' :: StartStep(s, y, y', i) || DeliverStep(s, y, y', i)
  }

  lemma CanStart(s: Setting, y: System, i: nat)
    requires s.Valid() && |y.nodes| == s.n && s.Live(i) && !y.nodes[i].started
    ensures Enabled(s, y)
  {
    assert StartStep(s, y, y.(nodes := y.nodes[i := StartAggregate(s, i, y.nodes[i])]), i);
  }

  lemma CanDeliver(s: Setting, y: System, c: nat)
    requires s.Valid() && |y.nodes| == s.n && s.Live(c) && c !in y.delivered
    requires y.nodes[c].sent != [] && s.Live(y.nodes[c].sent[0].0)
    ensures Enabled(s, y)
  {
    var (p, m) := y.nodes[c].sent[0];
    assert DeliverStep(s, y, System(y.nodes[p := ReceiveAggregation(s, p, y.nodes[p], m)], y.delivered + {c}), c);
  }

  lemma MissingChild(s: Setting, delivered: set<int>, i: nat) returns (c: nat)
    requires s.Valid() && i < s.n && s.Heard(delivered, i) < s.Needed(i)
    ensures s.Live(c) && c !in delivered && c > i && s.forest.parent[c] == i
  {
    assert s.forest.NodeShaped(i, s.n);
    var left := s.forest.left[i];
    c := if left != -1 && left !in s.failed && left !in delivered then left else s.forest.right[i];
  }

  /** As long as a live node has not sent its report, some node can start or some report can arrive. */
  lemma {:induction false} RunsMakeProgress(s: Setting, run: seq<System>, k: nat, i: nat)
    requires IsRun(s, run) && k < |run| && s.Live(i) && !run[k].nodes[i].done
    ensures Enabled(s, run[k])
    decreases s.n - i
  {
    RunKeepsInv(s, run, k);
    var y := run[k];
    assert NodeOk(s, y, i);
    if !y.nodes[i].started {
      CanStart(s, y, i);
    } else {
      var c := MissingChild(s, y.delivered, i);
      if y.nodes[c].done {
        assert NodeOk(s, y, c);
        CanDeliver(s, y, c);
      } else {
        RunsMakeProgress(s, run, k, c);
      }
    }
  }

  ghost function StartedNodes(y: System): set<int> {
    set i | 0 <= i < |y.nodes| && y.nodes[i].started
  }

  lemma ReceivingDoesNotStart(s: Setting, i: nat, q: AggNode, m: AggregationMessage)
    requires s.Valid() && i < s.n
    ensures ReceiveAggregation(s, i, q, m).started == q.started
  {
  }

  lemma OneMoreStarted(s: Setting, y: System, y': System, i: int)
    requires Inv(s, y) && StartStep(s, y, y', i)
    ensures |StartedNodes(y')| == |StartedNodes(y)| + 1 && y'.delivered == y.delivered
  {
    assert NodeOk(s, y, i);
    StartKeepsNodeInv(s, y.delivered, i, y.nodes[i]);
    assert StartedNodes(y') == StartedNodes(y) + {i};
  }

  lemma OneMoreDelivered(s: Setting, y: System, y': System, i: int)
    requires s.Valid() && |y.nodes| == s.n && DeliverStep(s, y, y', i)
    ensures |y'.delivered| == |y.delivered| + 1 && StartedNodes(y') == StartedNodes(y)
  {
    var (p, m) := y.nodes[i].sent[0];
    var q := ReceiveAggregation(s, p, y.nodes[p], m);
    ReceivingDoesNotStart(s, p, y.nodes[p], m);
    assert y'.nodes == y.nodes[p := q] && y'.delivered == y.delivered + {i};
    assert StartedNodes(y') == StartedNodes(y);
  }

  lemma OneMoreStep(s: Setting, y: System, y': System)
    requires Inv(s, y) && |y'.nodes| == s.n && Step(s, y, y')
    ensures |StartedNodes(y')| + |y'.delivered| == |StartedNodes(y)| + |y.delivered| + 1
  {
    var i :| StartStep(s, y, y', i) || DeliverStep(s, y, y', i);
    if StartStep(s, y, y', i) {
      OneMoreStarted(s, y, y', i);
    } else {
      OneMoreDelivered(s, y, y', i);
    }
  }

  lemma AtMostAllNodes(s: Setting, y: System)
    requires Inv(s, y)
    ensures |StartedNodes(y)| <= s.n && |y.delivered| <= s.n
  {
    RangeSize(0, s.n);
    SubsetSize(StartedNodes(y), Range(0, s.n));
    SubsetSize(y.delivered, Range(0, s.n));
  }

  lemma {:induction false} WorkCountsSteps(s: Setting, run: seq<System>, k: nat)
    requires IsRun(s, run) && k < |run|
    ensures |StartedNodes(run[k])| + |run[k].delivered| == k
    decreases k
  {
    if k == 0 {
      assert StartedNodes(Initial(s)) == {};
    } else {
      WorkCountsSteps(s, run, k - 1);
      RunKeepsInv(s, run, k - 1);
      assert StepAt(s, run, k - 1);
      OneMoreStep(s, run[k - 1], run[k]);
    }
  }

  /** Every step is one start or one arrival, and neither happens twice to a node: no run goes past 2n steps. */
  lemma RunsAreShort(s: Setting, run: seq<System>)
    requires IsRun(s, run)
    ensures |run| <= 2 * s.n + 1
  {
    WorkCountsSteps(s, run, |run| - 1);
    RunKeepsInv(s, run, |run| - 1);
    AtMostAllNodes(s, run[|run| - 1]);
  }

  /** When nothing more can happen, every live node has sent its report, exactly once. */
  lemma StoppedRunsAreComplete(s: Setting, run: seq<System>, i: nat)
    requires IsRun(s, run) && !Enabled(s, run[|run| - 1]) && s.Live(i)
    ensures run[|run| - 1].nodes[i].sent == [(s.forest.parent[i], s.Report(i))]
  {
    RunKeepsInv(s, run, |run| - 1);
    if !run[|run| - 1].nodes[i].done {
      RunsMakeProgress(s, run, |run| - 1, i);
      assert false;
    }
    assert NodeOk(s, run[|run| - 1], i);
  }
}
