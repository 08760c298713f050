/** The path finder itself: a breadth-first infection with parent links, one round at a time. */
module PathFinder {
  import opened NumberTheory
  import opened Collections
  import opened Results
  import opened Overlay
  import opened PathSpec

  function ChainOf(node: Option<InfectedNode>): seq<Hop> {
    if node.None? then [] else node.value.Chain()
  }

  /** A node, the round it was infected for, and the node that infected it. */
  datatype InfectedNode = InfectedNode(id: int, infectedOnRound: int, parent: Option<InfectedNode>) {
    /** The hops from the source to this node, read off the parent links. */
    function Chain(): seq<Hop> {
      ChainOf(parent) + [Hop(id, infectedOnRound)]
    }
  }

  function Nodes(h: seq<Hop>): (r: seq<int>)
    ensures |r| == |h| && forall k :: 0 <= k < |h| ==> r[k] == h[k].node
  {
    seq(|h|, k requires 0 <= k < |h| => h[k].node)
  }

  function AllNodes(paths: seq<seq<Hop>>): (r: seq<seq<int>>)
    ensures |r| == |paths|
    ensures forall k :: 0 <= k < |paths| ==> r[k] == Nodes(paths[k])
  {
    seq(|paths|, k requires 0 <= k < |paths| => Nodes(paths[k]))
  }

  /** What the infected map must say after k rounds. */
  ghost predicate Reflects(infected: map<int, InfectedNode>, s: Search, k: nat)
    requires s.Valid()
  {
    && (forall j {:trigger j in infected} :: j in infected <==> s.Infected(j, k))
    && (forall j :: j in infected ==> infected[j].id == j && infected[j].Chain() == s.Route(j, k))
  }

  /** What the newly infected map must say when the given nodes are still to be processed. */
  ghost predicate ReflectsNew(newest: map<int, InfectedNode>, infected: map<int, InfectedNode>,
                              pending: set<int>, s: Search, time: nat)
    requires s.Valid()
  {
    && (forall j {:trigger j in newest} :: j in newest <==>
         var i := Predecessor(j, time, s.n);
         0 <= j < s.n && s.Enterable(j) && i in infected && i !in pending)
    && (forall j :: j in newest ==>
         var i := Predecessor(j, time, s.n);
         i in infected && newest[j] == InfectedNode(j, time + 1, Some(infected[i])))
  }

  lemma SourceReflects(s: Search)
    requires s.Valid()
    ensures Reflects(map[s.source := InfectedNode(s.source, s.start, None)], s, 0)
  {
    assert InfectedNode(s.source, s.start, None).Chain() == [Hop(s.source, s.start)];
  }

  lemma InfectedNext(infected: map<int, InfectedNode>, newest: map<int, InfectedNode>, s: Search, k: nat, time: nat,
                     j: int)
    requires s.Valid() && time == s.start + k && Reflects(infected, s, k)
    requires ReflectsNew(newest, infected, {}, s, time)
    ensures j in newest || j in infected <==> s.Infected(j, k + 1)
  {
    InfectedStep(s, j, k, time);
    assert j in infected <==> s.Infected(j, k);
    if 0 <= j < s.n {
      assert Predecessor(j, time, s.n) in infected <==> s.Infected(Predecessor(j, time, s.n), k);
    }
  }

  lemma RouteNext(infected: map<int, InfectedNode>, newest: map<int, InfectedNode>, s: Search, k: nat, time: nat,
                  j: int)
    requires s.Valid() && time == s.start + k && Reflects(infected, s, k)
    requires ReflectsNew(newest, infected, {}, s, time)
    requires s.Infected(j, k + 1)
    ensures j in infected ==> infected[j].Chain() == s.Route(j, k + 1)
    ensures j !in infected && j in newest ==> newest[j].id == j && newest[j].Chain() == s.Route(j, k + 1)
  {
    InfectedStep(s, j, k, time);
    assert j in infected <==> s.Infected(j, k);
  }

  lemma NextRound(infected: map<int, InfectedNode>, newest: map<int, InfectedNode>, s: Search, k: nat)
    requires s.Valid() && Reflects(infected, s, k) && ReflectsNew(newest, infected, {}, s, s.start + k)
    ensures Reflects(newest + infected, s, k + 1)
  {
    var all := newest + infected;
    forall j ensures j in all <==> s.Infected(j, k + 1) {
      InfectedNext(infected, newest, s, k, s.start + k, j);
    }
    forall j | j in all ensures all[j].id == j && all[j].Chain() == s.Route(j, k + 1) {
      RouteNext(infected, newest, s, k, s.start + k, j);
    }
  }

  lemma NodesOfChain(node: InfectedNode, path: seq<int>)
    ensures Nodes(node.Chain()) + path == Nodes(ChainOf(node.parent)) + ([node.id] + path)
  {
    assert Nodes(node.Chain()) == Nodes(ChainOf(node.parent)) + [node.id];
  }

  /** Follows the parent links back from the node that reaches the target. */
  method PathBackwards(last: InfectedNode, target: int) returns (path: seq<int>)
    ensures path == Nodes(last.Chain()) + [target]
  {
    path := [target];
    var parent := Some(last);
    while parent.Some?
      invariant Nodes(ChainOf(parent)) + path == Nodes(last.Chain()) + [target]
      decreases parent
    {
      var node := parent.value;
      NodesOfChain(node, path);
      path := [node.id] + path;
      parent := node.parent;
    }
    assert Nodes([]) + path == path;
  }

  /** The one node that gossips to the target after k rounds. */
  function Arriver(s: Search, k: nat): int
    requires s.Valid()
  {
    Predecessor(s.target, s.start + k, s.n)
  }

  /** If the target can be reached in this round, the node that reaches it has not been processed yet. */
  ghost predicate ArriverPending(s: Search, k: nat, pending: set<int>)
    requires s.Valid()
  {
    s.Arrives(k) ==> Arriver(s, k) in pending
  }

  /** Round number time, the k-th of the search, with some infected nodes still to be processed. */
  ghost predicate InRound(newest: map<int, InfectedNode>, infected: map<int, InfectedNode>, pending: set<int>,
                          s: Search, time: nat, k: nat)
    requires s.Valid()
  {
    && time == s.start + k && pending <= infected.Keys && Reflects(infected, s, k)
    && ReflectsNew(newest, infected, pending, s, time) && ArriverPending(s, k, pending)
  }

  lemma RoundBegins(infected: map<int, InfectedNode>, s: Search, time: nat, k: nat)
    requires s.Valid() && time == s.start + k && Reflects(infected, s, k)
    ensures InRound(map[], infected, infected.Keys, s, time, k)
  {
  }

  /** Taking node i off the pending set adds exactly its gossip target, if that may be entered. */
  lemma OneProcessed(newest: map<int, InfectedNode>, infected: map<int, InfectedNode>,
                     pending: set<int>, i: int, s: Search, time: nat)
    requires s.Valid() && ReflectsNew(newest, infected, pending, s, time) && i in pending && i in infected
    requires 0 <= i < s.n
    ensures var j := Target(i, time, s.n);
            && 0 <= j < s.n && j !in newest
            && (!s.Enterable(j) ==> ReflectsNew(newest, infected, pending - {i}, s, time))
            && (s.Enterable(j) ==> ReflectsNew(newest[j := InfectedNode(j, time + 1, Some(infected[i]))],
                                               infected, pending - {i}, s, time))
  {
    var j := Target(i, time, s.n);
    GossipInverse(i, j, time, s.n);
    forall x: int | 0 <= x < s.n ensures Predecessor(x, time, s.n) == i ==> x == j {
      GossipInverse(i, x, time, s.n);
    }
  }

  /** A node that does not gossip to the target is not the one that reaches it. */
  lemma NotTheArriver(s: Search, time: nat, k: nat, pending: set<int>, i: int)
    requires s.Valid() && time == s.start + k && 0 <= i < s.n && ArriverPending(s, k, pending)
    requires k < MIN_PATH_LENGTH || Target(i, time, s.n) != s.target
    ensures ArriverPending(s, k, pending - {i})
  {
    if s.Arrives(k) {
      GossipInverse(i, s.target, time, s.n);
    }
  }

  /** A node whose gossip target may not be entered, or is the target too early, leaves nothing behind. */
  lemma NodeSkipped(newest: map<int, InfectedNode>, infected: map<int, InfectedNode>, pending: set<int>, i: int,
                    s: Search, time: nat, k: nat)
    requires s.Valid() && InRound(newest, infected, pending, s, time, k) && i in pending
    requires !s.Enterable(Target(i, time, s.n))
    requires Target(i, time, s.n) == s.target ==> k < MIN_PATH_LENGTH
    ensures InRound(newest, infected, pending - {i}, s, time, k)
  {
    assert s.Infected(i, k);
    OneProcessed(newest, infected, pending, i, s, time);
    NotTheArriver(s, time, k, pending, i);
  }

  /** A node whose gossip target may be entered infects it, for the first time in this round. */
  lemma NodeInfects(newest: map<int, InfectedNode>, infected: map<int, InfectedNode>, pending: set<int>, i: int,
                    s: Search, time: nat, k: nat)
    requires s.Valid() && InRound(newest, infected, pending, s, time, k) && i in pending
    requires s.Enterable(Target(i, time, s.n))
    ensures var j := Target(i, time, s.n);
            && j !in newest
            && InRound(newest[j := InfectedNode(j, time + 1, Some(infected[i]))], infected, pending - {i}, s, time, k)
  {
    assert s.Infected(i, k);
    OneProcessed(newest, infected, pending, i, s, time);
    NotTheArriver(s, time, k, pending, i);
  }

  lemma ArrivalPath(infected: map<int, InfectedNode>, s: Search, i: int, k: nat)
    requires s.Valid() && Reflects(infected, s, k) && i in infected && k >= MIN_PATH_LENGTH
    requires Target(i, s.start + k, s.n) == s.target
    ensures s.Arrives(k) && Nodes(s.FullPath(k)) == Nodes(infected[i].Chain()) + [s.target]
  {
    assert s.Infected(i, k);
    GossipInverse(i, s.target, s.start + k, s.n);
  }

  /** What one round yields: a path if the target is reached in it, and else the nodes newly infected. */
  ghost predicate RoundYields(path: Option<seq<int>>, newest: map<int, InfectedNode>,
                              infected: map<int, InfectedNode>, s: Search, k: nat)
    requires s.Valid()
  {
    && path == (if s.Arrives(k) then Some(Nodes(s.FullPath(k))) else None)
    && (path.None? ==> ReflectsNew(newest, infected, {}, s, s.start + k))
  }

  /** One round of the infection, over the infected nodes in any order. */
  method InfectOneRound(tables: GossipTables, s: Search, infected: map<int, InfectedNode>, time: nat, ghost k: nat)
    returns (path: Option<seq<int>>, newInfected: map<int, InfectedNode>)
    requires tables.Valid() && s.Valid() && s.n < TWO_TO_31 && time == s.start + k < TWO_TO_32
    requires Reflects(infected, s, k)
    modifies tables
    ensures tables.Valid() && RoundYields(path, newInfected, infected, s, k)
  {
    newInfected := map[];
    var pending: set<int> := infected.Keys;
    RoundBegins(infected, s, time, k);
    while pending != {}
      invariant tables.Valid() && InRound(newInfected, infected, pending, s, time, k)
      decreases pending
    {
      var i := AnyOf(pending);
      var endPoint := tables.GossipTarget(i, time, s.n);
      if endPoint in s.exclude && endPoint != s.target {
        NodeSkipped(newInfected, infected, pending, i, s, time, k);
        pending := pending - {i};
        continue;
      }
      if endPoint == s.target && time - s.start < MIN_PATH_LENGTH {
        NodeSkipped(newInfected, infected, pending, i, s, time, k);
        pending := pending - {i};
        continue;
      }
      if endPoint == s.target {
        var route := PathBackwards(infected[i], s.target);
        ArrivalPath(infected, s, i, k);
        return Some(route), newInfected;
      }
      NodeInfects(newInfected, infected, pending, i, s, time, k);
      if endPoint !in newInfected {
        newInfected := newInfected[endPoint := InfectedNode(endPoint, time + 1, Some(infected[i]))];
      }
      pending := pending - {i};
    }
    path := None;
  }

  /** Looking from round k on, the search still has the same outcome. */
  ghost predicate Searching(s: Search, k: nat, limit: int, wanted: Option<seq<Hop>>)
    requires s.Valid()
  {
    s.FindFrom(k, limit) == wanted
  }

  lemma OneRoundSearched(s: Search, k: nat, limit: int, wanted: Option<seq<Hop>>)
    requires s.Valid() && k < limit && Searching(s, k, limit, wanted)
    ensures if s.Arrives(k) then wanted == Some(s.FullPath(k)) else Searching(s, k + 1, limit, wanted)
  {
  }

  ghost function NodesOf(h: Option<seq<Hop>>): Option<seq<int>> {
    if h.None? then None else Some(Nodes(h.value))
  }

  /** The infection has reached round k, and the search still has the same outcome from there on. */
  ghost predicate InfectedUpTo(infected: map<int, InfectedNode>, s: Search, k: int, limit: int,
                               wanted: Option<seq<Hop>>)
    requires s.Valid()
  {
    k >= 0 && Reflects(infected, s, k) && Searching(s, k, limit, wanted)
  }

  lemma RoundPassed(path: Option<seq<int>>, newest: map<int, InfectedNode>, infected: map<int, InfectedNode>,
                    s: Search, k: nat, limit: int, wanted: Option<seq<Hop>>)
    requires s.Valid() && k < limit
    requires InfectedUpTo(infected, s, k, limit, wanted) && RoundYields(path, newest, infected, s, k)
    ensures path.Some? ==> path == NodesOf(wanted)
    ensures path.None? ==> InfectedUpTo(newest + infected, s, k + 1, limit, wanted)
  {
    OneRoundSearched(s, k, limit, wanted);
    if path.None? {
      NextRound(infected, newest, s, k);
    }
  }

  /** None stands for the exception thrown when the target cannot be reached in time. */
  method FindPath(tables: GossipTables, source: int, target: int, n: nat, start: nat, maxRound: nat,
                  exclude: set<int>)
    returns (path: Option<seq<int>>)
    requires tables.Valid()
    requires 2 <= n < TWO_TO_31 && 0 <= source < n && maxRound < TWO_TO_32
    modifies tables
    ensures tables.Valid()
    ensures path == NodesOf(Search(source, target, n, start, exclude).FindFrom(0, maxRound - start))
  {
    var s := Search(source, target, n, start, exclude);
    var infected := map[source := InfectedNode(source, start, None)];
    SourceReflects(s);
    ghost var wanted, k := s.FindFrom(0, maxRound - start), 0;
    var time := start;
    while time < maxRound
      invariant k >= 0 && time == start + k && tables.Valid()
      invariant InfectedUpTo(infected, s, k, maxRound - start, wanted)
      decreases maxRound - time
    {
      var found, newInfected := InfectOneRound(tables, s, infected, time, k);
      RoundPassed(found, newInfected, infected, s, k, maxRound - start, wanted);
      if found.Some? {
        return found;
      }
      infected := newInfected + infected;
      time, k := time + 1, k + 1;
    }
    return None;
  }

  lemma InteriorGrows(h: seq<Hop>, k: nat, source: int, target: int)
    requires k < |h|
    ensures Interior(h[..k + 1], source, target) ==
            Interior(h[..k], source, target)
            + (if h[k].node != source && h[k].node != target then {h[k].node} else {})
  {
    var all, before := h[..k + 1], h[..k];
    forall x | x in Interior(before, source, target) ensures x in Interior(all, source, target) {
      var m :| 0 <= m < |before| && before[m].node == x;
      assert all[m].node == x;
    }
    forall x | x in Interior(all, source, target)
      ensures x in Interior(before, source, target) || x == h[k].node {
      var m :| 0 <= m < |all| && all[m].node == x;
      assert m < k ==> before[m].node == x;
    }
    assert all[k] == h[k];
  }

  method FindAnother(tables: GossipTables, source: int, target: int, n: nat, start: nat, maxRound: nat,
                     used: set<int>)
    returns (path: Outcome<seq<int>>, used': set<int>)
    requires tables.Valid()
    requires 2 <= n < TWO_TO_31 && 0 <= source < n && maxRound < TWO_TO_32
    modifies tables
    ensures tables.Valid()
    ensures path == (if target >= n then InvalidNode else
                       match Search(source, target, n, start, used).FindFrom(0, maxRound - start)
                       case None => NoPath
                       case Some(h) => Found(Nodes(h)))
    ensures path.Found? ==>
              used' == used + Interior(Search(source, target, n, start, used).FindFrom(0, maxRound - start).value,
                                       source, target)
  {
    used' := used;
    if target >= n {
      return InvalidNode, used';
    }
    var found := FindPath(tables, source, target, n, start, maxRound, used);
    if found.None? {
      return NoPath, used';
    }
    ghost var h := Search(source, target, n, start, used).FindFrom(0, maxRound - start).value;
    var nodes := found.value;
    var hop := 0;
    while hop < |nodes|
      invariant 0 <= hop <= |nodes| && tables.Valid()
      invariant used' == used + Interior(h[..hop], source, target)
    {
      InteriorGrows(h, hop, source, target);
      if nodes[hop] != source && nodes[hop] != target {
        used' := used' + {nodes[hop]};
      }
      hop := hop + 1;
    }
    assert h[..hop] == h;
    path := Found(nodes);
  }

  function WithoutSource(paths: seq<seq<int>>): (r: seq<seq<int>>)
    ensures |r| == |paths|
  {
    seq(|paths|, k requires 0 <= k < |paths| => if paths[k] == [] then [] else paths[k][1..])
  }

  ghost function Prepend(done: seq<seq<Hop>>, rest: Outcome<seq<seq<Hop>>>): Outcome<seq<seq<Hop>>> {
    if rest.Found? then Found(done + rest.value) else rest
  }

  lemma PrependNothing(rest: Outcome<seq<seq<Hop>>>)
    ensures Prepend([], rest) == rest
  {
    if rest.Found? {
      assert [] + rest.value == rest.value;
    }
  }

  lemma PrependOne(done: seq<seq<Hop>>, h: seq<Hop>, rest: Outcome<seq<seq<Hop>>>)
    ensures Prepend(done, Prepend([h], rest)) == Prepend(done + [h], rest)
  {
    if rest.Found? {
      assert done + ([h] + rest.value) == (done + [h]) + rest.value;
    }
  }

  lemma FoundIsNonempty(s: Search, limit: int)
    requires s.Valid() && s.FindFrom(0, limit).Some?
    ensures |s.FindFrom(0, limit).value| > 0
  {
    FindIsExact(s, 0, limit);
  }

  /** The whole call: the paths of the specification, without their source node. */
  method FindPaths(tables: GossipTables, source: int, targets: seq<int>, n: nat, start: nat)
    returns (result: Outcome<seq<seq<int>>>)
    requires tables.Valid()
    requires 2 <= n < TWO_TO_31 && 0 <= source < n && start + RoundsLimit(targets, n) < TWO_TO_32
    modifies tables
    ensures tables.Valid()
    ensures result == match FindPathsSpec(source, targets, n, start)
                      case Found(paths) => Found(WithoutSource(AllNodes(paths)))
                      case InvalidNode => InvalidNode
                      case NoPath => NoPath
  {
    var used := set t | t in targets;
    var limit := CeilLog2(n) * |targets| + MIN_PATH_LENGTH;
    ghost var done: seq<seq<Hop>> := [];
    var paths: seq<seq<int>> := [];
    var i := 0;
    assert targets[0..] == targets;
    PrependNothing(FindEach(source, targets, n, start, limit, used));
    while i < |targets|
      invariant 0 <= i <= |targets| && tables.Valid()
      invariant |done| == i && paths == WithoutSource(AllNodes(done))
      invariant FindPathsSpec(source, targets, n, start) ==
                Prepend(done, FindEach(source, targets[i..], n, start, limit, used))
    {
      var path, used' := FindAnother(tables, source, targets[i], n, start, start + limit, used);
      assert targets[i..][0] == targets[i] && targets[i..][1..] == targets[i + 1..];
      match path
      case InvalidNode => return InvalidNode;
      case NoPath => return NoPath;
      case Found(nodes) =>
        ghost var h := Search(source, targets[i], n, start, used).FindFrom(0, limit).value;
        FoundIsNonempty(Search(source, targets[i], n, start, used), limit);
        PrependOne(done, h, FindEach(source, targets[i + 1..], n, start, limit, used'));
        done := done + [h];
        paths := paths + [nodes[1..]];
        used := used';
        i := i + 1;
    }
    assert targets[i..] == [];
    assert done + [] == done;
    result := Found(paths);
  }
}
