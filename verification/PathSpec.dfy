/** What the path finder computes: earliest temporal paths in the time-varying overlay graph. */
module PathSpec {
  import opened NumberTheory
  import opened Results
  import opened Overlay

  /** No path may reach its target before this many rounds have passed. */
  const MIN_PATH_LENGTH := 3

  /** A node together with the round in which a message first waits there. */
  datatype Hop = Hop(node: int, round: int)

  /** One search: from source at round start to target, never entering an excluded node. */
  datatype Search = Search(source: int, target: int, n: nat, start: nat, exclude: set<int>) {
    ghost predicate Valid() {
      n >= 2 && 0 <= source < n
    }

    predicate Enterable(node: int) {
      node != target && node !in exclude
    }

    /** The node is infected when k rounds have passed. */
    predicate Infected(node: int, k: nat): (r: bool)
      requires Valid()
      ensures r ==> 0 <= node < n
      ensures node == source ==> r
      decreases k
    {
      if k == 0 then node == source
      else
        || Infected(node, k - 1)
        || (0 <= node < n && Enterable(node) && Infected(Predecessor(node, start + k - 1, n), k - 1))
    }

    /** The target is gossiped to in the k-th round by an infected node, late enough. */
    predicate Arrives(k: nat)
      requires Valid()
    {
      k >= MIN_PATH_LENGTH && 0 <= target < n && Infected(Predecessor(target, start + k, n), k)
    }

    /** How an infected node was first reached. */
    function Route(node: int, k: nat): (h: seq<Hop>)
      requires Valid() && Infected(node, k)
      ensures |h| >= 1
      decreases k
    {
      if k == 0 then [Hop(source, start)]
      else if Infected(node, k - 1) then Route(node, k - 1)
      else
        Route(Predecessor(node, start + k - 1, n), k - 1) + [Hop(node, start + k)]
    }

    function FullPath(k: nat): (h: seq<Hop>)
      requires Valid() && Arrives(k)
      ensures |h| >= 2
    {
      Route(Predecessor(target, start + k, n), k) + [Hop(target, start + k + 1)]
    }

    /** The path of the earliest arrival in rounds k..limit - 1 of the search. */
    function FindFrom(k: nat, limit: int): (r: Option<seq<Hop>>)
      requires Valid()
      ensures r.Some? ==> |r.value| >= 2 && 0 <= target < n
      decreases limit - k
    {
      if k >= limit then None
      else if Arrives(k) then Some(FullPath(k))
      else FindFrom(k + 1, limit)
    }
  }

  /** One round of the infection. */
  lemma InfectedStep(s: Search, node: int, k: nat, time: nat)
    requires s.Valid() && time == s.start + k
    ensures s.Infected(node, k + 1) <==>
            s.Infected(node, k)
            || (0 <= node < s.n && s.Enterable(node) && s.Infected(Predecessor(node, time, s.n), k))
    ensures s.Infected(node, k + 1) ==>
              s.Route(node, k + 1) ==
              if s.Infected(node, k) then s.Route(node, k)
              else s.Route(Predecessor(node, time, s.n), k) + [Hop(node, time + 1)]
  {
    assert s.start + (k + 1) - 1 == time;
  }

  /** Whoever an infected node gossips to is infected next, if it may be entered. */
  lemma GossipInfects(s: Search, node: int, k: nat)
    requires s.Valid() && s.Infected(node, k) && s.Enterable(Target(node, s.start + k, s.n))
    ensures s.Infected(Target(node, s.start + k, s.n), k + 1)
  {
    GossipInverse(node, Target(node, s.start + k, s.n), s.start + k, s.n);
  }

  /** A newly infected node was gossiped to by its predecessor. */
  lemma InfectedByPredecessor(s: Search, node: int, k: nat) returns (from: int)
    requires s.Valid() && k > 0 && s.Infected(node, k) && !s.Infected(node, k - 1)
    ensures from == Predecessor(node, s.start + k - 1, s.n) && s.Infected(from, k - 1)
    ensures s.Enterable(node) && node == Target(from, s.start + k - 1, s.n)
  {
    from := Predecessor(node, s.start + k - 1, s.n);
    GossipInverse(from, node, s.start + k - 1, s.n);
  }

  lemma {:induction false} InfectedGrows(s: Search, node: int, k: nat, l: nat)
    requires s.Valid() && k <= l && s.Infected(node, k)
    ensures s.Infected(node, l)
    decreases l - k
  {
    if k < l {
      InfectedGrows(s, node, k, l - 1);
    }
  }

  // ----- Exactness -----

  /** A walk that enters only nodes that may be entered. */
  ghost predicate IsAvoidingWalk(w: seq<int>, s: Search)
    requires s.Valid()
  {
    && IsWalk(w, s.start, s.n) && w[0] == s.source
    && (forall k :: 0 <= k < |w| - 1 ==> w[k + 1] == w[k] || s.Enterable(w[k + 1]))
  }

  ghost predicate ReachableBy(s: Search, node: int, k: nat)
    requires s.Valid()
  {
    exists w :: |w| == k + 1 && IsAvoidingWalk(w, s) && w[k] == node
  }

  lemma {:induction false} WalkTo(s: Search, node: int, k: nat) returns (w: seq<int>)
    requires s.Valid() && s.Infected(node, k)
    ensures |w| == k + 1 && IsAvoidingWalk(w, s) && w[k] == node
    decreases k
  {
    if k == 0 {
      w := [node];
    } else {
      var from := node;
      if !s.Infected(node, k - 1) {
        from := InfectedByPredecessor(s, node, k);
      }
      var v := WalkTo(s, from, k - 1);
      w := v + [node];
    }
  }

  lemma {:induction false} WalkStaysInfected(s: Search, w: seq<int>, k: nat)
    requires s.Valid() && IsAvoidingWalk(w, s) && k < |w|
    ensures s.Infected(w[k], k)
  {
    if k > 0 {
      WalkStaysInfected(s, w, k - 1);
      var last := k - 1;
      if w[k] != w[last] {
        GossipInfects(s, w[last], last);
      }
      assert IsStep(w[last], w[last + 1], s.start + last, s.n);
    }
  }

  /** The infected set is exactly what wait-or-gossip walks reach without entering excluded nodes or the target. */
  lemma {:induction false} InfectedIsReachable(s: Search, node: int, k: nat)
    requires s.Valid()
    ensures s.Infected(node, k) <==> ReachableBy(s, node, k)
  {
    if s.Infected(node, k) {
      var w := WalkTo(s, node, k);
    }
    if ReachableBy(s, node, k) {
      var w :| |w| == k + 1 && IsAvoidingWalk(w, s) && w[k] == node;
      WalkStaysInfected(s, w, k);
    }
  }

  /** A walk to the target whose last step is the only one that enters it, late enough. */
  ghost predicate CanArrive(s: Search, k: nat)
    requires s.Valid()
  {
    exists w :: && |w| == k + 1 && IsAvoidingWalk(w, s) && k >= MIN_PATH_LENGTH
                && Target(w[k], s.start + k, s.n) == s.target
  }

  lemma ArrivesIsCanArrive(s: Search, k: nat)
    requires s.Valid()
    ensures s.Arrives(k) <==> CanArrive(s, k)
  {
    if s.Arrives(k) {
      var from := Predecessor(s.target, s.start + k, s.n);
      GossipInverse(from, s.target, s.start + k, s.n);
      var w := WalkTo(s, from, k);
    }
    if CanArrive(s, k) {
      var w :| |w| == k + 1 && IsAvoidingWalk(w, s) && k >= MIN_PATH_LENGTH
               && Target(w[k], s.start + k, s.n) == s.target;
      WalkStaysInfected(s, w, k);
      GossipInverse(w[k], s.target, s.start + k, s.n);
    }
  }

  /** A search fails exactly when nothing can arrive in its window, and otherwise takes the earliest arrival. */
  lemma {:induction false} FindIsExact(s: Search, from: nat, limit: int)
    requires s.Valid()
    ensures s.FindFrom(from, limit).None? <==> forall k: nat :: from <= k < limit ==> !CanArrive(s, k)
    ensures s.FindFrom(from, limit).Some? ==>
              exists k: nat :: && from <= k < limit && s.Arrives(k) && s.FindFrom(from, limit).value == s.FullPath(k)
                               && forall l: nat :: from <= l < k ==> !CanArrive(s, l)
    decreases limit - from
  {
    ArrivesIsCanArrive(s, from);
    if from < limit && !s.Arrives(from) {
      FindIsExact(s, from + 1, limit);
    }
  }

  // ----- The shape of a path -----

  /** One gossip edge, taken in the round before the next hop's round. */
  predicate IsEdge(a: Hop, b: Hop, n: nat)
    requires n > 0
  {
    0 <= a.node < n && 0 <= a.round < b.round && b.node == Target(a.node, b.round - 1, n)
  }

  ghost predicate IsTemporalPath(h: seq<Hop>, n: nat)
    requires n > 0
  {
    |h| > 0 && forall m :: 1 <= m < |h| ==> IsEdge(h[m - 1], h[m], n)
  }

  /** The hop is the very first infection of its node, within the first k rounds. */
  ghost predicate IsFresh(s: Search, hop: Hop, k: nat)
    requires s.Valid()
  {
    && s.start < hop.round <= s.start + k && s.Enterable(hop.node)
    && s.Infected(hop.node, hop.round - s.start) && !s.Infected(hop.node, hop.round - 1 - s.start)
  }

  /** A temporal path that reaches each node in the first round the infection does. */
  ghost predicate IsRoute(s: Search, h: seq<Hop>, k: nat)
    requires s.Valid()
  {
    && IsTemporalPath(h, s.n) && h[0] == Hop(s.source, s.start)
    && (forall m :: 1 <= m < |h| ==> IsFresh(s, h[m], k))
  }

  lemma RouteStaysRoute(s: Search, h: seq<Hop>, k: nat)
    requires s.Valid() && IsRoute(s, h, k)
    ensures IsRoute(s, h, k + 1)
  {
    forall m | 1 <= m < |h| ensures IsFresh(s, h[m], k + 1) {
      assert IsFresh(s, h[m], k);
    }
  }

  lemma RouteRounds(s: Search, h: seq<Hop>, k: nat, m: nat)
    requires s.Valid() && IsRoute(s, h, k) && m < |h|
    ensures s.start <= h[m].round <= s.start + k && s.Infected(h[m].node, h[m].round - s.start)
  {
    assert m > 0 ==> IsFresh(s, h[m], k);
  }

  lemma ExtendRoute(s: Search, h: seq<Hop>, hop: Hop, k: nat)
    requires s.Valid() && k > 0 && IsRoute(s, h, k - 1) && IsFresh(s, hop, k) && hop.round == s.start + k
    requires 0 <= h[|h| - 1].node < s.n && hop.node == Target(h[|h| - 1].node, hop.round - 1, s.n)
    ensures IsRoute(s, h + [hop], k)
  {
    RouteStaysRoute(s, h, k - 1);
    var r := h + [hop];
    RouteRounds(s, h, k - 1, |h| - 1);
    forall m | 1 <= m < |r| ensures IsEdge(r[m - 1], r[m], s.n) && IsFresh(s, r[m], k) {
      if m < |h| {
        assert IsEdge(h[m - 1], h[m], s.n) && IsFresh(s, h[m], k);
      }
    }
  }

  lemma {:induction false} RouteIsRoute(s: Search, node: int, k: nat)
    requires s.Valid() && s.Infected(node, k)
    ensures var h := s.Route(node, k); IsRoute(s, h, k) && h[|h| - 1].node == node
    decreases k
  {
    if k > 0 {
      if s.Infected(node, k - 1) {
        RouteIsRoute(s, node, k - 1);
        RouteStaysRoute(s, s.Route(node, k - 1), k - 1);
      } else {
        var from := InfectedByPredecessor(s, node, k);
        RouteIsRoute(s, from, k - 1);
        var hop := Hop(node, s.start + k);
        ExtendRoute(s, s.Route(from, k - 1), hop, k);
        assert s.Route(node, k) == s.Route(from, k - 1) + [hop];
      }
    }
  }

  /** Appending an edge to another node than any before keeps a path simple. */
  lemma AppendTarget(s: Search, r: seq<Hop>, k: nat)
    requires s.Valid() && s.source != s.target && IsRoute(s, r, k)
    requires 0 <= r[|r| - 1].node < s.n && s.target == Target(r[|r| - 1].node, s.start + k, s.n)
    requires r[|r| - 1].round <= s.start + k
    ensures IsTemporalPath(r + [Hop(s.target, s.start + k + 1)], s.n)
    ensures forall a :: 0 <= a < |r| ==> r[a].node != s.target
    ensures forall m :: 1 <= m < |r| ==> s.Enterable(r[m].node)
  {
    var h := r + [Hop(s.target, s.start + k + 1)];
    RouteRounds(s, r, k, |r| - 1);
    forall m | 1 <= m < |h| ensures IsEdge(h[m - 1], h[m], s.n) {
      assert m < |r| ==> IsEdge(r[m - 1], r[m], s.n);
    }
    forall m | 1 <= m < |r| ensures s.Enterable(r[m].node) {
      assert IsFresh(s, r[m], k);
    }
  }

  lemma {:induction false} RoundsIncrease(h: seq<Hop>, a: nat, b: nat, n: nat)
    requires n > 0 && IsTemporalPath(h, n) && a < b < |h|
    ensures h[a].round < h[b].round
    decreases b
  {
    assert IsEdge(h[b - 1], h[b], n);
    if a < b - 1 {
      RoundsIncrease(h, a, b - 1, n);
    }
  }

  lemma FreshIsNotEarlier(s: Search, hop: Hop, k: nat, r: nat)
    requires s.Valid() && IsFresh(s, hop, k) && r < hop.round - s.start
    ensures !s.Infected(hop.node, r)
  {
    if s.Infected(hop.node, r) {
      InfectedGrows(s, hop.node, r, hop.round - 1 - s.start);
    }
  }

  /** No node occurs twice on a route. */
  lemma RouteIsSimple(s: Search, h: seq<Hop>, k: nat, a: nat, b: nat)
    requires s.Valid() && IsRoute(s, h, k) && a < b < |h|
    ensures h[a].node != h[b].node
  {
    RoundsIncrease(h, a, b, s.n);
    RouteRounds(s, h, k, a);
    FreshIsNotEarlier(s, h[b], k, h[a].round - s.start);
  }

  /** Whoever an infected node gossips to in a later round is infected after that round. */
  lemma GossipedIsInfected(s: Search, hop: Hop, t: nat)
    requires s.Valid() && s.start <= hop.round <= t && s.Infected(hop.node, hop.round - s.start)
    requires s.Enterable(Target(hop.node, t, s.n))
    ensures s.Infected(Target(hop.node, t, s.n), t + 1 - s.start)
  {
    InfectedGrows(s, hop.node, hop.round - s.start, t - s.start);
    GossipInfects(s, hop.node, t - s.start);
  }

  /** Between two hops of a route the earlier node never gossips to the later one. */
  lemma RouteTakesFirstOpportunity(s: Search, h: seq<Hop>, k: nat, m: nat, t: nat)
    requires s.Valid() && IsRoute(s, h, k) && 1 <= m < |h|
    requires h[m - 1].round <= t < h[m].round - 1
    ensures Target(h[m - 1].node, t, s.n) != h[m].node
  {
    RouteRounds(s, h, k, m - 1);
    assert IsFresh(s, h[m], k);
    if Target(h[m - 1].node, t, s.n) == h[m].node {
      GossipedIsInfected(s, h[m - 1], t);
      FreshIsNotEarlier(s, h[m], k, t + 1 - s.start);
    }
  }

  /** The properties every path found by a search from source to a different target has. */
  ghost predicate IsGoodPath(s: Search, h: seq<Hop>, limit: int)
    requires s.Valid()
  {
    && IsTemporalPath(h, s.n) && |h| >= 2
    && h[0] == Hop(s.source, s.start)
    && h[|h| - 1].node == s.target
    && s.start + MIN_PATH_LENGTH < h[|h| - 1].round <= s.start + limit
    && (forall a, b :: 0 <= a < b < |h| ==> h[a].node != h[b].node)
    && (forall m :: 1 <= m < |h| - 1 ==> s.Enterable(h[m].node))
  }

  /** A route whose last node gossips to the target, and then the target, late enough. */
  lemma RouteToTargetIsGood(s: Search, r: seq<Hop>, k: nat)
    requires s.Valid() && s.source != s.target && IsRoute(s, r, k) && k >= MIN_PATH_LENGTH
    requires 0 <= r[|r| - 1].node < s.n && s.target == Target(r[|r| - 1].node, s.start + k, s.n)
    ensures IsGoodPath(s, r + [Hop(s.target, s.start + k + 1)], k + 1)
  {
    RouteRounds(s, r, k, |r| - 1);
    AppendTarget(s, r, k);
    var h := r + [Hop(s.target, s.start + k + 1)];
    forall a, b | 0 <= a < b < |h| ensures h[a].node != h[b].node {
      if b < |r| {
        RouteIsSimple(s, r, k, a, b);
      }
    }
  }

  lemma FullPathIsGood(s: Search, k: nat)
    requires s.Valid() && s.source != s.target && s.Arrives(k)
    ensures IsGoodPath(s, s.FullPath(k), k + 1)
    ensures IsRoute(s, s.FullPath(k)[..|s.FullPath(k)| - 1], k)
    ensures s.FullPath(k)[|s.FullPath(k)| - 1].round == s.start + k + 1
  {
    var from := Predecessor(s.target, s.start + k, s.n);
    var r := s.Route(from, k);
    RouteIsRoute(s, from, k);
    GossipInverse(from, s.target, s.start + k, s.n);
    RouteToTargetIsGood(s, r, k);
    assert s.FullPath(k) == r + [Hop(s.target, s.start + k + 1)];
    assert s.FullPath(k)[..|r|] == r;
  }

  lemma FoundPathIsGood(s: Search, limit: int)
    requires s.Valid() && s.source != s.target && s.FindFrom(0, limit).Some?
    ensures IsGoodPath(s, s.FindFrom(0, limit).value, limit)
  {
    FindIsExact(s, 0, limit);
    var k: nat :| k < limit && s.Arrives(k) && s.FindFrom(0, limit).value == s.FullPath(k);
    FullPathIsGood(s, k);
  }

  // ----- Several paths that share no node -----

  datatype Outcome<+T> = Found(value: T) | InvalidNode | NoPath

  /** The nodes a path occupies besides its two ends. */
  function Interior(h: seq<Hop>, source: int, target: int): set<int>
  {
    set m | 0 <= m < |h| && h[m].node != source && h[m].node != target :: h[m].node
  }

  /** Successive searches; every interior node found is closed to the later ones. */
  function FindEach(source: int, targets: seq<int>, n: nat, start: nat, limit: int, used: set<int>)
    : Outcome<seq<seq<Hop>>>
    requires n >= 2 && 0 <= source < n
  {
    if targets == [] then Found([])
    else if targets[0] >= n then InvalidNode
    else
      match Search(source, targets[0], n, start, used).FindFrom(0, limit)
      case None => NoPath
      case Some(h) =>
        match FindEach(source, targets[1..], n, start, limit, used + Interior(h, source, targets[0]))
        case Found(rest) => Found([h] + rest)
        case InvalidNode => InvalidNode
        case NoPath => NoPath
  }

  function RoundsLimit(targets: seq<int>, n: nat): nat
    requires n >= 1
  {
    CeilLog2(n) * |targets| + MIN_PATH_LENGTH
  }

  function FindPathsSpec(source: int, targets: seq<int>, n: nat, start: nat): Outcome<seq<seq<Hop>>>
    requires n >= 2 && 0 <= source < n
  {
    FindEach(source, targets, n, start, RoundsLimit(targets, n), set t | t in targets)
  }

  /** Every path is good for its own target, enters no used node, and shares no interior node with another. */
  ghost predicate Disjoint(paths: seq<seq<Hop>>, source: int, targets: seq<int>)
    requires |paths| == |targets|
  {
    forall a, b :: 0 <= a < b < |paths| ==>
      Interior(paths[a], source, targets[a]) !! Interior(paths[b], source, targets[b])
  }

  lemma InteriorIsEnterable(s: Search, h: seq<Hop>, limit: int)
    requires s.Valid() && IsGoodPath(s, h, limit)
    ensures Interior(h, s.source, s.target) !! s.exclude
  {
    forall x | x in Interior(h, s.source, s.target) ensures x !in s.exclude {
      var m :| 0 <= m < |h| && h[m].node == x;
      assert 1 <= m < |h| - 1;
    }
  }

  lemma GoodPathUnderFewerExclusions(source: int, target: int, n: nat, start: nat,
                                     used: set<int>, more: set<int>, h: seq<Hop>, limit: int)
    requires n >= 2 && 0 <= source < n && used <= more
    requires IsGoodPath(Search(source, target, n, start, more), h, limit)
    ensures IsGoodPath(Search(source, target, n, start, used), h, limit)
  {
    var s, s' := Search(source, target, n, start, used), Search(source, target, n, start, more);
    assert forall m :: 1 <= m < |h| - 1 ==> s'.Enterable(h[m].node) && s.Enterable(h[m].node);
  }

  lemma {:induction false} EachPathIsGood(source: int, targets: seq<int>, n: nat, start: nat, limit: int,
                                          used: set<int>)
    requires n >= 2 && 0 <= source < n && source !in targets
    requires FindEach(source, targets, n, start, limit, used).Found?
    ensures var paths := FindEach(source, targets, n, start, limit, used).value;
            && |paths| == |targets|
            && (forall a :: 0 <= a < |paths| ==>
                 && IsGoodPath(Search(source, targets[a], n, start, used), paths[a], limit)
                 && Interior(paths[a], source, targets[a]) !! used)
            && Disjoint(paths, source, targets)
    decreases |targets|
  {
    if targets != [] {
      var s := Search(source, targets[0], n, start, used);
      FoundPathIsGood(s, limit);
      var h := s.FindFrom(0, limit).value;
      InteriorIsEnterable(s, h, limit);
      var used' := used + Interior(h, source, targets[0]);
      EachPathIsGood(source, targets[1..], n, start, limit, used');
      var paths := FindEach(source, targets, n, start, limit, used).value;
      var rest := FindEach(source, targets[1..], n, start, limit, used').value;
      forall a | 0 <= a < |paths|
        ensures IsGoodPath(Search(source, targets[a], n, start, used), paths[a], limit)
        ensures Interior(paths[a], source, targets[a]) !! used
        ensures a > 0 ==> Interior(paths[a], source, targets[a]) !! Interior(h, source, targets[0])
      {
        if a > 0 {
          GoodPathUnderFewerExclusions(source, targets[a], n, start, used, used', rest[a - 1], limit);
        }
      }
      assert forall a, b :: 0 < a < b < |paths| ==>
        Interior(paths[a], source, targets[a]) !! Interior(paths[b], source, targets[b]) by {
        forall a, b | 0 < a < b < |paths|
          ensures Interior(paths[a], source, targets[a]) !! Interior(paths[b], source, targets[b]) {
          assert paths[a] == rest[a - 1] && paths[b] == rest[b - 1];
        }
      }
    }
  }

  /** What find_paths promises when it returns: simple temporal paths to their own targets,
      through no other target, no two sharing an intermediate node. */
  lemma FoundPathsAreDisjoint(source: int, targets: seq<int>, n: nat, start: nat)
    requires n >= 2 && 0 <= source < n && source !in targets
    requires FindPathsSpec(source, targets, n, start).Found?
    ensures var paths := FindPathsSpec(source, targets, n, start).value;
            && |paths| == |targets|
            && (forall a :: 0 <= a < |paths| ==>
                 var s := Search(source, targets[a], n, start, set t | t in targets);
                 IsGoodPath(s, paths[a], RoundsLimit(targets, n)))
            && Disjoint(paths, source, targets)
  {
    EachPathIsGood(source, targets, n, start, RoundsLimit(targets, n), set t | t in targets);
  }

  // ----- The window of the search, in rounds -----

  /** A walk of k rounds that enters no excluded node ends at a node that gossips to the target in round start + k. */
  ghost predicate ReachesIn(s: Search, k: nat)
    requires s.Valid()
  {
    && 0 <= s.target < s.n
    && exists w :: |w| == k + 1 && IsAvoidingWalk(w, s) && Target(w[k], s.start + k, s.n) == s.target
  }

  /** Arrivals count from the fourth round of the search on. */
  lemma ArrivesFromThree(s: Search, k: nat)
    requires s.Valid()
    ensures CanArrive(s, k) <==> k >= 3 && ReachesIn(s, k)
  {
  }

  ghost predicate IsArrivalAt(s: Search, limit: int, h: seq<Hop>, k: nat)
    requires s.Valid()
  {
    3 <= k < limit && s.Arrives(k) && h == s.FullPath(k) && forall l: nat :: 3 <= l < k ==> !ReachesIn(s, l)
  }

  /** The path of the first arrival between the rounds start + 3 and start + limit - 1. */
  ghost predicate IsFirstArrival(s: Search, limit: int, h: seq<Hop>)
    requires s.Valid()
  {
    exists k: nat :: IsArrivalAt(s, limit, h, k)
  }

  ghost predicate NeverReaches(s: Search, limit: int)
    requires s.Valid()
  {
    forall k: nat :: 3 <= k < limit ==> !ReachesIn(s, k)
  }

  lemma FindFirstArrival(s: Search, limit: int)
    requires s.Valid()
    ensures s.FindFrom(0, limit).None? <==> NeverReaches(s, limit)
    ensures s.FindFrom(0, limit).Some? ==> IsFirstArrival(s, limit, s.FindFrom(0, limit).value)
  {
    FindIsExact(s, 0, limit);
    forall k: nat ensures CanArrive(s, k) <==> k >= 3 && ReachesIn(s, k) {
      ArrivesFromThree(s, k);
    }
    if s.FindFrom(0, limit).Some? {
      var k: nat :| k < limit && s.Arrives(k) && s.FindFrom(0, limit).value == s.FullPath(k)
                    && forall l: nat :: l < k ==> !CanArrive(s, l);
      ArrivesIsCanArrive(s, k);
      assert IsArrivalAt(s, limit, s.FindFrom(0, limit).value, k);
    }
  }
  lemma FirstArrivalIsFound(s: Search, limit: int, h: seq<Hop>)
    requires s.Valid()
    ensures IsFirstArrival(s, limit, h) <==> s.FindFrom(0, limit) == Some(h)
  {
    FindFirstArrival(s, limit);
    if IsFirstArrival(s, limit, h) {
      var k: nat :| IsArrivalAt(s, limit, h, k);
      ArrivesIsCanArrive(s, k);
      ArrivesFromThree(s, k);
      var found := s.FindFrom(0, limit).value;
      var m: nat :| IsArrivalAt(s, limit, found, m);
      ArrivesIsCanArrive(s, m);
      ArrivesFromThree(s, m);
    }
  }

  /** The nodes closed to the search for target a: those used at first, and the interiors of the paths before. */
  function UsedBefore(paths: seq<seq<Hop>>, source: int, targets: seq<int>, used: set<int>, a: nat): set<int>
    requires a <= |paths| && a <= |targets|
    decreases a
  {
    if a == 0 then used
    else UsedBefore(paths, source, targets, used, a - 1) + Interior(paths[a - 1], source, targets[a - 1])
  }

  ghost predicate FirstArrivalAt(source: int, targets: seq<int>, n: nat, start: nat, limit: int, used: set<int>,
                                 paths: seq<seq<Hop>>, a: nat)
    requires n >= 2 && 0 <= source < n && a < |paths| && a < |targets|
  {
    var s := Search(source, targets[a], n, start, UsedBefore(paths, source, targets, used, a));
    targets[a] < n && IsFirstArrival(s, limit, paths[a])
  }

  /** One path per target, each the first arrival of a walk that enters no target and no interior of a path before. */
  ghost predicate AreFirstArrivals(source: int, targets: seq<int>, n: nat, start: nat, limit: int, used: set<int>,
                                   paths: seq<seq<Hop>>)
    requires n >= 2 && 0 <= source < n
  {
    && |paths| == |targets|
    && forall a: nat :: a < |paths| ==> FirstArrivalAt(source, targets, n, start, limit, used, paths, a)
  }

  lemma {:induction false} UsedAfterFirst(h: seq<Hop>, rest: seq<seq<Hop>>, source: int, target: int,
                                          targets: seq<int>, used: set<int>, a: nat)
    requires a <= |rest| && a <= |targets|
    ensures UsedBefore([h] + rest, source, [target] + targets, used, a + 1) ==
            UsedBefore(rest, source, targets, used + Interior(h, source, target), a)
    decreases a
  {
    if a > 0 {
      UsedAfterFirst(h, rest, source, target, targets, used, a - 1);
    }
  }

  lemma FirstThenOthers(h: seq<Hop>, rest: seq<seq<Hop>>, source: int, target: int, targets: seq<int>, n: nat,
                        start: nat, limit: int, used: set<int>)
    requires n >= 2 && 0 <= source < n
    ensures AreFirstArrivals(source, [target] + targets, n, start, limit, used, [h] + rest)
            <==> target < n && IsFirstArrival(Search(source, target, n, start, used), limit, h)
                 && AreFirstArrivals(source, targets, n, start, limit, used + Interior(h, source, target), rest)
  {
    var used' := used + Interior(h, source, target);
    if |rest| == |targets| {
      forall a: nat | a < |rest|
        ensures FirstArrivalAt(source, [target] + targets, n, start, limit, used, [h] + rest, a + 1)
                <==> FirstArrivalAt(source, targets, n, start, limit, used', rest, a) {
        UsedAfterFirst(h, rest, source, target, targets, used, a);
      }
      assert FirstArrivalAt(source, [target] + targets, n, start, limit, used, [h] + rest, 0)
             <==> target < n && IsFirstArrival(Search(source, target, n, start, used), limit, h);
      if AreFirstArrivals(source, targets, n, start, limit, used', rest)
         && FirstArrivalAt(source, [target] + targets, n, start, limit, used, [h] + rest, 0) {
        forall a: nat | a < |rest| + 1
          ensures FirstArrivalAt(source, [target] + targets, n, start, limit, used, [h] + rest, a) {
          assert a > 0 ==> FirstArrivalAt(source, targets, n, start, limit, used', rest, a - 1);
        }
      }
    }
  }

  /** Which target the searches fail at, and how. */
  ghost predicate FailsAt(source: int, targets: seq<int>, n: nat, start: nat, limit: int, used: set<int>,
                          invalid: bool, paths: seq<seq<Hop>>)
    requires n >= 2 && 0 <= source < n
  {
    var a := |paths|;
    && a < |targets| && AreFirstArrivals(source, targets[..a], n, start, limit, used, paths)
    && if invalid then targets[a] >= n
       else targets[a] < n
            && NeverReaches(Search(source, targets[a], n, start, UsedBefore(paths, source, targets, used, a)), limit)
  }

  lemma FailsLater(h: seq<Hop>, rest: seq<seq<Hop>>, source: int, target: int, targets: seq<int>, n: nat,
                   start: nat, limit: int, used: set<int>, invalid: bool)
    requires n >= 2 && 0 <= source < n && target < n
    requires IsFirstArrival(Search(source, target, n, start, used), limit, h)
    requires FailsAt(source, targets, n, start, limit, used + Interior(h, source, target), invalid, rest)
    ensures FailsAt(source, [target] + targets, n, start, limit, used, invalid, [h] + rest)
  {
    FirstThenOthers(h, rest, source, target, targets[..|rest|], n, start, limit, used);
    assert ([target] + targets)[..|rest| + 1] == [target] + targets[..|rest|];
    UsedAfterFirst(h, rest, source, target, targets, used, |rest|);
  }

  lemma FirstSearchFails(source: int, targets: seq<int>, n: nat, start: nat, limit: int, used: set<int>)
    requires n >= 2 && 0 <= source < n && targets != []
    requires targets[0] >= n || Search(source, targets[0], n, start, used).FindFrom(0, limit).None?
    ensures FailsAt(source, targets, n, start, limit, used, targets[0] >= n, [])
    ensures forall paths :: !AreFirstArrivals(source, targets, n, start, limit, used, paths)
  {
    var s := Search(source, targets[0], n, start, used);
    FindFirstArrival(s, limit);
    forall paths ensures !AreFirstArrivals(source, targets, n, start, limit, used, paths) {
      if |paths| == |targets| {
        FirstArrivalIsFound(s, limit, paths[0]);
        assert !FirstArrivalAt(source, targets, n, start, limit, used, paths, 0);
      }
    }
  }

  lemma FirstOfPaths(source: int, targets: seq<int>, n: nat, start: nat, limit: int, used: set<int>, h: seq<Hop>,
                     paths: seq<seq<Hop>>)
    requires n >= 2 && 0 <= source < n && targets != [] && targets[0] < n
    requires Search(source, targets[0], n, start, used).FindFrom(0, limit) == Some(h)
    ensures AreFirstArrivals(source, targets, n, start, limit, used, paths)
            <==> paths != [] && paths[0] == h
                 && AreFirstArrivals(source, targets[1..], n, start, limit, used + Interior(h, source, targets[0]),
                                     paths[1..])
  {
    if paths != [] {
      assert targets == [targets[0]] + targets[1..] && paths == [paths[0]] + paths[1..];
      FirstThenOthers(paths[0], paths[1..], source, targets[0], targets[1..], n, start, limit, used);
      FirstArrivalIsFound(Search(source, targets[0], n, start, used), limit, paths[0]);
    }
  }

  lemma FirstIsPrepended(source: int, targets: seq<int>, n: nat, start: nat, limit: int, used: set<int>, h: seq<Hop>,
                         paths: seq<seq<Hop>>)
    requires n >= 2 && 0 <= source < n && targets != [] && targets[0] < n
    requires Search(source, targets[0], n, start, used).FindFrom(0, limit) == Some(h)
    ensures FindEach(source, targets, n, start, limit, used) == Found(paths)
            <==> paths != [] && paths[0] == h
                 && FindEach(source, targets[1..], n, start, limit, used + Interior(h, source, targets[0])) ==
                    Found(paths[1..])
  {
    var others := FindEach(source, targets[1..], n, start, limit, used + Interior(h, source, targets[0]));
    if others.Found? {
      assert ([h] + others.value)[1..] == others.value;
      assert paths != [] ==> paths == [paths[0]] + paths[1..];
    }
  }

  lemma OthersFail(source: int, targets: seq<int>, n: nat, start: nat, limit: int, used: set<int>, h: seq<Hop>)
    requires n >= 2 && 0 <= source < n && targets != [] && targets[0] < n
    requires Search(source, targets[0], n, start, used).FindFrom(0, limit) == Some(h)
    requires var r := FindEach(source, targets[1..], n, start, limit, used + Interior(h, source, targets[0]));
             !r.Found? ==> exists rest :: FailsAt(source, targets[1..], n, start, limit,
                                                  used + Interior(h, source, targets[0]), r.InvalidNode?, rest)
    ensures var r := FindEach(source, targets, n, start, limit, used);
            !r.Found? ==> exists paths :: FailsAt(source, targets, n, start, limit, used, r.InvalidNode?, paths)
  {
    var r := FindEach(source, targets[1..], n, start, limit, used + Interior(h, source, targets[0]));
    if !r.Found? {
      var rest :| FailsAt(source, targets[1..], n, start, limit, used + Interior(h, source, targets[0]),
                          r.InvalidNode?, rest);
      FirstArrivalIsFound(Search(source, targets[0], n, start, used), limit, h);
      FailsLater(h, rest, source, targets[0], targets[1..], n, start, limit, used, r.InvalidNode?);
      assert targets == [targets[0]] + targets[1..];
    }
  }

  lemma {:induction false} FindEachIsExact(source: int, targets: seq<int>, n: nat, start: nat, limit: int,
                                           used: set<int>)
    requires n >= 2 && 0 <= source < n
    ensures var r := FindEach(source, targets, n, start, limit, used);
            && (forall paths :: r == Found(paths) <==> AreFirstArrivals(source, targets, n, start, limit, used, paths))
            && (!r.Found? ==> exists paths :: FailsAt(source, targets, n, start, limit, used, r.InvalidNode?, paths))
    decreases |targets|
  {
    var r := FindEach(source, targets, n, start, limit, used);
    if targets == [] {
      forall paths: seq<seq<Hop>> ensures r == Found(paths) <==> |paths| == 0 {
      }
    } else if targets[0] >= n || Search(source, targets[0], n, start, used).FindFrom(0, limit).None? {
      FirstSearchFails(source, targets, n, start, limit, used);
      assert FailsAt(source, targets, n, start, limit, used, r.InvalidNode?, []);
    } else {
      var h := Search(source, targets[0], n, start, used).FindFrom(0, limit).value;
      FindEachIsExact(source, targets[1..], n, start, limit, used + Interior(h, source, targets[0]));
      forall paths
        ensures r == Found(paths) <==> AreFirstArrivals(source, targets, n, start, limit, used, paths) {
        FirstOfPaths(source, targets, n, start, limit, used, h, paths);
        FirstIsPrepended(source, targets, n, start, limit, used, h, paths);
      }
      OthersFail(source, targets, n, start, limit, used, h);
    }
  }

  /** The call returns exactly the first arrivals, between rounds start + 3 and start + L * |targets| + 2, that avoid
      all targets and each other; it throws exactly when there are none, at a target beyond the overlay or at one no
      such walk reaches in that window. */
  lemma FindPathsIsExact(source: int, targets: seq<int>, n: nat, start: nat)
    requires n >= 2 && 0 <= source < n
    ensures var r, limit, closed := FindPathsSpec(source, targets, n, start), CeilLog2(n) * |targets| + 3,
                                    (set t | t in targets);
            && (forall paths :: r == Found(paths)
                                <==> AreFirstArrivals(source, targets, n, start, limit, closed, paths))
            && (!r.Found? ==> exists paths :: FailsAt(source, targets, n, start, limit, closed, r.InvalidNode?, paths))
  {
    FindEachIsExact(source, targets, n, start, CeilLog2(n) * |targets| + 3, set t | t in targets);
  }

  /** No path gossips to its target before round start + 3, or after the window. */
  lemma PathsEndInWindow(source: int, targets: seq<int>, n: nat, start: nat, a: nat)
    requires n >= 2 && 0 <= source < n && FindPathsSpec(source, targets, n, start).Found? && a < |targets|
    ensures var paths := FindPathsSpec(source, targets, n, start).value;
            && |paths| == |targets| && paths[a] != []
            && start + 3 <= paths[a][|paths[a]| - 1].round - 1 < start + CeilLog2(n) * |targets| + 3
  {
    FindPathsIsExact(source, targets, n, start);
    var paths := FindPathsSpec(source, targets, n, start).value;
    assert FirstArrivalAt(source, targets, n, start, CeilLog2(n) * |targets| + 3, (set t | t in targets), paths, a);
  }

  lemma {:induction false} SourceIsItsRoute(s: Search, k: nat)
    requires s.Valid()
    ensures s.Route(s.source, k) == [Hop(s.source, s.start)]
    decreases k
  {
    if k > 0 {
      SourceIsItsRoute(s, k - 1);
    }
  }

  lemma DirectPath(s: Search, k: nat)
    requires s.Valid() && 0 <= s.target < s.n && Target(s.source, s.start + k, s.n) == s.target && k >= MIN_PATH_LENGTH
    ensures s.Arrives(k) && s.FullPath(k) == [Hop(s.source, s.start), Hop(s.target, s.start + k + 1)]
  {
    GossipInverse(s.source, s.target, s.start + k, s.n);
    SourceIsItsRoute(s, k);
  }

  lemma EarliestIsFirst(s: Search, limit: int)
    requires s.Valid() && s.Arrives(3) && limit > 3
    ensures IsFirstArrival(s, limit, s.FullPath(3))
  {
    assert IsArrivalAt(s, limit, s.FullPath(3), 3);
  }

  /** A source that gossips to the target in round start + 3 does so directly then. */
  lemma DirectEdgeIsTaken(s: Search, limit: int)
    requires s.Valid() && 0 <= s.target < s.n && Target(s.source, s.start + 3, s.n) == s.target && limit > 3
    ensures s.FindFrom(0, limit) == Some([Hop(s.source, s.start), Hop(s.target, s.start + 4)])
  {
    DirectPath(s, 3);
    EarliestIsFirst(s, limit);
    FirstArrivalIsFound(s, limit, s.FullPath(3));
  }

  // ----- A single target is always reached over an odd overlay -----

  /** The first time a walk steps onto the target, everything before it avoids the target. */
  lemma {:induction false} FirstEntry(w: seq<int>, s: nat, n: nat, target: int) returns (m: nat)
    requires n > 0 && IsWalk(w, s, n) && w[0] != target && w[|w| - 1] == target
    ensures 1 <= m < |w| && w[m] == target && (forall a :: 0 <= a < m ==> w[a] != target)
    decreases |w|
  {
    var v := w[..|w| - 1];
    if target in v {
      var a :| 0 <= a < |v| && v[a] == target;
      var u := w[..a + 1];
      m := FirstEntry(u, s, n, target);
    } else {
      m := |w| - 1;
    }
  }

  /** Waiting first does not hurt: prepend r rounds at the start node. */
  lemma WaitThenWalk(w: seq<int>, r: nat, s: nat, n: nat) returns (v: seq<int>)
    requires n > 0 && IsWalk(w, s + r, n)
    ensures |v| == |w| + r && IsWalk(v, s, n)
    ensures forall a :: 0 <= a <= r ==> v[a] == w[0]
    ensures forall a :: 0 <= a < |w| ==> v[r + a] == w[a]
    decreases r
  {
    if r == 0 {
      v := w;
    } else {
      var u := [w[0]] + w;
      PrependStep(w[0], w, s + (r - 1), n);
      v := WaitThenWalk(u, r - 1, s, n);
      forall a | 0 <= a <= r ensures v[a] == w[0] {
        assert a == r ==> v[(r - 1) + 1] == u[1];
      }
      forall a | 0 <= a < |w| ensures v[r + a] == w[a] {
        assert v[(r - 1) + (a + 1)] == u[a + 1];
      }
    }
  }

  /** A walk that first steps onto the target after k rounds shows an arrival. */
  lemma PrefixArrives(v: seq<int>, s: Search, k: nat)
    requires s.Valid() && IsWalk(v, s.start, s.n) && v[0] == s.source && s.exclude == {s.target}
    requires MIN_PATH_LENGTH <= k < |v| - 1 && v[k + 1] == s.target
    requires forall a :: 0 <= a <= k ==> v[a] != s.target
    ensures CanArrive(s, k)
  {
    var u := v[..k + 1];
    forall a | 0 <= a < |u| - 1
      ensures IsStep(u[a], u[a + 1], s.start + a, s.n) && (u[a + 1] == u[a] || s.Enterable(u[a + 1])) {
      assert IsStep(v[a], v[a + 1], s.start + a, s.n);
    }
    assert IsAvoidingWalk(u, s);
    assert IsStep(v[k], v[k + 1], s.start + k, s.n);
  }

  lemma SingleTargetArrives(source: int, target: int, n: nat, start: nat) returns (k: nat)
    requires n >= 3 && Mixes(n) && 0 <= source < n && 0 <= target < n && source != target
    ensures k < CeilLog2(n) + MIN_PATH_LENGTH && CanArrive(Search(source, target, n, start, {target}), k)
  {
    var s := Search(source, target, n, start, {target});
    var w := CoveringWalk(source, target, start + MIN_PATH_LENGTH, n);
    var v := WaitThenWalk(w, MIN_PATH_LENGTH, start, n);
    var m := FirstEntry(v, start, n, target);
    k := m - 1;
    assert v[MIN_PATH_LENGTH] == source;
    PrefixArrives(v, s, k);
  }

  lemma OneSearchDecides(source: int, target: int, n: nat, start: nat, limit: int, used: set<int>)
    requires n >= 2 && 0 <= source < n && target < n
    ensures FindEach(source, [target], n, start, limit, used).Found? <==>
            Search(source, target, n, start, used).FindFrom(0, limit).Some?
  {
    var rest: seq<int> := [target][1..];
    assert rest == [];
  }

  /** find_paths with one target never throws over an overlay that mixes. */
  lemma SingleTargetNeverFails(source: int, target: int, n: nat, start: nat)
    requires n >= 3 && Mixes(n) && 0 <= source < n && 0 <= target < n && source != target
    ensures FindPathsSpec(source, [target], n, start).Found?
  {
    var k := SingleTargetArrives(source, target, n, start);
    var used := set t | t in [target];
    assert used == {target};
    var limit := RoundsLimit([target], n);
    FindIsExact(Search(source, target, n, start, used), 0, limit);
    OneSearchDecides(source, target, n, start, limit, used);
  }

  ghost predicate SingleSearchesSucceed(n: nat)
    requires n >= 2
  {
    forall source, target, start: nat :: 0 <= source < n && 0 <= target < n && source != target ==>
      FindPathsSpec(source, [target], n, start).Found?
  }

  lemma {:induction false} PathKeepsParity(h: seq<Hop>, n: nat, m: nat)
    requires n >= 2 && !Mixes(n) && IsTemporalPath(h, n) && h[0].round >= 32 && m < |h|
    ensures h[m].node % 2 == h[0].node % 2
  {
    if m > 0 {
      PathKeepsParity(h, n, m - 1);
      if m > 1 {
        RoundsIncrease(h, 0, m - 1, n);
      }
      assert IsEdge(h[m - 1], h[m], n);
      TargetKeepsParity(h[m - 1].node, h[m].round - 1, n);
    }
  }

  /** Single-target searches all succeed exactly when the overlay size is odd and within the limit. */
  lemma SingleSearchesSucceedExactlyWhenMixing(n: nat)
    requires n >= 2
    ensures SingleSearchesSucceed(n) <==> Mixes(n)
  {
    if Mixes(n) {
      forall source, target, start: nat | 0 <= source < n && 0 <= target < n && source != target
        ensures FindPathsSpec(source, [target], n, start).Found? {
        SingleTargetNeverFails(source, target, n, start);
      }
    } else if SingleSearchesSucceed(n) {
      assert FindPathsSpec(0, [1], n, 32).Found?;
      FoundPathsAreDisjoint(0, [1], n, 32);
      var h := FindPathsSpec(0, [1], n, 32).value[0];
      PathKeepsParity(h, n, |h| - 1);
    }
  }

  // ----- Overlays in which no search fails -----

  /** With 2 primitive every search arrives within n + 2 rounds over a direct edge, whatever is excluded. */
  lemma DirectEdgeArrives(s: Search) returns (k: nat)
    requires s.Valid() && 3 <= s.n <= POWER_LIMIT && TwoIsPrimitive(s.n) && 0 <= s.target < s.n && s.target != s.source
    ensures k < s.n + 2 && s.Arrives(k)
  {
    var from := s.start + MIN_PATH_LENGTH;
    ContactsEveryOtherOnce(s.source, from, s.n);
    assert Contacted(s.source, s.target, from, s.n);
    var t: nat :| from <= t < from + s.n - 1 && Target(s.source, t, s.n) == s.target;
    k := t - s.start;
    GossipInverse(s.source, s.target, t, s.n);
  }

  /** The path is planned to arrive by the given round. */
  predicate EndsBy(h: seq<Hop>, last: int) {
    h != [] && h[|h| - 1].round - 1 <= last
  }

  lemma FindsByThen(s: Search, limit: nat, k: nat)
    requires s.Valid() && s.source != s.target && s.Arrives(k) && k < limit
    ensures s.FindFrom(0, limit).Some? && EndsBy(s.FindFrom(0, limit).value, s.start + k)
  {
    ArrivesIsCanArrive(s, k);
    FindIsExact(s, 0, limit);
    var first: nat :| first < limit && s.Arrives(first) && s.FindFrom(0, limit).value == s.FullPath(first)
                      && forall l: nat :: l < first ==> !CanArrive(s, l);
  }

  ghost predicate OthersOnly(source: int, targets: seq<int>, n: nat) {
    forall a :: 0 <= a < |targets| ==> 0 <= targets[a] < n && targets[a] != source
  }

  lemma {:induction false} EachSearchSucceeds(source: int, targets: seq<int>, n: nat, start: nat, limit: nat,
                                              used: set<int>)
    requires 3 <= n <= POWER_LIMIT && TwoIsPrimitive(n) && 0 <= source < n && OthersOnly(source, targets, n)
    requires limit >= n + 2
    ensures FindEach(source, targets, n, start, limit, used).Found?
    ensures var paths := FindEach(source, targets, n, start, limit, used).value;
            |paths| == |targets| && forall a :: 0 <= a < |paths| ==> EndsBy(paths[a], start + n + 1)
    decreases |targets|
  {
    if targets != [] {
      var s := Search(source, targets[0], n, start, used);
      var k := DirectEdgeArrives(s);
      FindsByThen(s, limit, k);
      var h := s.FindFrom(0, limit).value;
      EachSearchSucceeds(source, targets[1..], n, start, limit, used + Interior(h, source, targets[0]));
    }
  }

  /** With 2 primitive no search for enough targets fails, and all paths are planned within n + 2 rounds. */
  lemma NoSearchFails(source: int, targets: seq<int>, n: nat, start: nat)
    requires 3 <= n <= POWER_LIMIT && TwoIsPrimitive(n) && 0 <= source < n && OthersOnly(source, targets, n)
    requires n - 1 <= CeilLog2(n) * |targets|
    ensures FindPathsSpec(source, targets, n, start).Found?
    ensures var paths := FindPathsSpec(source, targets, n, start).value;
            |paths| == |targets| && forall a :: 0 <= a < |paths| ==> EndsBy(paths[a], start + n + 1)
  {
    EachSearchSucceeds(source, targets, n, start, RoundsLimit(targets, n), set t | t in targets);
  }
}
