/** What the root of each aggregation group reports, in terms of the nodes and contributions of the network. */
module GroupTotals {
  import opened AggregationRun
  import opened Collections
  import opened Contributions
  import opened Groups
  import opened NumberTheory
  import opened TreeAggregation

  // ----- The overlay's groups form a well-formed forest -----

  function OverlayForest(groups: nat, n: nat): Forest
    requires 2 <= groups <= n
  {
    Forest(seq(n, i requires 0 <= i < n => Children(i, groups, n).0),
           seq(n, i requires 0 <= i < n => Children(i, groups, n).1),
           seq(n, i requires 0 <= i < n => Parent(i, groups, n)),
           seq(n, i requires 0 <= i < n => GroupFor(i, groups, n)))
  }

  lemma NodesAreShaped(groups: nat, n: nat, i: nat)
    requires 2 <= groups <= n && i < n
    ensures OverlayForest(groups, n).NodeShaped(i, n)
  {
    TreeShape(i, groups, n);
    var (left, right) := Children(i, groups, n);
    if left != -1 {
      ParentChildInverse(left, i, groups, n);
    }
    if right != -1 {
      ParentChildInverse(right, i, groups, n);
    }
    if Parent(i, groups, n) != -1 {
      ParentChildInverse(i, Parent(i, groups, n), groups, n);
    }
  }

  lemma GroupsHaveOneRoot(groups: nat, n: nat, i: nat, j: nat)
    requires 2 <= groups <= n && i < n && j < n
    ensures OverlayForest(groups, n).OneRoot(i, j, n)
  {
    TreeShape(i, groups, n);
    TreeShape(j, groups, n);
  }

  /** The parent and child arithmetic of the overlay yields a well-formed forest, whatever the sizes. */
  lemma OverlayForestIsWellFormed(groups: nat, n: nat)
    requires 2 <= groups <= n
    ensures OverlayForest(groups, n).WellFormed(n)
  {
    forall i: nat | i < n ensures OverlayForest(groups, n).NodeShaped(i, n) {
      NodesAreShaped(groups, n, i);
    }
    forall i: nat, j: nat | i < n && j < n ensures OverlayForest(groups, n).OneRoot(i, j, n) {
      GroupsHaveOneRoot(groups, n, i, j);
    }
  }

  // ----- What is below a node -----

  /** The tree edges from j up to i are all live. */
  ghost predicate Joined(s: Setting, j: nat, i: nat)
    requires s.forest.WellFormed(s.n) && j < s.n
    decreases j
  {
    assert s.forest.NodeShaped(j, s.n);
    j == i || (s.Live(j) && s.forest.parent[j] != -1 && Joined(s, s.forest.parent[j], i))
  }

  ghost predicate JoinedBelow(s: Setting, j: nat, child: int)
    requires s.forest.WellFormed(s.n) && j < s.n
  {
    child >= 0 && child !in s.failed && Joined(s, j, child)
  }

  lemma {:induction false} JoinedUpwards(s: Setting, j: nat, i: nat)
    requires s.forest.WellFormed(s.n) && j < s.n && Joined(s, j, i)
    ensures i <= j && s.forest.group[i] == s.forest.group[j]
    decreases j
  {
    assert s.forest.NodeShaped(j, s.n);
    if j != i {
      var p := s.forest.parent[j];
      assert s.forest.NodeShaped(p, s.n);
      JoinedUpwards(s, p, i);
    }
  }

  /** A node other than i is joined to i through exactly one of i's live children. */
  lemma {:induction false} JoinedThroughOneChild(s: Setting, j: nat, i: nat)
    requires s.forest.WellFormed(s.n) && j < s.n && i < s.n && j != i
    ensures var left, right := s.forest.left[i], s.forest.right[i];
            && (Joined(s, j, i) <==> JoinedBelow(s, j, left) || JoinedBelow(s, j, right))
            && !(JoinedBelow(s, j, left) && JoinedBelow(s, j, right))
    decreases j
  {
    assert s.forest.NodeShaped(j, s.n) && s.forest.NodeShaped(i, s.n);
    var p := s.forest.parent[j];
    if p == i {
      var other := if j == s.forest.left[i] then s.forest.right[i] else s.forest.left[i];
      if JoinedBelow(s, j, other) {
        JoinedUpwards(s, i, other);
        assert false;
      }
    } else if p != -1 {
      JoinedThroughOneChild(s, p, i);
    }
  }

  /** The contributions accepted by the first k nodes that are joined to i. */
  ghost function Collected(s: Setting, i: nat, k: nat): multiset<Contribution>
    requires s.forest.WellFormed(s.n) && k <= s.n
    decreases k
  {
    if k == 0 then multiset{}
    else Collected(s, i, k - 1) + (if Joined(s, k - 1, i) then multiset(s.accepted(k - 1)) else multiset{})
  }

  ghost function CollectedBelow(s: Setting, child: int, k: nat): multiset<Contribution>
    requires s.forest.WellFormed(s.n) && k <= s.n
  {
    if child >= 0 && child !in s.failed then Collected(s, child, k) else multiset{}
  }

  lemma NothingBelowItself(s: Setting, i: nat)
    requires s.forest.WellFormed(s.n) && i < s.n
    ensures !JoinedBelow(s, i, s.forest.left[i]) && !JoinedBelow(s, i, s.forest.right[i])
  {
    assert s.forest.NodeShaped(i, s.n);
    if JoinedBelow(s, i, s.forest.left[i]) {
      JoinedUpwards(s, i, s.forest.left[i]);
    }
    if JoinedBelow(s, i, s.forest.right[i]) {
      JoinedUpwards(s, i, s.forest.right[i]);
    }
  }

  /** What node k contributes, if it is joined to i, itself or through a child. */
  lemma OneNodeMore(s: Setting, i: nat, k: nat)
    requires s.forest.WellFormed(s.n) && k < s.n && i < s.n
    ensures Joined(s, k, i) <==> k == i || JoinedBelow(s, k, s.forest.left[i]) || JoinedBelow(s, k, s.forest.right[i])
    ensures k == i ==> !JoinedBelow(s, k, s.forest.left[i]) && !JoinedBelow(s, k, s.forest.right[i])
    ensures !(JoinedBelow(s, k, s.forest.left[i]) && JoinedBelow(s, k, s.forest.right[i]))
  {
    if k == i {
      NothingBelowItself(s, i);
    } else {
      JoinedThroughOneChild(s, k, i);
    }
  }

  lemma CollectedBelowStep(s: Setting, child: int, k: nat)
    requires s.forest.WellFormed(s.n) && k < s.n
    ensures CollectedBelow(s, child, k + 1) ==
            CollectedBelow(s, child, k) + if JoinedBelow(s, k, child) then multiset(s.accepted(k)) else multiset{}
  {
  }

  lemma {:induction false} CollectedSplits(s: Setting, i: nat, k: nat)
    requires s.forest.WellFormed(s.n) && k <= s.n && i < s.n
    ensures Collected(s, i, k) ==
            (if i < k then multiset(s.accepted(i)) else multiset{})
            + CollectedBelow(s, s.forest.left[i], k) + CollectedBelow(s, s.forest.right[i], k)
    decreases k
  {
    if k > 0 {
      var last := k - 1;
      CollectedSplits(s, i, last);
      OneNodeMore(s, i, last);
      CollectedBelowStep(s, s.forest.left[i], last);
      CollectedBelowStep(s, s.forest.right[i], last);
    }
  }

  /** A node's report covers exactly the nodes joined to it by live tree edges. */
  lemma {:induction false} BelowIsCollected(s: Setting, i: nat)
    requires s.forest.WellFormed(s.n) && i < s.n
    ensures s.Below(i) == Collected(s, i, s.n)
    decreases s.n - i
  {
    assert s.forest.NodeShaped(i, s.n);
    CollectedSplits(s, i, s.n);
    var left, right := s.forest.left[i], s.forest.right[i];
    if left != -1 {
      BelowIsCollected(s, left);
    }
    if right != -1 {
      BelowIsCollected(s, right);
    }
  }

  // ----- Each contribution is counted once in each group -----

  ghost predicate ProxyPerGroup(c: Contribution, groups: nat, n: nat)
    requires 2 <= groups <= n
  {
    && |c.proxies| == groups
    && (forall g :: 0 <= g < groups ==> 0 <= c.proxies[g] < n && GroupFor(c.proxies[g], groups, n) == g)
  }

  /** Every contribution names one proxy in each group of the overlay. */
  ghost predicate NamesProxies(s: Setting, cs: set<Contribution>, groups: nat)
    requires 2 <= groups <= s.n
  {
    s.Valid() && s.forest == OverlayForest(groups, s.n) && forall c :: c in cs ==> ProxyPerGroup(c, groups, s.n)
  }

  ghost predicate AcceptedNamed(s: Setting, cs: set<Contribution>, j: nat) {
    forall c :: c in s.accepted(j) <==> c in cs && j in c.proxies
  }

  /** The live members of a group accepted exactly what names them; nothing is said of any other group. */
  ghost predicate GroupAccepted(s: Setting, cs: set<Contribution>, groups: nat, group: int)
    requires 2 <= groups <= s.n
  {
    forall j: nat :: j < s.n && s.Live(j) && GroupFor(j, groups, s.n) == group ==> AcceptedNamed(s, cs, j)
  }

  /** And all its members are live. */
  ghost predicate GroupSound(s: Setting, cs: set<Contribution>, groups: nat, group: int)
    requires 2 <= groups <= s.n
  {
    && GroupAccepted(s, cs, groups, group)
    && forall j: nat :: j < s.n && GroupFor(j, groups, s.n) == group ==> s.Live(j)
  }

  /** Node k, if joined to the root, counts a contribution once when it is its proxy in the root's group. */
  lemma CountedByOne(s: Setting, cs: set<Contribution>, groups: nat, root: nat, g: nat, c: Contribution, k: nat)
    requires 2 <= groups <= s.n && NamesProxies(s, cs, groups) && k < s.n
    requires root < s.n && g < groups && GroupFor(root, groups, s.n) == g && c in cs && Joined(s, k, root)
    requires s.Live(root) && GroupAccepted(s, cs, groups, g)
    ensures multiset(s.accepted(k))[c] == if c.proxies[g] == k then 1 else 0
  {
    assert ProxyPerGroup(c, groups, s.n);
    JoinedUpwards(s, k, root);
    assert AcceptedNamed(s, cs, k);
  }

  /** Node j, if joined to the root, counts the contribution only when it is the node p. */
  ghost predicate CountsOnlyAt(s: Setting, root: nat, c: Contribution, p: int, j: nat)
    requires s.forest.WellFormed(s.n)
  {
    j < s.n && Joined(s, j, root) ==> multiset(s.accepted(j))[c] == if j == p then 1 else 0
  }

  lemma {:induction false} CountedUpTo(s: Setting, root: nat, c: Contribution, p: nat, k: nat)
    requires s.forest.WellFormed(s.n) && k <= s.n && p < s.n && forall j: nat :: CountsOnlyAt(s, root, c, p, j)
    ensures Collected(s, root, k)[c] == if p < k && Joined(s, p, root) then 1 else 0
    decreases k
  {
    if k > 0 {
      CountedUpTo(s, root, c, p, k - 1);
      assert CountsOnlyAt(s, root, c, p, k - 1);
    }
  }

  lemma CountedAtItsProxy(s: Setting, cs: set<Contribution>, groups: nat, root: nat, g: nat, c: Contribution)
    requires 2 <= groups <= s.n && NamesProxies(s, cs, groups)
    requires root < s.n && g < groups && GroupFor(root, groups, s.n) == g && c in cs
    requires s.Live(root) && GroupAccepted(s, cs, groups, g)
    ensures ProxyPerGroup(c, groups, s.n)
    ensures Collected(s, root, s.n)[c] == if Joined(s, c.proxies[g], root) then 1 else 0
  {
    assert ProxyPerGroup(c, groups, s.n);
    forall j: nat ensures CountsOnlyAt(s, root, c, c.proxies[g], j) {
      if j < s.n && Joined(s, j, root) {
        CountedByOne(s, cs, groups, root, g, c, j);
      }
    }
    CountedUpTo(s, root, c, c.proxies[g], s.n);
  }

  lemma {:induction false} OnlyContributionsCounted(s: Setting, cs: set<Contribution>, groups: nat, root: nat,
                                                    c: Contribution, k: nat)
    requires 2 <= groups <= s.n && NamesProxies(s, cs, groups) && k <= s.n && c !in cs
    requires root < s.n && s.Live(root) && GroupAccepted(s, cs, groups, GroupFor(root, groups, s.n))
    ensures Collected(s, root, k)[c] == 0
    decreases k
  {
    if k > 0 {
      OnlyContributionsCounted(s, cs, groups, root, c, k - 1);
      if Joined(s, k - 1, root) {
        JoinedUpwards(s, k - 1, root);
        assert AcceptedNamed(s, cs, k - 1);
      }
    }
  }

  /** Whatever has failed and whatever other groups accepted, a live node's report counts a contribution once or not at
      all: once exactly when live tree edges join its proxy in that group to the reporting node. */
  lemma CountedOnceOrNotAtAll(s: Setting, cs: set<Contribution>, groups: nat, root: nat, c: Contribution)
    requires 2 <= groups <= s.n && NamesProxies(s, cs, groups) && root < s.n && s.Live(root) && c in cs
    requires GroupAccepted(s, cs, groups, GroupFor(root, groups, s.n))
    ensures 0 <= GroupFor(root, groups, s.n) < groups && ProxyPerGroup(c, groups, s.n)
    ensures s.Below(root)[c] == if Joined(s, c.proxies[GroupFor(root, groups, s.n)], root) then 1 else 0
  {
    GroupForIsInterval(root, 0, groups, s.n);
    BelowIsCollected(s, root);
    CountedAtItsProxy(s, cs, groups, root, GroupFor(root, groups, s.n), c);
  }

  ghost predicate AllLive(s: Setting, group: int) {
    forall j: nat :: j < s.n <= |s.forest.group| && s.forest.group[j] == group ==> s.Live(j)
  }

  lemma {:induction false} AllJoinedToRoot(s: Setting, j: nat, root: nat)
    requires s.forest.WellFormed(s.n) && j < s.n && root < s.n && AllLive(s, s.forest.group[root])
    requires s.forest.parent[root] == -1 && s.forest.group[j] == s.forest.group[root]
    ensures Joined(s, j, root)
    decreases j
  {
    assert s.forest.NodeShaped(j, s.n);
    var p := s.forest.parent[j];
    if p == -1 {
      assert s.forest.OneRoot(j, root, s.n);
    } else {
      assert s.forest.NodeShaped(p, s.n);
      AllJoinedToRoot(s, p, root);
    }
  }

  lemma SoundIsJoined(s: Setting, cs: set<Contribution>, groups: nat, root: nat, c: Contribution)
    requires 2 <= groups <= s.n && NamesProxies(s, cs, groups) && root < s.n && c in cs
    requires Parent(root, groups, s.n) == -1 && GroupSound(s, cs, groups, GroupFor(root, groups, s.n))
    ensures ProxyPerGroup(c, groups, s.n) && 0 <= GroupFor(root, groups, s.n) < groups
    ensures Joined(s, c.proxies[GroupFor(root, groups, s.n)], root)
  {
    GroupForIsInterval(root, 0, groups, s.n);
    AllJoinedToRoot(s, c.proxies[GroupFor(root, groups, s.n)], root);
  }

  /** The root of a sound group reports all contributions, each counted once, whatever happens in other groups. */
  lemma SoundRootReportsAll(s: Setting, cs: set<Contribution>, groups: nat, root: nat)
    requires 2 <= groups <= s.n && NamesProxies(s, cs, groups) && root < s.n && Parent(root, groups, s.n) == -1
    requires GroupSound(s, cs, groups, GroupFor(root, groups, s.n))
    ensures s.Below(root) == multiset(cs)
    ensures s.Report(root) == AggregationMessage(root, s.a.Total(multiset(cs)), |cs|)
  {
    forall c ensures s.Below(root)[c] == multiset(cs)[c] {
      if c in cs {
        CountedOnceOrNotAtAll(s, cs, groups, root, c);
        SoundIsJoined(s, cs, groups, root, c);
      } else {
        BelowIsCollected(s, root);
        OnlyContributionsCounted(s, cs, groups, root, c, s.n);
      }
    }
    assert s.Below(root) == multiset(cs);
  }

  /** Every run that has come to rest ends with the root of every sound group having sent the utility that total, and
      nothing else. */
  lemma SoundRootSendsAll(s: Setting, cs: set<Contribution>, groups: nat, run: seq<System>, group: nat)
    requires 2 <= groups <= s.n && NamesProxies(s, cs, groups) && group < groups && GroupSound(s, cs, groups, group)
    requires IsRun(s, run) && !Enabled(s, run[|run| - 1])
    ensures var root := First(group, groups, s.n);
            && 0 <= root < s.n
            && run[|run| - 1].nodes[root].sent ==
               [(-1, AggregationMessage(root, s.a.Total(multiset(cs)), |cs|))]
  {
    var root := First(group, groups, s.n);
    FirstInRange(group, groups, s.n);
    GroupForIsInterval(root, group, groups, s.n);
    TreeShape(root, groups, s.n);
    assert Parent(root, groups, s.n) == -1;
    SoundRootReportsAll(s, cs, groups, root);
    StoppedRunsAreComplete(s, run, root);
  }

  // ----- How many groups are sound -----

  /** The groups with a bad member. */
  function Touched(bad: set<int>, groups: nat, n: nat): set<int>
    requires 2 <= groups <= n
  {
    set j | j in bad && 0 <= j < n :: GroupFor(j, groups, n)
  }

  lemma {:induction false} TouchedAreFew(bad: set<int>, groups: nat, n: nat)
    requires 2 <= groups <= n
    ensures |Touched(bad, groups, n)| <= |bad|
    decreases |bad|
  {
    if bad == {} {
      assert Touched(bad, groups, n) == {};
    } else {
      var j := SomeElement(bad);
      var rest := bad - {j};
      TouchedAreFew(rest, groups, n);
      if 0 <= j < n {
        assert Touched(bad, groups, n) == Touched(rest, groups, n) + {GroupFor(j, groups, n)};
      } else {
        assert Touched(bad, groups, n) == Touched(rest, groups, n);
      }
    }
  }

  function Untouched(bad: set<int>, groups: nat, n: nat): set<int>
    requires 2 <= groups <= n
  {
    Range(0, groups) - Touched(bad, groups, n)
  }

  lemma MostAreLeft(touched: set<int>, f: nat)
    requires |touched| <= f
    ensures |Range(0, 2 * f + 1) - touched| >= f + 1
  {
    RangeSize(0, 2 * f + 1);
    DifferenceSize(Range(0, 2 * f + 1), touched);
  }

  /** At most f bad nodes leave at least f + 1 of 2f + 1 groups without one. */
  lemma MostGroupsAreUntouched(bad: set<int>, f: nat, n: nat)
    requires 1 <= f && 2 * f + 1 <= n && |bad| <= f
    ensures |Untouched(bad, 2 * f + 1, n)| >= f + 1
  {
    TouchedAreFew(bad, 2 * f + 1, n);
    MostAreLeft(Touched(bad, 2 * f + 1, n), f);
  }

  /** A group without a bad member is sound, if all others are live and accepted what names them. */
  lemma UntouchedIsSound(s: Setting, cs: set<Contribution>, groups: nat, bad: set<int>, group: int)
    requires 2 <= groups <= s.n && s.failed <= bad && group in Untouched(bad, groups, s.n)
    requires forall j: nat :: j < s.n && j !in bad ==> AcceptedNamed(s, cs, j)
    ensures 0 <= group < groups && GroupSound(s, cs, groups, group)
  {
    forall j: nat | j < s.n && GroupFor(j, groups, s.n) == group ensures j !in bad {
    }
  }
}
