/** Whether the server's timers cover the overlay rounds, the aggregation trees and the last hop to the server. */
module TimeBudget {
  import opened Groups
  import opened NumberTheory
  import opened ProtocolSpec

  /** The least k with 2^k groups >= n: the source's ceil(log2(n / groups)) for n >= groups. */
  function TreeRounds(n: nat, groups: nat, from: nat): (k: nat)
    requires groups >= 1 && (from == 0 || Pow(2, from - 1) * groups < n)
    ensures Pow(2, k) * groups >= n && (k == 0 || Pow(2, k - 1) * groups < n)
    decreases n - Pow(2, from)
  {
    if Pow(2, from) * groups >= n then from else
    PowPositive(2, from);
    MulMonotone(1, groups, Pow(2, from));
    TreeRounds(n, groups, from + 1)
  }

  function NumGroups(n: nat): nat
    requires n >= 2
  {
    2 * CeilLog2(n) + 1
  }

  /** How long the server waits for a first result, in network round trips; f is the number of failures it was
      set up to tolerate. */
  function RoundsForQuery(n: nat, f: nat): int
    requires n >= 2
  {
    var l := CeilLog2(n);
    6 * f + 3 * Square(l) + 3 + TreeRounds(n, 2 * f + 1, 0)
  }

  /** How long it waits for each further result. */
  function RoundsForNextResult(n: nat): nat
    requires n >= 2
  {
    TreeRounds(n, NumGroups(n), 0)
  }

  /** The rounds 0 to 3S of the overlay. */
  function OverlayRounds(n: nat): nat
    requires n >= 2
  {
    var l := CeilLog2(n);
    3 * (2 * l + Square(l) + 1) + 1
  }

  /** A node that has finished its overlay part has sent in that many rounds, whatever happened on the way. */
  lemma OverlayTakesItsRounds(cfg: Config, me: int, events: seq<Event>)
    requires cfg.Valid() && RunOf(cfg, me, events).core.phase == Aggregate
    ensures |RunOf(cfg, me, events).sent| == OverlayRounds(cfg.n)
  {
    RunTakesEveryRoundOnce(cfg, me, events);
  }

  // ----- The height of a tree -----

  function Size(group: nat, n: nat): int
    requires n >= 2 && NumGroups(n) <= n && group < NumGroups(n)
  {
    First(group + 1, NumGroups(n), n) - First(group, NumGroups(n), n)
  }

  /** The depth of the last node of a group. */
  function Height(group: nat, n: nat): nat
    requires n >= 2 && NumGroups(n) <= n && group < NumGroups(n)
  {
    FirstInRange(group, NumGroups(n), n);
    Depth(First(group + 1, NumGroups(n), n) - 1, NumGroups(n), n)
  }

  /** A node's depth is the integer part of log2 of its position in the group. */
  lemma {:induction false} DepthIsLog(node: nat, groups: nat, n: nat)
    requires 2 <= groups <= n && node < n
    ensures var position := node - FirstOf(node, groups, n) + 1;
            Pow(2, Depth(node, groups, n)) <= position < Pow(2, Depth(node, groups, n) + 1)
    decreases node
  {
    TreeShape(node, groups, n);
    var parent := Parent(node, groups, n);
    if parent < 0 {
      assert Pow(2, 1) == 2 * Pow(2, 0);
    } else {
      SameGroup(parent, node, groups, n);
      DepthIsLog(parent, groups, n);
    }
  }

  /** Exponents compare as their powers do. */
  lemma ExponentBelow(x: nat, y: nat)
    requires Pow(2, x) < Pow(2, y)
    ensures x < y
  {
    if y <= x {
      PowGrows(y, x);
    }
  }

  lemma DepthInGroup(node: nat, group: nat, groups: nat, n: nat)
    requires 2 <= groups <= n && group < groups && First(group, groups, n) <= node < First(group + 1, groups, n) <= n
    ensures var position := node - First(group, groups, n) + 1;
            Pow(2, Depth(node, groups, n)) <= position < Pow(2, Depth(node, groups, n) + 1)
  {
    GroupForIsInterval(node, group, groups, n);
    DepthIsLog(node, groups, n);
  }

  /** The height of a tree is the integer part of log2 of its size. */
  lemma HeightIsLog(group: nat, n: nat)
    requires n >= 2 && NumGroups(n) <= n && group < NumGroups(n)
    ensures Pow(2, Height(group, n)) <= Size(group, n) < Pow(2, Height(group, n) + 1)
  {
    FirstInRange(group, NumGroups(n), n);
    DepthInGroup(First(group + 1, NumGroups(n), n) - 1, group, NumGroups(n), n);
  }

  /** No node of a group is deeper than its last one. */
  lemma LastIsDeepest(node: nat, group: nat, n: nat)
    requires n >= 2 && NumGroups(n) <= n && group < NumGroups(n)
    requires node < n && GroupFor(node, NumGroups(n), n) == group
    ensures Depth(node, NumGroups(n), n) <= Height(group, n)
  {
    HeightIsLog(group, n);
    FirstInRange(group, NumGroups(n), n);
    GroupForIsInterval(node, group, NumGroups(n), n);
    DepthInGroup(node, group, NumGroups(n), n);
    ExponentBelow(Depth(node, NumGroups(n), n), Height(group, n) + 1);
  }

  // ----- The first timer -----

  /** When a group's result is with the server, each overlay round, tree step and hop taking one round trip:
      after all overlay rounds, one step for each level of the tree, and the hop from the root to the server. */
  function ResultTime(group: nat, n: nat): nat
    requires n >= 2 && NumGroups(n) <= n && group < NumGroups(n)
  {
    OverlayRounds(n) + Height(group, n) + 1
  }

  /** The allowance counts one overlay round too few, and no hop to the server. */
  lemma AllowanceIsShort(group: nat, n: nat)
    requires n >= 2 && NumGroups(n) <= n && group < NumGroups(n)
    ensures ResultTime(group, n) + RoundsForNextResult(n) == RoundsForQuery(n, CeilLog2(n)) + Height(group, n) + 2
  {
  }

  lemma LogBelow(size: nat, h: nat, k: nat)
    requires Pow(2, h) <= size < Pow(2, h + 1)
    ensures h + 2 <= k <==> k >= 1 && size < Pow(2, k - 1)
  {
    if k >= 1 {
      if size < Pow(2, k - 1) {
        ExponentBelow(h, k - 1);
      } else {
        ExponentBelow(k - 1, h + 1);
      }
    }
  }

  /** The first timer covers a group's result exactly when the group has fewer than 2^(k - 1) members, k being the
      tree term of the allowance. */
  lemma InTimeExactlyWhenSmall(group: nat, n: nat)
    requires n >= 2 && NumGroups(n) <= n && group < NumGroups(n)
    ensures var k := RoundsForNextResult(n);
            ResultTime(group, n) <= RoundsForQuery(n, CeilLog2(n)) <==> k >= 1 && Size(group, n) < Pow(2, k - 1)
  {
    var k, h := RoundsForNextResult(n), Height(group, n);
    AllowanceIsShort(group, n);
    HeightIsLog(group, n);
    LogBelow(Size(group, n), h, k);
  }

  /** The standard size lies between 2^(k - 1) and 2^k, and is 2^k only if all groups have that size. */
  lemma StandardSizeIs(n: nat, groups: nat, k: nat)
    requires 2 <= groups <= n && Pow(2, k) * groups >= n && (k >= 1 ==> Pow(2, k - 1) * groups < n)
    ensures StandardSize(groups, n) <= Pow(2, k) && (k >= 1 ==> Pow(2, k - 1) <= StandardSize(groups, n))
    ensures StandardSize(groups, n) == Pow(2, k) <==> n == groups * Pow(2, k)
  {
    var size, p := StandardSize(groups, n), Pow(2, k);
    SizesPositive(groups, n);
    assert size * groups == groups * size && p * groups == groups * p;
    if size > p {
      MulOrder(p, size, groups);
      assert false;
    }
    if k >= 1 && size < Pow(2, k - 1) {
      MulOrder(size, Pow(2, k - 1), groups);
      assert false;
    }
    if n == groups * p {
      MulOrder(size, p, groups);
    }
  }

  lemma LogPositive(n: nat)
    requires n >= 2
    ensures CeilLog2(n) >= 1
  {
    assert Pow(2, 0) == 1;
  }

  /** No group is smaller than the standard size, which the first group has. */
  lemma StandardIsSmallest(group: nat, n: nat)
    requires n >= 2 && NumGroups(n) <= n && group < NumGroups(n)
    ensures Size(group, n) >= StandardSize(NumGroups(n), n) == Size(0, n)
  {
    var groups, size := NumGroups(n), StandardSize(NumGroups(n), n);
    SizesPositive(groups, n);
    GroupsTile(groups, n);
    LastBlocks(groups, size);
    MulOrder(group, group + 1, size);
    LogPositive(n);
  }

  /** So the first timer covers no group's result, for any number of meters. */
  lemma NoResultInTime(group: nat, n: nat)
    requires n >= 2 && NumGroups(n) <= n && group < NumGroups(n)
    ensures ResultTime(group, n) > RoundsForQuery(n, CeilLog2(n))
  {
    StandardSizeIs(n, NumGroups(n), RoundsForNextResult(n));
    StandardIsSmallest(group, n);
    InTimeExactlyWhenSmall(group, n);
  }

  lemma FirstIsLowest(group: nat, n: nat)
    requires n >= 2 && NumGroups(n) <= n && group < NumGroups(n)
    ensures Height(0, n) <= Height(group, n)
  {
    StandardIsSmallest(group, n);
    HeightIsLog(0, n);
    HeightIsLog(group, n);
    ExponentBelow(Height(0, n), Height(group, n) + 1);
  }

  lemma HeightBetween(size: nat, h: nat, k: nat)
    requires Pow(2, h) <= size < Pow(2, h + 1) && 1 <= size <= Pow(2, k) && (k >= 1 ==> Pow(2, k - 1) <= size)
    ensures h == if size == Pow(2, k) then k else k - 1
  {
    if size == Pow(2, k) {
      ExponentBelow(k, h + 1);
      PowPositive(2, k);
      ExponentBelow(h, k + 1);
    } else if k >= 1 {
      ExponentBelow(h, k);
      ExponentBelow(k - 1, h + 1);
    }
  }

  /** What is missing for the earliest result is one round trip, or two when n is 2^k times the number of groups. */
  lemma EarliestResultMissesBy(group: nat, n: nat)
    requires n >= 2 && NumGroups(n) <= n && group < NumGroups(n)
    ensures ResultTime(0, n) <= ResultTime(group, n)
    ensures ResultTime(0, n) ==
            RoundsForQuery(n, CeilLog2(n)) + if n == NumGroups(n) * Pow(2, RoundsForNextResult(n)) then 2 else 1
  {
    var k := RoundsForNextResult(n);
    FirstIsLowest(group, n);
    StandardSizeIs(n, NumGroups(n), k);
    StandardIsSmallest(0, n);
    HeightIsLog(0, n);
    AllowanceIsShort(0, n);
    HeightBetween(Size(0, n), Height(0, n), k);
  }

  lemma TreeRoundsAre(n: nat, groups: nat, k: nat)
    requires groups >= 1 && (k >= 1 ==> Pow(2, k - 1) * groups < n) && n <= Pow(2, k) * groups
    ensures TreeRounds(n, groups, 0) == k
  {
    var r := TreeRounds(n, groups, 0);
    if r < k {
      PowGrows(r, k - 1);
      MulMonotone(Pow(2, r), Pow(2, k - 1), groups);
    } else if r > k {
      PowGrows(k, r - 1);
      MulMonotone(Pow(2, k), Pow(2, r - 1), groups);
    }
  }

  /** A server process in which the number of failures was never set counts with none, and misses by far more. */
  lemma UnsetFailuresMissBy(group: nat, n: nat)
    requires n >= 2 && NumGroups(n) <= n && group < NumGroups(n)
    ensures ResultTime(group, n) == RoundsForQuery(n, 0) + 5 * CeilLog2(n) + Height(group, n) + 2
  {
    TreeRoundsAre(n, 1, CeilLog2(n));
  }

  // ----- The timers after the first result -----

  /** No group is larger than the standard size by more than the number of tolerated failures. */
  lemma LargestSize(group: nat, n: nat)
    requires n >= 2 && NumGroups(n) <= n && group < NumGroups(n)
    ensures Size(group, n) <= StandardSize(NumGroups(n), n) + CeilLog2(n)
    ensures n == NumGroups(n) * StandardSize(NumGroups(n), n) ==> Size(group, n) == StandardSize(NumGroups(n), n)
  {
    var groups, size := NumGroups(n), StandardSize(NumGroups(n), n);
    SizesPositive(groups, n);
    LastBlocks(groups, size);
    MulOrder(group, group + 1, size);
  }

  lemma Powers()
    ensures Pow(2, 1) == 2 && Pow(2, 2) == 4 && Pow(2, 3) == 8 && Pow(2, 4) == 16 && Pow(2, 5) == 32
    ensures Pow(2, 6) == 64 && Pow(2, 7) == 128 && Pow(2, 8) == 256
  {
    assert Pow(2, 3) == 2 * Pow(2, 2) && Pow(2, 2) == 2 * Pow(2, 1) && Pow(2, 1) == 2 * Pow(2, 0);
    assert Pow(2, 6) == 2 * Pow(2, 5) && Pow(2, 5) == 2 * Pow(2, 4) && Pow(2, 4) == 2 * Pow(2, 3);
    assert Pow(2, 8) == 2 * Pow(2, 7) && Pow(2, 7) == 2 * Pow(2, 6);
  }

  lemma {:induction false} SquareBelowPower(l: nat)
    requires l >= 9
    ensures l * (2 * l + 1) <= Pow(2, l - 1)
    decreases l
  {
    if l == 9 {
      Powers();
    } else {
      SquareBelowPower(l - 1);
      assert 2 * ((l - 1) * (2 * (l - 1) + 1)) >= l * (2 * l + 1);
    }
  }

  lemma AtLeast(n: nat, groups: nat, q: nat)
    requires groups >= 1 && q * groups <= n
    ensures StandardSize(groups, n) >= q
  {
    var size := StandardSize(groups, n);
    assert n == size * groups + n % groups;
    if size < q {
      MulOrder(size, q, groups);
    }
  }

  /** With two members or more in a standard group, its size outgrows the logarithm. */
  lemma StandardOutgrowsLog(n: nat)
    requires n >= 2 && 2 * NumGroups(n) <= n
    ensures var size := StandardSize(NumGroups(n), n);
            size >= 2 && (CeilLog2(n) <= 6 || size >= 4) && (CeilLog2(n) <= 8 || size >= CeilLog2(n))
  {
    var l, groups, size := CeilLog2(n), NumGroups(n), StandardSize(NumGroups(n), n);
    SizesPositive(groups, n);
    LogPositive(n);
    AtLeast(n, groups, 2);
    if l > 6 {
      PowGrows(6, l - 1);
      Powers();
      if l > 8 {
        SquareBelowPower(l);
        assert l * groups == l * (2 * l + 1);
        AtLeast(n, groups, l);
      } else if l == 8 {
        PowGrows(7, l - 1);
        AtLeast(n, groups, 4);
      } else {
        AtLeast(n, groups, 4);
      }
    }
  }

  lemma SquareOutgrows(size: nat, l: nat)
    requires size >= 2 && (l <= 6 || size >= 4) && (l <= 8 || size >= l)
    ensures size + l < (size + 1) * (size + 1)
  {
    assert (size + 1) * (size + 1) == size * size + 2 * size + 1;
    if size >= 4 {
      MulMonotone(4, size, size);
    } else {
      MulMonotone(2, size, size);
    }
  }

  lemma BelowPower(n: nat, groups: nat, size: nat, k: nat)
    requires groups >= 1 && size == StandardSize(groups, n) && n != groups * size && Pow(2, k) * groups >= n
    ensures size + 1 <= Pow(2, k)
  {
    assert n == size * groups + n % groups;
    assert size * groups == groups * size;
    if Pow(2, k) <= size {
      MulMonotone(Pow(2, k), size, groups);
    }
  }

  lemma Factors(a: nat, b: nat, c: nat)
    requires c <= a && c <= b
    ensures c * c <= a * b
  {
    MulMonotone(c, a, b);
    MulMonotone(c, b, c);
  }

  lemma HeightsDiffer(small: nat, large: nat, h: nat, h': nat, k: nat)
    requires small < Pow(2, h + 1) && small + 1 <= Pow(2, k)
    requires Pow(2, h') <= large < (small + 1) * (small + 1)
    ensures h' <= h + k
  {
    Factors(Pow(2, h + 1), Pow(2, k), small + 1);
    PowAdd(2, h + 1, k);
    ExponentBelow(h', h + 1 + k);
  }

  /** Unless all groups have the same size, the largest is below the square of the next size above the standard. */
  lemma LargestBelowSquare(h: nat, n: nat)
    requires n >= 2 && 2 * NumGroups(n) <= n && h < NumGroups(n)
    ensures var size := StandardSize(NumGroups(n), n);
            || Size(h, n) == size
            || (Size(h, n) < (size + 1) * (size + 1) && size + 1 <= Pow(2, RoundsForNextResult(n)))
  {
    var groups, size := NumGroups(n), StandardSize(NumGroups(n), n);
    LargestSize(h, n);
    if n != groups * size {
      StandardOutgrowsLog(n);
      SquareOutgrows(size, CeilLog2(n));
      BelowPower(n, groups, size, RoundsForNextResult(n));
    }
  }

  lemma HeightGap(h: nat, n: nat)
    requires n >= 2 && 2 * NumGroups(n) <= n && h < NumGroups(n)
    ensures Height(h, n) <= Height(0, n) + RoundsForNextResult(n)
  {
    HeightIsLog(h, n);
    HeightIsLog(0, n);
    StandardIsSmallest(0, n);
    LargestBelowSquare(h, n);
    if Size(h, n) == Size(0, n) {
      ExponentBelow(Height(h, n), Height(0, n) + 1);
    } else {
      HeightsDiffer(Size(0, n), Size(h, n), Height(0, n), Height(h, n), RoundsForNextResult(n));
    }
  }

  /** Whenever proxies can be picked at all, each later timer covers the wait from any group's result to any other's. */
  lemma LaterTimersSuffice(g: nat, h: nat, n: nat)
    requires n >= 2 && 2 * NumGroups(n) <= n && g < NumGroups(n) && h < NumGroups(n)
    ensures ResultTime(h, n) <= ResultTime(g, n) + RoundsForNextResult(n)
  {
    FirstIsLowest(g, n);
    HeightGap(h, n);
  }

  // ----- Examples -----

  lemma HeightIs(group: nat, n: nat, h: nat)
    requires n >= 2 && NumGroups(n) <= n && group < NumGroups(n) && Pow(2, h) <= Size(group, n) < Pow(2, h + 1)
    ensures Height(group, n) == h
  {
    HeightIsLog(group, n);
    ExponentBelow(h, Height(group, n) + 1);
    ExponentBelow(Height(group, n), h + 1);
  }

  /** With 37 meters, a number both programs accept, the first result is one round trip late, the last three. */
  lemma MissedWith37()
    ensures NumGroups(37) == 13
    ensures ResultTime(0, 37) == RoundsForQuery(37, CeilLog2(37)) + 1
    ensures ResultTime(12, 37) == RoundsForQuery(37, CeilLog2(37)) + 3
  {
    Powers();
    LogIs(37, 6);
    TreeRoundsAre(37, 13, 2);
    AllowanceIsShort(0, 37);
    AllowanceIsShort(12, 37);
    HeightIs(0, 37, 1);
    HeightIs(12, 37, 3);
  }

  /** With single-member groups, for which no proxies can be picked, a later timer can fall short as well. */
  lemma LaterTimerShortWith16()
    ensures NumGroups(16) == 9 && ResultTime(8, 16) == ResultTime(0, 16) + RoundsForNextResult(16) + 1
  {
    Powers();
    LogIs(16, 4);
    TreeRoundsAre(16, 9, 1);
    HeightIs(0, 16, 0);
    HeightIs(8, 16, 2);
  }
}
