/** Aggregation groups: contiguous blocks of node ids, each an implicit binary tree. */
module Groups {
  import opened NumberTheory
  import opened Results

  function StandardSize(groups: nat, n: nat): nat
    requires groups > 0
  {
    n / groups
  }

  function SecondLastSize(groups: nat, n: nat): int
    requires groups > 0
  {
    (StandardSize(groups, n) + (n - (groups - 1) * StandardSize(groups, n))) / 2
  }

  lemma MulOrder(a: int, b: int, size: nat)
    requires size >= 1
    ensures a < b ==> a * size + size <= b * size
    ensures a >= b ==> a * size >= b * size
    ensures (a + 1) * size == a * size + size
  {
    Distribute(a, 1, size);
    if a < b {
      MulMonotone(a + 1, b, size);
    } else {
      MulMonotone(b, a, size);
    }
  }

  lemma SizesPositive(groups: nat, n: nat)
    requires 2 <= groups <= n
    ensures StandardSize(groups, n) >= 1
    ensures groups * StandardSize(groups, n) <= n < groups * StandardSize(groups, n) + groups
    ensures SecondLastSize(groups, n) >= StandardSize(groups, n)
  {
    assert n == (n / groups) * groups + n % groups;
    MulOrder(n / groups, 1, groups);
  }

  function GroupFor(node: nat, groups: nat, n: nat): int
    requires 2 <= groups <= n
  {
    var size := StandardSize(groups, n);
    SizesPositive(groups, n);
    var group := node / size;
    if group >= groups - 2 then
      if node >= size * (groups - 2) && node < size * (groups - 2) + SecondLastSize(groups, n)
      then groups - 2
      else groups - 1
    else group
  }

  /** First id of a group, for 0 <= group <= groups; the last value is n. */
  function First(group: nat, groups: nat, n: nat): int
    requires 2 <= groups <= n && group <= groups
  {
    if group == groups then n
    else if group == groups - 1 then (groups - 2) * StandardSize(groups, n) + SecondLastSize(groups, n)
    else group * StandardSize(groups, n)
  }

  lemma LastBlocks(groups: nat, size: nat)
    requires groups >= 2
    ensures (groups - 1) * size == (groups - 2) * size + size
    ensures groups * size == (groups - 1) * size + size
  {
  }

  /** Groups are non-empty intervals laid end to end from 0 to n, the last two within one in size. */
  lemma GroupsTile(groups: nat, n: nat)
    requires 2 <= groups <= n
    ensures First(0, groups, n) == 0 && First(groups, groups, n) == n
    ensures forall g: nat :: g < groups ==> First(g, groups, n) < First(g + 1, groups, n)
    ensures var last := n - First(groups - 1, groups, n);
            var second := First(groups - 1, groups, n) - First(groups - 2, groups, n);
            second <= last <= second + 1
  {
    SizesPositive(groups, n);
    var size := StandardSize(groups, n);
    LastBlocks(groups, size);
    forall g: nat | g < groups ensures First(g, groups, n) < First(g + 1, groups, n) {
      assert (g + 1) * size == g * size + size;
    }
  }

  lemma QuotientBelow(node: nat, groups: nat, size: nat)
    requires size >= 1
    ensures node / size >= 0 && (node < groups * size <==> node / size < groups)
    ensures size * groups == groups * size
  {
    var q := node / size;
    assert node == q * size + node % size;
    MulOrder(q, groups, size);
  }

  /** The last two groups start at a common base; below it the quotient decides. */
  lemma GroupForByBase(node: nat, groups: nat, n: nat)
    requires 2 <= groups <= n && node < n
    ensures var size := StandardSize(groups, n);
            var base := (groups - 2) * size;
            GroupFor(node, groups, n) ==
            if node < base then node / size
            else if node < base + SecondLastSize(groups, n) then groups - 2
            else groups - 1
    ensures StandardSize(groups, n) >= 1
    ensures node < (groups - 2) * StandardSize(groups, n) <==> node / StandardSize(groups, n) < groups - 2
    ensures node / StandardSize(groups, n) >= 0
  {
    SizesPositive(groups, n);
    QuotientBelow(node, groups - 2, StandardSize(groups, n));
  }

  lemma QuotientIs(node: nat, group: nat, size: nat)
    requires size >= 1
    ensures node / size == group <==> group * size <= node < (group + 1) * size
  {
    MulOrder(group, group + 1, size);
    assert node == (node / size) * size + node % size;
    if group * size <= node < (group + 1) * size {
      DivModIs(node, group, node - group * size, size);
    }
  }

  /** A node's group is the one interval that holds it. */
  lemma GroupForIsInterval(node: nat, group: nat, groups: nat, n: nat)
    requires 2 <= groups <= n && node < n && group < groups
    ensures 0 <= GroupFor(node, groups, n) < groups
    ensures GroupFor(node, groups, n) == group <==> First(group, groups, n) <= node < First(group + 1, groups, n)
  {
    SizesPositive(groups, n);
    GroupForByBase(node, groups, n);
    var size := StandardSize(groups, n);
    MulOrder(group + 1, groups - 2, size);
    QuotientIs(node, group, size);
  }

  // ----- The tree inside a group -----

  function FirstOf(node: nat, groups: nat, n: nat): int
    requires 2 <= groups <= n && node < n
  {
    var group := GroupFor(node, groups, n);
    GroupForIsInterval(node, 0, groups, n);
    First(group, groups, n)
  }

  function EndOf(node: nat, groups: nat, n: nat): int
    requires 2 <= groups <= n && node < n
  {
    var group := GroupFor(node, groups, n);
    GroupForIsInterval(node, 0, groups, n);
    First(group + 1, groups, n)
  }

  /** The tree parent, or -1 at the root of the group. */
  function Parent(node: nat, groups: nat, n: nat): int
    requires 2 <= groups <= n && node < n
  {
    var size := StandardSize(groups, n);
    var first :=
      if GroupFor(node, groups, n) == groups - 1
      then (groups - 2) * size + SecondLastSize(groups, n)
      else GroupFor(node, groups, n) * size;
    if node == first then -1 else (node - first - 1) / 2 + first
  }

  /** The left and right child, each -1 when it falls outside the group. */
  function Children(node: nat, groups: nat, n: nat): (int, int)
    requires 2 <= groups <= n && node < n
  {
    var group := GroupFor(node, groups, n);
    var standard := StandardSize(groups, n);
    var secondLast := SecondLastSize(groups, n);
    var first := if group == groups - 1 then (groups - 2) * standard + secondLast else group * standard;
    var size :=
      if group == groups - 1 then n - first else if group == groups - 2 then secondLast else standard;
    var right := (node - first + 1) * 2;
    var left := right - 1;
    if left >= size then (-1, -1)
    else if right >= size then (left + first, -1)
    else (left + first, right + first)
  }

  predicate IsChild(child: int, node: nat, groups: nat, n: nat)
    requires 2 <= groups <= n && node < n
  {
    child >= 0 && (child == Children(node, groups, n).0 || child == Children(node, groups, n).1)
  }

  lemma FirstInRange(group: nat, groups: nat, n: nat)
    requires 2 <= groups <= n && group < groups
    ensures 0 <= First(group, groups, n) < First(group + 1, groups, n) <= n
  {
    SizesPositive(groups, n);
    var size := StandardSize(groups, n);
    LastBlocks(groups, size);
    MulOrder(group, groups - 2, size);
    MulOrder(group, group + 1, size);
    MulOrder(0, group, size);
    MulOrder(group + 1, groups - 2, size);
  }

  /** The members of a group, counted: the standard size, but for the last two. */
  lemma GroupSize(group: nat, groups: nat, n: nat)
    requires 2 <= groups <= n && group < groups
    ensures First(group + 1, groups, n) - First(group, groups, n) ==
            if group == groups - 1 then n - First(group, groups, n)
            else if group == groups - 2 then SecondLastSize(groups, n)
            else StandardSize(groups, n)
  {
    SizesPositive(groups, n);
    MulOrder(group, group + 1, StandardSize(groups, n));
  }

  lemma InOwnGroup(node: nat, groups: nat, n: nat)
    requires 2 <= groups <= n && node < n
    ensures 0 <= GroupFor(node, groups, n) < groups
    ensures 0 <= FirstOf(node, groups, n) <= node < EndOf(node, groups, n) <= n
  {
    GroupForIsInterval(node, 0, groups, n);
    GroupForIsInterval(node, GroupFor(node, groups, n), groups, n);
    FirstInRange(GroupFor(node, groups, n), groups, n);
  }

  lemma TreeShape(node: nat, groups: nat, n: nat)
    requires 2 <= groups <= n && node < n
    ensures 0 <= FirstOf(node, groups, n) <= node < EndOf(node, groups, n) <= n
    ensures Parent(node, groups, n) ==
            if node == FirstOf(node, groups, n) then -1
            else (node - FirstOf(node, groups, n) - 1) / 2 + FirstOf(node, groups, n)
    ensures var first, end := FirstOf(node, groups, n), EndOf(node, groups, n);
            var left, right := 2 * (node - first) + 1 + first, 2 * (node - first) + 2 + first;
            Children(node, groups, n) == (if left < end then left else -1, if right < end then right else -1)
  {
    var group := GroupFor(node, groups, n);
    InOwnGroup(node, groups, n);
    GroupSize(group, groups, n);
  }

  /** Two nodes share a group exactly when one lies in the other's interval. */
  lemma SameGroup(a: nat, b: nat, groups: nat, n: nat)
    requires 2 <= groups <= n && a < n && b < n
    ensures GroupFor(a, groups, n) == GroupFor(b, groups, n) <==>
            FirstOf(b, groups, n) <= a < EndOf(b, groups, n)
  {
    GroupForIsInterval(b, 0, groups, n);
    GroupForIsInterval(a, GroupFor(b, groups, n), groups, n);
  }

  /** Parent and children are inverse, inside one group. */
  lemma ParentChildInverse(child: nat, node: nat, groups: nat, n: nat)
    requires 2 <= groups <= n && child < n && node < n
    ensures IsChild(child, node, groups, n) <==> Parent(child, groups, n) == node
    ensures IsChild(child, node, groups, n) ==> GroupFor(child, groups, n) == GroupFor(node, groups, n)
  {
    TreeShape(node, groups, n);
    TreeShape(child, groups, n);
    SameGroup(child, node, groups, n);
    SameGroup(node, child, groups, n);
  }

  /** How many parent steps lead to the first id of the group. */
  function Depth(node: nat, groups: nat, n: nat): nat
    requires 2 <= groups <= n && node < n
    decreases node
  {
    TreeShape(node, groups, n);
    if Parent(node, groups, n) < 0 then 0 else 1 + Depth(Parent(node, groups, n), groups, n)
  }

  lemma {:induction false} DepthBound(node: nat, groups: nat, n: nat)
    requires 2 <= groups <= n && node < n
    ensures Pow(2, Depth(node, groups, n)) <= node - FirstOf(node, groups, n) + 1
    decreases node
  {
    TreeShape(node, groups, n);
    var parent := Parent(node, groups, n);
    if parent >= 0 {
      SameGroup(parent, node, groups, n);
      DepthBound(parent, groups, n);
    }
  }

  function Climb(node: nat, steps: nat, groups: nat, n: nat): int
    requires 2 <= groups <= n && node < n
    decreases steps
  {
    if steps == 0 then node else
      TreeShape(node, groups, n);
      if Parent(node, groups, n) < 0 then -1 else Climb(Parent(node, groups, n), steps - 1, groups, n)
  }

  /** Climbing that many steps ends at the group's first id, after at most log2 of the group size steps. */
  lemma {:induction false} ClimbReachesRoot(node: nat, groups: nat, n: nat)
    requires 2 <= groups <= n && node < n
    ensures Climb(node, Depth(node, groups, n), groups, n) == FirstOf(node, groups, n)
    ensures Pow(2, Depth(node, groups, n)) <= EndOf(node, groups, n) - FirstOf(node, groups, n)
    decreases node
  {
    DepthBound(node, groups, n);
    TreeShape(node, groups, n);
    var parent := Parent(node, groups, n);
    if parent >= 0 {
      SameGroup(parent, node, groups, n);
      ClimbReachesRoot(parent, groups, n);
    }
  }

  // ----- Picking proxies -----

  /** A uniform choice between two bounds, both included. */
  method RandomInt(min: int, max: int) returns (choice: int)
    requires min <= max
    ensures min <= choice <= max
  {
    choice :| min <= choice <= max;
  }

  method RandomIntExclude(min: int, max: int, exclude: int) returns (choice: int)
    requires min < max
    ensures min <= choice <= max && choice != exclude
  {
    choice := RandomInt(min, max - 1);
    if choice == exclude {
      choice := max;
    }
  }

  method PickInGroup(node: int, begin: int, end: int) returns (proxy: int)
    requires begin < end
    ensures begin <= proxy <= end && proxy != node
  {
    if begin <= node <= end {
      proxy := RandomIntExclude(begin, end, node);
    } else {
      proxy := RandomInt(begin, end);
    }
  }

  lemma TooManyGroups(groups: nat, n: nat)
    requires groups >= 2
    ensures n / groups >= 1 ==> groups <= n
  {
    assert n == (n / groups) * groups + n % groups;
    if n / groups >= 1 {
      MulOrder(1, n / groups, groups);
    }
  }

  /** Throws exactly when a standard group has fewer than two members. */
  method PickProxies(node: nat, groups: nat, n: nat) returns (result: Option<seq<int>>)
    requires groups >= 2 && node < n
    ensures result.None? <==> n / groups < 2
    ensures result.Some? ==> groups <= n && |result.value| == groups
    ensures result.Some? ==> forall g :: 0 <= g < groups ==>
              0 <= result.value[g] < n && result.value[g] != node && GroupFor(result.value[g], groups, n) == g
  {
    var size := StandardSize(groups, n);
    var secondLast := SecondLastSize(groups, n);
    if size < 2 {
      return None;
    }
    TooManyGroups(groups, n);
    SizesPositive(groups, n);
    LastBlocks(groups, size);
    var proxies: seq<int> := [];
    var group := 0;
    while group < groups - 2
      invariant 0 <= group <= groups - 2 && |proxies| == group
      invariant forall g :: 0 <= g < group ==>
        First(g, groups, n) <= proxies[g] < First(g + 1, groups, n) && proxies[g] != node
    {
      var begin := group * size;
      assert (group + 1) * size == begin + size;
      var proxy := PickInGroup(node, begin, begin + (size - 1));
      proxies := proxies + [proxy];
      group := group + 1;
    }
    var begin := (groups - 2) * size;
    var end := begin + (secondLast - 1);
    var proxy := PickInGroup(node, begin, end);
    proxies := proxies + [proxy];
    proxy := PickInGroup(node, end + 1, n - 1);
    proxies := proxies + [proxy];
    forall g | 0 <= g < groups
      ensures 0 <= proxies[g] < n && proxies[g] != node && GroupFor(proxies[g], groups, n) == g
    {
      FirstInRange(g, groups, n);
      GroupForIsInterval(proxies[g], g, groups, n);
    }
    result := Some(proxies);
  }
}
