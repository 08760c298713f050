/** The gossip overlay: at round t node i talks to node i + 2^t mod n, as far as 32-bit words carry the power. */
module Overlay {
  import opened NumberTheory

  const TWO_TO_31: nat := 0x8000_0000

  const TWO_TO_32: nat := 0x1_0000_0000

  /** Up to this size the squares of residues fit into a word. */
  const POWER_LIMIT: nat := 65536

  // ----- Modular exponentiation on 32-bit words -----

  /** The loop of mod_pow with its 32-bit square written out. */
  function WrappedPow(result: nat, num: nat, pow: nat, mod: nat): nat
    requires mod > 0
    decreases pow
  {
    if pow == 0 then result else
      WrappedPow(if pow % 2 == 1 then (result * num) % mod else result,
                 ((num * num) % TWO_TO_32) % mod, pow / 2, mod)
  }

  method ModPow(num: nat, pow: nat, mod: nat) returns (result: nat)
    requires num < TWO_TO_32 && pow < TWO_TO_32 && 0 < mod < TWO_TO_32
    ensures result == WrappedPow(1, num, pow, mod)
  {
    result := 1;
    var base: nat, exponent: nat := num, pow;
    while exponent > 0
      invariant WrappedPow(result, base, exponent, mod) == WrappedPow(1, num, pow, mod)
    {
      if exponent % 2 == 1 {
        result := (result * base) % mod;
      }
      base := ((base * base) % TWO_TO_32) % mod;
      exponent := exponent / 2;
    }
  }

  /** When the wrap of a square cannot show in its residue. */
  predicate SquareSafe(num: nat, mod: nat)
    requires mod > 0
  {
    (num < 65536 && mod <= 65536) || TWO_TO_32 % mod == 0
  }

  lemma SquareSmall(num: nat)
    requires num < 65536
    ensures num * num < TWO_TO_32
  {
    MulMonotone(num, 65535, num);
  }

  lemma SquareResidue(num: nat, mod: nat)
    requires mod > 0 && SquareSafe(num, mod)
    ensures ((num * num) % TWO_TO_32) % mod == (num * num) % mod
    ensures SquareSafe(((num * num) % TWO_TO_32) % mod, mod)
  {
    var sq := num * num;
    if num < 65536 && mod <= 65536 {
      SquareSmall(num);
    } else {
      var q, w := TWO_TO_32 / mod, sq / TWO_TO_32;
      assert TWO_TO_32 == q * mod;
      assert sq == sq % TWO_TO_32 + w * TWO_TO_32;
      MulAssoc(w, q, mod);
      ModShift(sq % TWO_TO_32, w * q, mod);
    }
  }

  lemma PowOfSquare(num: nat, half: nat)
    ensures Pow(num * num, half) == Pow(num, 2 * half)
  {
    assert Pow(num, 2) == num * Pow(num, 1) == num * num;
    PowMul(num, 2, half);
  }

  /** One loop iteration keeps the residue of result * num^pow. */
  lemma WrappedPowStep(result: nat, num: nat, pow: nat, mod: nat, square: nat)
    requires mod > 0 && pow > 0 && square % mod == (num * num) % mod
    ensures var next := if pow % 2 == 1 then (result * num) % mod else result;
            (next * Pow(square, pow / 2)) % mod == (result * Pow(num, pow)) % mod
  {
    var next := if pow % 2 == 1 then (result * num) % mod else result;
    var p := Pow(num * num, pow / 2);
    ModPowCong(square, num * num, pow / 2, mod);
    ModMul(Pow(square, pow / 2), p, next, mod);
    PowOfSquare(num, pow / 2);
    if pow % 2 == 1 {
      ModMod(result * num, mod);
      ModMul(next, result * num, p, mod);
      assert Pow(num, pow) == num * p;
      MulAssoc(result, num, p);
    }
  }

  lemma {:induction false} WrappedPowIsPow(result: nat, num: nat, pow: nat, mod: nat)
    requires mod > 0 && SquareSafe(num, mod)
    ensures WrappedPow(result, num, pow, mod) % mod == (result * Pow(num, pow)) % mod
    ensures result < mod ==> WrappedPow(result, num, pow, mod) < mod
    decreases pow
  {
    if pow > 0 {
      var next := if pow % 2 == 1 then (result * num) % mod else result;
      var square := ((num * num) % TWO_TO_32) % mod;
      SquareResidue(num, mod);
      ModMod(num * num, mod);
      WrappedPowIsPow(next, square, pow / 2, mod);
      WrappedPowStep(result, num, pow, mod, square);
    }
  }

  lemma ModPowOfTwo(pow: nat, mod: nat)
    requires mod >= 2 && SquareSafe(2, mod)
    ensures WrappedPow(1, 2, pow, mod) == Pow(2, pow) % mod
  {
    WrappedPowIsPow(1, 2, pow, mod);
    DivModIs(WrappedPow(1, 2, pow, mod), 0, WrappedPow(1, 2, pow, mod), mod);
  }

  lemma PowThirtyTwo()
    ensures Pow(2, 32) == TWO_TO_32
  {
    assert Pow(2, 8) == 256;
    PowMul(2, 8, 4);
    assert Pow(256, 4) == TWO_TO_32;
  }

  /** As long as the square fits, one iteration squares the base. */
  lemma WrappedStep(result: nat, num: nat, pow: nat, mod: nat) returns (next: nat)
    requires num <= 256 && POWER_LIMIT < mod && pow > 0
    ensures WrappedPow(result, num, pow, mod) == WrappedPow(next, num * num, pow / 2, mod)
  {
    next := if pow % 2 == 1 then (result * num) % mod else result;
    MulMonotone(num, 256, num);
    DivModIs(num * num, 0, num * num, mod);
    DivModIs(num * num, 0, num * num, TWO_TO_32);
  }

  lemma {:induction false} ZeroStays(pow: nat, mod: nat)
    requires mod > 0
    ensures WrappedPow(0, 0, pow, mod) == 0
    decreases pow
  {
    DivModIs(0, 0, 0, mod);
    if pow > 0 {
      ZeroStays(pow / 2, mod);
    }
  }

  lemma {:induction false} WrappedZero(result: nat, pow: nat, mod: nat)
    requires mod > 0 && pow > 0
    ensures WrappedPow(result, 0, pow, mod) == 0
    decreases pow
  {
    DivModIs(0, 0, 0, mod);
    if pow % 2 == 1 {
      assert (result * 0) % mod == 0;
      ZeroStays(pow / 2, mod);
    } else {
      WrappedZero(result, pow / 2, mod);
    }
  }

  /** From exponent 32 on the base has wrapped to zero, and the power with it. */
  lemma WrappedThirtyTwo(pow: nat, mod: nat)
    requires POWER_LIMIT < mod && pow >= 32
    ensures WrappedPow(1, 2, pow, mod) == 0
  {
    var r1 := WrappedStep(1, 2, pow, mod);
    var r2 := WrappedStep(r1, 4, pow / 2, mod);
    var r3 := WrappedStep(r2, 16, pow / 2 / 2, mod);
    var r4 := WrappedStep(r3, 256, pow / 2 / 2 / 2, mod);
    var rest := pow / 2 / 2 / 2 / 2;
    DivModIs(65536 * 65536, 1, 0, TWO_TO_32);
    DivModIs(0, 0, 0, mod);
    var r5 := if rest % 2 == 1 then (r4 * 65536) % mod else r4;
    assert WrappedPow(r4, 65536, rest, mod) == WrappedPow(r5, 0, rest / 2, mod);
    WrappedZero(r5, rest / 2, mod);
  }

  /** For a modulus of at least 2, exactly these moduli make mod_pow(2, _, mod) right on every exponent. */
  lemma ModPowOfTwoExact(mod: nat)
    requires 2 <= mod < TWO_TO_32
    ensures (forall pow: nat | pow < TWO_TO_32 :: WrappedPow(1, 2, pow, mod) == Pow(2, pow) % mod)
            <==> (mod <= 65536 || TWO_TO_32 % mod == 0)
  {
    if mod <= 65536 || TWO_TO_32 % mod == 0 {
      forall pow: nat ensures WrappedPow(1, 2, pow, mod) == Pow(2, pow) % mod {
        ModPowOfTwo(pow, mod);
      }
    } else {
      PowThirtyTwo();
      WrappedThirtyTwo(32, mod);
      assert WrappedPow(1, 2, 32, mod) != Pow(2, 32) % mod;
    }
  }

  // ----- Gossip targets and predecessors -----

  /** How far a round's messages travel. */
  function Offset(round: nat, n: nat): nat
    requires n > 0
  {
    WrappedPow(1, 2, round, n)
  }

  function Target(node: int, round: nat, n: nat): int
    requires n > 0
  {
    (node + Offset(round, n)) % n
  }

  function Predecessor(node: int, round: nat, n: nat): int
    requires n > 0
  {
    (node - Offset(round, n)) % n
  }

  /** Up to the limit the target is node + 2^round and the predecessor node - 2^round modulo n. */
  lemma TargetIsPower(node: int, round: nat, n: nat)
    requires 0 < n <= POWER_LIMIT
    ensures Target(node, round, n) == (node + Pow(2, round)) % n
    ensures Predecessor(node, round, n) == (node - Pow(2, round)) % n
  {
    var p: int, o: int := Pow(2, round), Offset(round, n);
    WrappedPowIsPow(1, 2, round, n);
    assert o % n == p % n;
    ModAdd(o, p, node, n);
    var k := SameModDiffer(o, p, n);
    assert node - o == node - p + (-k) * n;
    ModShift(node - p, -k, n);
  }

  /** Each round's gossip map is a bijection of the nodes, and the predecessor is its inverse. */
  lemma GossipInverse(i: int, j: int, round: nat, n: nat)
    requires 0 <= i < n && 0 <= j < n
    ensures Target(i, round, n) == j <==> Predecessor(j, round, n) == i
  {
    var p: int := Offset(round, n);
    ModMod(i + p, n);
    ModMod(j - p, n);
    ModAdd(Target(i, round, n), i + p, 0 - p, n);
    ModAdd(Predecessor(j, round, n), j - p, p, n);
    DivModIs(i, 0, i, n);
    DivModIs(j, 0, j, n);
  }

  /** C's remainder truncates toward zero. */
  function CRemainder(a: int, b: int): int
    requires b > 0
  {
    if a >= 0 then a % b else -((-a) % b)
  }

  /** A subtrahend that is the modulus itself, not reduced, shows only below zero. */
  function ModSubtract(x: int, y: int, m: int): (r: int)
    requires 0 <= x < m && 0 <= y <= m
    ensures r == if y == m && x == 0 then m else (x - y) % m
  {
    var r := CRemainder(x - y, m) + (if x >= y then 0 else m);
    assert r == if y == m && x == 0 then m else (x - y) % m by {
      if x >= y {
        DivModIs(x - y, 0, x - y, m);
      } else if y - x == m {
        DivModIs(m, 1, 0, m);
      } else {
        DivModIs(y - x, 0, y - x, m);
        DivModIs(x - y, -1, x - y + m, m);
      }
    }
    r
  }

  /** What gossip_predecessor returns: over a single node, in round 0, the power 1 is left unreduced. */
  function ComputedPredecessor(node: int, round: nat, size: nat): int
    requires size > 0
  {
    if size == 1 && round == 0 then 1 else Predecessor(node, round, size)
  }

  lemma {:induction false} WrappedPowIsReduced(result: nat, num: nat, pow: nat, mod: nat)
    requires mod > 0
    ensures WrappedPow(result, num, pow, mod) < mod || WrappedPow(result, num, pow, mod) == result
    ensures pow > 0 && mod == 1 ==> WrappedPow(result, num, pow, mod) == 0
    decreases pow
  {
    if pow > 0 {
      var next := if pow % 2 == 1 then (result * num) % mod else result;
      WrappedPowIsReduced(next, ((num * num) % TWO_TO_32) % mod, pow / 2, mod);
    }
  }

  /** The two memo tables, keyed (group size, round, node). */
  class GossipTables {
    var targets: map<(int, int, int), int>
    var sources: map<(int, int, int), int>

    ghost predicate Valid()
      reads this
    {
      && (forall k | k in targets :: k.0 >= 1 && k.1 >= 0 && targets[k] == Target(k.2, k.1, k.0))
      && (forall k | k in sources :: k.0 >= 1 && k.1 >= 0 && sources[k] == ComputedPredecessor(k.2, k.1, k.0))
    }

    constructor ()
      ensures Valid() && targets == map[] && sources == map[]
    {
      targets, sources := map[], map[];
    }

    method GossipTarget(node: int, round: nat, size: nat) returns (target: int)
      requires Valid()
      requires 0 < size < TWO_TO_31 && 0 <= node < size && round < TWO_TO_32
      modifies this
      ensures Valid() && target == Target(node, round, size)
      ensures targets == old(targets)[(size, round, node) := target] && sources == old(sources)
    {
      var key := (size, round, node);
      if key in targets {
        target := targets[key];
        assert targets == targets[key := target];
        return;
      }
      var power := ModPow(2, round, size);
      target := (node + power) % size;
      targets := targets[key := target];
    }

    method GossipPredecessor(node: int, round: nat, size: nat) returns (source: int)
      requires Valid()
      requires 0 < size < TWO_TO_31 && 0 <= node < size && round < TWO_TO_32
      modifies this
      ensures Valid() && source == ComputedPredecessor(node, round, size)
      ensures sources == old(sources)[(size, round, node) := source] && targets == old(targets)
    {
      var key := (size, round, node);
      if key in sources {
        source := sources[key];
        assert sources == sources[key := source];
        return;
      }
      var power := ModPow(2, round, size);
      WrappedPowIsReduced(1, 2, round, size);
      source := ModSubtract(node, power, size);
      sources := sources[key := source];
    }
  }

  // ----- Temporal walks -----

  /** The overlay sizes whose rounds reach everybody. */
  predicate Mixes(n: nat) {
    n % 2 == 1 && n <= POWER_LIMIT
  }

  /** In one round a message waits or is gossiped. */
  predicate IsStep(from: int, to: int, round: nat, n: nat)
    requires n > 0
  {
    to == from || to == Target(from, round, n)
  }

  /** From round s on, each step of a walk waits or gossips. */
  ghost predicate IsWalk(w: seq<int>, s: nat, n: nat)
    requires n > 0
  {
    && |w| > 0
    && (forall k :: 0 <= k < |w| ==> 0 <= w[k] < n)
    && (forall k :: 0 <= k < |w| - 1 ==> IsStep(w[k], w[k + 1], s + k, n))
  }

  ghost predicate WalkFromTo(w: seq<int>, i: int, j: int, s: nat, n: nat)
    requires n > 0
  {
    IsWalk(w, s, n) && w[0] == i && w[|w| - 1] == j
  }

  lemma PrependStep(i: int, w: seq<int>, s: nat, n: nat)
    requires n > 0 && 0 <= i < n && IsWalk(w, s + 1, n) && IsStep(i, w[0], s, n)
    ensures IsWalk([i] + w, s, n)
  {
    var u := [i] + w;
    forall k | 0 <= k < |u| - 1 ensures IsStep(u[k], u[k + 1], s + k, n) {
      if k > 0 {
        assert IsStep(w[k - 1], w[(k - 1) + 1], s + 1 + (k - 1), n);
      }
    }
  }

  lemma LowestBit(next: int, i: int, c: nat, p: nat, n: nat)
    requires n > 0 && next % n == (if c % 2 == 1 then i + p else i) % n
    ensures (next + (2 * p) * (c / 2)) % n == (i + p * c) % n
  {
    var h := c / 2;
    var q := p * (2 * h);
    DoubleHalf(p, h, 2 * h);
    if c % 2 == 1 {
      assert p * c == q + p by {
        Distribute(2 * h, 1, p);
        assert p * c == c * p && p * (2 * h) == (2 * h) * p;
      }
      ModAdd(next, i + p, q, n);
    } else {
      ModAdd(next, i, q, n);
    }
  }

  /** Gossiping on the lowest bit leaves the other bits to the doubled power. */
  lemma BitStep(i: int, c: nat, s: nat, n: nat)
    requires 0 <= i < n <= POWER_LIMIT
    ensures var next := if c % 2 == 1 then Target(i, s, n) else i;
            (next + Pow(2, s + 1) * (c / 2)) % n == (i + Pow(2, s) * c) % n
  {
    TargetIsPower(i, s, n);
    ModMod(i + Pow(2, s), n);
    LowestBit(if c % 2 == 1 then Target(i, s, n) else i, i, c, Pow(2, s), n);
  }

  /** A walk that adds 2^s * c by gossiping in the rounds named by the bits of c. */
  lemma {:induction false} BitWalk(i: int, c: nat, l: nat, s: nat, n: nat) returns (w: seq<int>)
    requires 0 <= i < n <= POWER_LIMIT && c < Pow(2, l)
    ensures |w| == l + 1 && WalkFromTo(w, i, (i + Pow(2, s) * c) % n, s, n)
    decreases l
  {
    if l == 0 {
      assert c == 0 && Pow(2, s) * c == 0;
      DivModIs(i, 0, i, n);
      w := [i];
    } else {
      var next := if c % 2 == 1 then Target(i, s, n) else i;
      var rest := BitWalk(next, c / 2, l - 1, s + 1, n);
      w := [i] + rest;
      BitStep(i, c, s, n);
      PrependStep(i, rest, s, n);
    }
  }

  lemma LandsOn(i: int, j: int, sum: int, k: int, n: nat)
    requires n > 0 && 0 <= j < n && sum == (j - i) % n + k * n
    ensures (i + sum) % n == j
  {
    ModShift((j - i) % n, k, n);
    ModMod(j - i, n);
    ModAdd(sum, j - i, i, n);
    DivModIs(j, 0, j, n);
  }

  /** Over an odd n up to the limit, any ceil(log2 n) consecutive rounds connect every two nodes. */
  lemma CoveringWalk(i: int, j: int, s: nat, n: nat) returns (w: seq<int>)
    requires Mixes(n) && 0 <= i < n && 0 <= j < n
    ensures |w| == CeilLog2(n) + 1 && WalkFromTo(w, i, j, s, n)
  {
    var d := (j - i) % n;
    var c, k := DivideByPowerOfTwo(d, s, n);
    w := BitWalk(i, c, CeilLog2(n), s, n);
    LandsOn(i, j, Pow(2, s) * c, k, n);
  }

  ghost predicate Connected(i: int, j: int, s: nat, n: nat)
    requires n >= 2
  {
    exists w :: |w| == CeilLog2(n) + 1 && WalkFromTo(w, i, j, s, n)
  }

  ghost predicate Covers(n: nat)
    requires n >= 2
  {
    forall i, j, s: nat :: 0 <= i < n && 0 <= j < n ==> Connected(i, j, s, n)
  }

  lemma EvenModulus(x: int, n: nat)
    requires n >= 2 && n % 2 == 0
    ensures (x % n) % 2 == x % 2
  {
    var q := x / n;
    assert x == q * n + x % n;
    MulAssoc(q, n / 2, 2);
    ModShift(x % n, q * (n / 2), 2);
  }

  lemma AddEven(i: int, o: int, n: nat)
    requires n >= 2 && n % 2 == 0 && o % 2 == 0
    ensures ((i + o) % n) % 2 == i % 2
  {
    EvenModulus(i + o, n);
  }

  lemma EvenProduct(a: int, b: int)
    requires b % 2 == 0
    ensures (a * b) % 2 == 0
  {
    MulAssoc(a, b / 2, 2);
    ModShift(0, a * (b / 2), 2);
  }

  lemma {:induction false} WrappedStaysEven(result: nat, num: nat, pow: nat, mod: nat)
    requires mod >= 2 && mod % 2 == 0 && num % 2 == 0 && pow > 0
    ensures WrappedPow(result, num, pow, mod) % 2 == 0
    decreases pow, 0
  {
    var next := if pow % 2 == 1 then (result * num) % mod else result;
    var square := ((num * num) % TWO_TO_32) % mod;
    EvenProduct(num, num);
    EvenModulus(num * num, TWO_TO_32);
    EvenModulus((num * num) % TWO_TO_32, mod);
    if pow % 2 == 1 {
      EvenProduct(result, num);
      EvenModulus(result * num, mod);
      EvenStays(next, square, pow / 2, mod);
    } else {
      WrappedStaysEven(next, square, pow / 2, mod);
    }
  }

  lemma {:induction false} EvenStays(result: nat, num: nat, pow: nat, mod: nat)
    requires mod >= 2 && mod % 2 == 0 && num % 2 == 0 && result % 2 == 0
    ensures WrappedPow(result, num, pow, mod) % 2 == 0
    decreases pow, 1
  {
    if pow > 0 {
      WrappedStaysEven(result, num, pow, mod);
    }
  }

  /** An even size keeps parity; beyond the limit an odd size does not even move. */
  lemma TargetKeepsParity(i: int, t: nat, n: nat)
    requires n >= 2 && !Mixes(n) && t >= 32 && 0 <= i < n
    ensures Target(i, t, n) % 2 == i % 2
  {
    if n % 2 == 0 {
      WrappedStaysEven(1, 2, t, n);
      AddEven(i, Offset(t, n), n);
    } else {
      WrappedThirtyTwo(t, n);
      DivModIs(i, 0, i, n);
    }
  }

  /** Over other sizes, from round 32 on, no walk ever leaves its parity class. */
  lemma {:induction false} WalkKeepsParity(w: seq<int>, s: nat, n: nat, k: nat)
    requires n >= 2 && !Mixes(n) && s >= 32 && IsWalk(w, s, n) && k < |w|
    ensures w[k] % 2 == w[0] % 2
  {
    if k > 0 {
      WalkKeepsParity(w, s, n, k - 1);
      assert IsStep(w[k - 1], w[(k - 1) + 1], s + (k - 1), n);
      TargetKeepsParity(w[k - 1], s + (k - 1), n);
    }
  }

  /** The window of ceil(log2 n) rounds always connects all pairs exactly when n is odd and within the limit. */
  lemma CoversExactlyWhenMixing(n: nat)
    requires n >= 2
    ensures Covers(n) <==> Mixes(n)
  {
    if Mixes(n) {
      forall i, j, s: nat | 0 <= i < n && 0 <= j < n ensures Connected(i, j, s, n) {
        var w := CoveringWalk(i, j, s, n);
      }
    } else if Covers(n) {
      assert Connected(0, 1, 32, n);
      var w :| |w| == CeilLog2(n) + 1 && WalkFromTo(w, 0, 1, 32, n);
      WalkKeepsParity(w, 32, n, |w| - 1);
    }
  }

  // ----- Contacting everybody once -----

  ghost predicate TwoIsPrimitive(n: nat)
    requires n >= 3
  {
    Pow(2, n - 1) % n == 1 && forall k: nat :: 0 < k < n - 1 ==> Pow(2, k) % n != 1
  }

  lemma PrimitiveIsOdd(n: nat)
    requires n >= 3 && TwoIsPrimitive(n)
    ensures n % 2 == 1
  {
    assert Pow(2, n - 1) == 2 * Pow(2, n - 2);
    if n % 2 == 0 {
      EvenModulus(Pow(2, n - 1), n);
    }
  }

  /** Equal powers of two, a rounds apart, give a power of two that is 1. */
  lemma CancelPowers(a: nat, d: nat, n: nat)
    requires n % 2 == 1 && n >= 3 && Pow(2, a + d) % n == Pow(2, a) % n
    ensures Pow(2, d) % n == 1
  {
    var c, k := DivideByPowerOfTwo(1, a, n);
    PowAdd(2, a, d);
    ModMul(Pow(2, a + d), Pow(2, a), c, n);
    var x, y := Pow(2, a), Pow(2, d);
    MulSwap(x, y, c);
    Distribute(1, k * n, y);
    MulSwap(k, n, y);
    ModShift(y, k * y, n);
    ModShift(1, k, n);
    DivModIs(1, 0, 1, n);
  }

  /** Node i sends to j in one of the n - 1 rounds from start on. */
  ghost predicate Contacted(i: int, j: int, start: nat, n: nat)
    requires n > 0
  {
    exists t: nat :: start <= t < start + n - 1 && Target(i, t, n) == j
  }

  lemma PowersDiffer(t: nat, u: nat, n: nat)
    requires n >= 3 && TwoIsPrimitive(n) && t < u < t + n - 1
    ensures Pow(2, t) % n != Pow(2, u) % n
  {
    PrimitiveIsOdd(n);
    if Pow(2, t) % n == Pow(2, u) % n {
      CancelPowers(t, u - t, n);
    }
  }

  function Residues(start: nat, count: nat, n: nat): (r: seq<int>)
    requires n > 0
    ensures |r| == count
    ensures forall k :: 0 <= k < count ==> r[k] == Pow(2, start + k) % n && 0 <= r[k] < n
  {
    if count == 0 then [] else Residues(start, count - 1, n) + [Pow(2, start + count - 1) % n]
  }

  lemma PowerNotZero(e: nat, n: nat)
    requires n % 2 == 1 && n >= 3
    ensures Pow(2, e) % n != 0
  {
    if Pow(2, e) % n == 0 {
      var c, k := DivideByPowerOfTwo(1, e, n);
      DivModIs(0, 0, 0, n);
      ModMul(Pow(2, e), 0, c, n);
      ModShift(1, k, n);
      DivModIs(1, 0, 1, n);
    }
  }

  /** Every nonzero residue is a power of two in any n - 1 consecutive rounds. */
  lemma RoundWithOffset(d: int, start: nat, n: nat) returns (t: nat)
    requires n >= 3 && TwoIsPrimitive(n) && 1 <= d < n
    ensures start <= t < start + n - 1 && Pow(2, t) % n == d
  {
    PrimitiveIsOdd(n);
    var offsets := Residues(start, n - 1, n);
    forall k | 0 <= k < n - 1 ensures 1 <= offsets[k] < n {
      PowerNotZero(start + k, n);
    }
    forall k, l | 0 <= k < l < n - 1 ensures offsets[k] != offsets[l] {
      PowersDiffer(start + k, start + l, n);
    }
    DistinctCovers(offsets, 1, n);
    assert d in offsets;
    var k :| 0 <= k < n - 1 && offsets[k] == d;
    t := start + k;
  }

  lemma NonzeroDifference(i: int, j: int, n: nat)
    requires 0 <= i < n && 0 <= j < n && i != j
    ensures 1 <= (j - i) % n < n
  {
    if j > i {
      DivModIs(j - i, 0, j - i, n);
    } else {
      DivModIs(j - i, -1, j - i + n, n);
    }
  }

  lemma TargetByOffset(i: int, j: int, round: nat, n: nat)
    requires 0 <= i < n <= POWER_LIMIT && 0 <= j < n
    ensures Target(i, round, n) == j <==> Pow(2, round) % n == (j - i) % n
  {
    var p := Pow(2, round);
    TargetIsPower(i, round, n);
    ModMod(i + p, n);
    DivModIs(j, 0, j, n);
    if Target(i, round, n) == j {
      ModAdd(i + p, j, -i, n);
    }
    if p % n == (j - i) % n {
      ModAdd(p, j - i, i, n);
    }
  }

  /** With 2 primitive, n - 1 consecutive rounds contact every other node exactly once. */
  lemma ContactsEveryOtherOnce(i: int, start: nat, n: nat)
    requires 3 <= n <= POWER_LIMIT && TwoIsPrimitive(n) && 0 <= i < n
    ensures forall j :: 0 <= j < n && j != i ==> Contacted(i, j, start, n)
    ensures forall t: nat :: start <= t < start + n - 1 ==> Target(i, t, n) != i
    ensures forall t: nat, u: nat :: start <= t < u < start + n - 1 ==> Target(i, t, n) != Target(i, u, n)
  {
    PrimitiveIsOdd(n);
    forall j | 0 <= j < n && j != i ensures Contacted(i, j, start, n) {
      NonzeroDifference(i, j, n);
      var t := RoundWithOffset((j - i) % n, start, n);
      TargetByOffset(i, j, t, n);
    }
    forall t: nat | start <= t < start + n - 1 ensures Target(i, t, n) != i {
      TargetByOffset(i, i, t, n);
      PowerNotZero(t, n);
      DivModIs(0, 0, 0, n);
    }
    forall t: nat, u: nat | start <= t < u < start + n - 1 ensures Target(i, t, n) != Target(i, u, n) {
      TargetByOffset(i, Target(i, t, n), t, n);
      TargetByOffset(i, Target(i, t, n), u, n);
      PowersDiffer(t, u, n);
    }
  }

  // ----- Two of the sizes -----

  /** The a-th power of two leaves the remainder x, and none from the first up to it leaves 1. */
  ghost predicate NotYetOne(a: nat, x: nat, n: nat)
    requires n > 0
  {
    Pow(2, a) % n == x && forall k: nat :: 0 < k < a ==> Pow(2, k) % n != 1
  }

  function Doubled(x: nat, n: nat): nat
    requires x < n
  {
    if 2 * x < n then 2 * x else 2 * x - n
  }

  lemma OnePowerMore(a: nat, x: nat, n: nat)
    requires n > 0 && x < n && NotYetOne(a, x, n) && (a > 0 ==> x != 1)
    ensures NotYetOne(a + 1, Doubled(x, n), n)
  {
    DivModIs(x, 0, x, n);
    ModMul(Pow(2, a), x, 2, n);
    DivModIs(2 * x, if 2 * x < n then 0 else 1, Doubled(x, n), n);
    assert Pow(2, a + 1) == Pow(2, a) * 2;
  }

  lemma FivePowersMore(a: nat, x: nat, n: nat)
    requires n > 0 && a > 0 && x < n && NotYetOne(a, x, n)
    requires var y := Doubled(x, n);
             var z := Doubled(y, n);
             x != 1 && y != 1 && z != 1 && Doubled(z, n) != 1 && Doubled(Doubled(z, n), n) != 1
    ensures NotYetOne(a + 5, Doubled(Doubled(Doubled(Doubled(Doubled(x, n), n), n), n), n), n)
  {
    var y := Doubled(x, n);
    var z := Doubled(y, n);
    OnePowerMore(a, x, n);
    OnePowerMore(a + 1, y, n);
    OnePowerMore(a + 2, z, n);
    OnePowerMore(a + 3, Doubled(z, n), n);
    OnePowerMore(a + 4, Doubled(Doubled(z, n), n), n);
  }

  lemma TwoIsPrimitiveModulo29()
    ensures TwoIsPrimitive(29)
  {
    OnePowerMore(0, 1, 29);
    FivePowersMore(1, 2, 29);
    FivePowersMore(6, 6, 29);
    FivePowersMore(11, 18, 29);
    FivePowersMore(16, 25, 29);
    FivePowersMore(21, 17, 29);
    OnePowerMore(26, 22, 29);
    OnePowerMore(27, 15, 29);
  }

  lemma TwoIsPrimitiveModulo37()
    ensures TwoIsPrimitive(37)
  {
    OnePowerMore(0, 1, 37);
    FivePowersMore(1, 2, 37);
    FivePowersMore(6, 27, 37);
    FivePowersMore(11, 13, 37);
    FivePowersMore(16, 9, 37);
    FivePowersMore(21, 29, 37);
    FivePowersMore(26, 3, 37);
    FivePowersMore(31, 22, 37);
  }
}
