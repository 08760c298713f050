/** Primes: Euclid's lemma, Fermat's little theorem, and residues modulo a product of two primes. */
module Fermat {
  import opened NumberTheory

  predicate Divides(d: int, x: int)
    requires d > 0
  {
    x % d == 0
  }

  ghost predicate Prime(p: nat) {
    p >= 2 && forall d :: 2 <= d < p ==> !Divides(d, p)
  }

  lemma DividesProduct(d: int, k: int)
    requires d > 0
    ensures Divides(d, k * d) && Divides(d, d * k)
  {
    ModShift(0, k, d);
    assert d * k == k * d;
  }

  lemma Cofactor(d: int, x: int) returns (k: int)
    requires d > 0 && Divides(d, x)
    ensures x == k * d
  {
    k := x / d;
  }

  lemma DividesDifference(d: int, x: int, y: int)
    requires d > 0 && Divides(d, x) && Divides(d, y)
    ensures Divides(d, x - y)
  {
    var k := Cofactor(d, x);
    var l := Cofactor(d, y);
    Distribute(k, -l, d);
    assert (k - l) * d == x - y;
    DividesProduct(d, k - l);
  }

  lemma {:induction false} EuclidBelow(p: nat, a: nat, b: int)
    requires Prime(p) && 0 < a < p && Divides(p, a * b)
    ensures Divides(p, b)
    decreases a
  {
    if a > 1 {
      assert !Divides(a, p);
      var q, r := p / a, p % a;
      assert p == q * a + r;
      MulOfDifference(p, r, b, q, a);
      assert r * b == p * b - (q * b) * a;
      assert (q * b) * a == q * (a * b) by {
        MulAssoc(q, a, b);
        MulSwap(q, b, a);
      }
      DividesProduct(p, b);
      var k := Cofactor(p, a * b);
      MulAssoc(q, k, p);
      DividesProduct(p, q * k);
      DividesDifference(p, p * b, q * (a * b));
      EuclidBelow(p, r, b);
    }
  }

  /** A prime that divides a product divides a factor. */
  lemma Euclid(p: nat, a: int, b: int)
    requires Prime(p) && Divides(p, a * b)
    ensures Divides(p, a) || Divides(p, b)
  {
    if !Divides(p, a) {
      ModMod(a, p);
      ModMul(a % p, a, b, p);
      EuclidBelow(p, a % p, b);
    }
  }

  lemma SameModDivides(x: int, y: int, m: int)
    requires m > 0
    ensures x % m == y % m <==> Divides(m, x - y)
  {
    if x % m == y % m {
      var k := SameModDiffer(x, y, m);
      DividesProduct(m, k);
    } else if Divides(m, x - y) {
      var k := Cofactor(m, x - y);
      ModShift(y, k, m);
    }
  }

  /** Factors prime to p may be cancelled modulo p. */
  lemma Cancel(p: nat, x: int, y: int, w: int)
    requires Prime(p) && !Divides(p, w) && (x * w) % p == (y * w) % p
    ensures x % p == y % p
  {
    SameModDivides(x * w, y * w, p);
    Distribute(x, -y, w);
    assert x * w - y * w == (x - y) * w;
    Euclid(p, x - y, w);
    SameModDivides(x, y, p);
  }

  // ----- Fermat's little theorem -----

  function Product(s: seq<int>): int {
    if s == [] then 1 else s[0] * Product(s[1..])
  }

  lemma {:induction false} ProductWithout(s: seq<int>, i: nat)
    requires i < |s|
    ensures Product(s) == s[i] * Product(s[..i] + s[i + 1..])
    decreases i
  {
    if i == 0 {
      assert s[..0] + s[1..] == s[1..];
    } else {
      var rest := s[..i] + s[i + 1..];
      ProductWithout(s[1..], i - 1);
      assert s[1..][..i - 1] + s[1..][i..] == rest[1..];
      assert s[1..][i - 1] == s[i];
      MulAssoc(s[0], s[i], Product(rest[1..]));
      MulAssoc(s[i], s[0], Product(rest[1..]));
    }
  }

  lemma BagWithout(s: seq<int>, i: nat)
    requires i < |s|
    ensures multiset(s[..i] + s[i + 1..]) == multiset(s) - multiset{s[i]}
  {
    assert s == s[..i] + [s[i]] + s[i + 1..];
  }

  /** Where a permutation of a list has its first factor; without it the rest is a permutation of the rest. */
  lemma FirstFactorIn(s: seq<int>, t: seq<int>) returns (i: nat)
    requires s != [] && multiset(s) == multiset(t)
    ensures i < |t| && t[i] == s[0] && multiset(s[1..]) == multiset(t[..i] + t[i + 1..])
  {
    assert s[0] in multiset(t);
    i :| 0 <= i < |t| && t[i] == s[0];
    BagWithout(t, i);
    BagWithout(s, 0);
    assert s[..0] + s[1..] == s[1..];
  }

  /** A product does not depend on the order of its factors. */
  lemma {:induction false} ProductPermutes(s: seq<int>, t: seq<int>)
    requires multiset(s) == multiset(t)
    ensures Product(s) == Product(t)
    decreases |s|
  {
    if s == [] {
      assert |t| == |multiset(t)| == 0;
    } else {
      var i := FirstFactorIn(s, t);
      ProductPermutes(s[1..], t[..i] + t[i + 1..]);
      ProductWithout(t, i);
    }
  }

  /** k, k - 1, ..., 1 */
  function Down(k: nat): (s: seq<int>)
    ensures |s| == k && forall i :: 0 <= i < k ==> s[i] == k - i
  {
    if k == 0 then [] else [k] + Down(k - 1)
  }

  /** The residues of a k, a (k - 1), ..., a modulo p. */
  function Scaled(a: int, p: nat, k: nat): (s: seq<int>)
    requires p > 0
    ensures |s| == k && forall i :: 0 <= i < k ==> s[i] == (a * (k - i)) % p
  {
    if k == 0 then [] else [(a * k) % p] + Scaled(a, p, k - 1)
  }

  lemma {:induction false} ScaledProduct(a: nat, p: nat, k: nat)
    requires p > 0
    ensures Product(Scaled(a, p, k)) % p == (Pow(a, k) * Product(Down(k))) % p
  {
    if k > 0 {
      ScaledProduct(a, p, k - 1);
      var x, y := Product(Scaled(a, p, k - 1)), Pow(a, k - 1) * Product(Down(k - 1));
      assert Scaled(a, p, k)[1..] == Scaled(a, p, k - 1) && Down(k)[1..] == Down(k - 1);
      ModMod(a * k, p);
      ModMul((a * k) % p, a * k, x, p);
      ModMul(x, y, a * k, p);
      Regroup(a, k, Pow(a, k - 1), Product(Down(k - 1)));
      assert x * (a * k) == (a * k) * x && y * (a * k) == (a * k) * y;
    }
  }

  lemma SmallFactor(p: nat, k: nat, x: int)
    requires Prime(p) && 1 <= k < p && !Divides(p, x)
    ensures !Divides(p, k * x)
  {
    if Divides(p, k * x) {
      Euclid(p, k, x);
      DivModIs(k, 0, k, p);
    }
  }

  lemma {:induction false} DownNotDivisible(p: nat, k: nat)
    requires Prime(p) && k < p
    ensures !Divides(p, Product(Down(k)))
  {
    if k > 0 {
      DownNotDivisible(p, k - 1);
      assert Down(k)[1..] == Down(k - 1);
      SmallFactor(p, k, Product(Down(k - 1)));
    }
  }

  lemma ScaledNonzero(a: int, p: nat, x: int)
    requires Prime(p) && !Divides(p, a) && 1 <= x < p
    ensures 1 <= (a * x) % p < p
  {
    if Divides(p, a * x) {
      Euclid(p, a, x);
      DivModIs(x, 0, x, p);
    }
  }

  lemma ScaledApart(a: int, p: nat, x: int, y: int)
    requires Prime(p) && !Divides(p, a) && 1 <= x < p && 1 <= y < p && x != y
    ensures (a * x) % p != (a * y) % p
  {
    if (a * x) % p == (a * y) % p {
      assert a * x == x * a && a * y == y * a;
      Cancel(p, x, y, a);
      DivModIs(x, 0, x, p);
      DivModIs(y, 0, y, p);
    }
  }

  /** Multiplying by a permutes the nonzero residues. */
  lemma ScaledPermutes(a: int, p: nat)
    requires Prime(p) && !Divides(p, a)
    ensures multiset(Scaled(a, p, p - 1)) == multiset(Range(1, p))
  {
    var s := Scaled(a, p, p - 1);
    forall i | 0 <= i < |s| ensures 1 <= s[i] < p {
      ScaledNonzero(a, p, p - 1 - i);
    }
    forall i, j | 0 <= i < j < |s| ensures s[i] != s[j] {
      ScaledApart(a, p, p - 1 - i, p - 1 - j);
    }
    DistinctCovers(s, 1, p);
  }

  lemma ProductUnchanged(a: nat, p: nat)
    requires Prime(p) && !Divides(p, a)
    ensures (Pow(a, p - 1) * Product(Down(p - 1))) % p == Product(Down(p - 1)) % p
  {
    ScaledPermutes(a, p);
    DistinctCovers(Down(p - 1), 1, p);
    ProductPermutes(Scaled(a, p, p - 1), Down(p - 1));
    ScaledProduct(a, p, p - 1);
  }

  /** Fermat's little theorem. */
  lemma LittleTheorem(a: nat, p: nat)
    requires Prime(p) && !Divides(p, a)
    ensures Pow(a, p - 1) % p == 1
  {
    ProductUnchanged(a, p);
    DownNotDivisible(p, p - 1);
    Cancel(p, Pow(a, p - 1), 1, Product(Down(p - 1)));
    DivModIs(1, 0, 1, p);
  }

  // ----- The exponents of a key -----

  lemma PowMultiple(a: nat, p: nat, e: nat)
    requires p > 0 && e > 0 && Divides(p, a)
    ensures Divides(p, Pow(a, e))
  {
    var k := Cofactor(p, a);
    var x := Pow(a, e - 1);
    MulSwap(k, p, x);
    DividesProduct(p, k * x);
  }

  lemma {:induction false} PowOfOne(e: nat)
    ensures Pow(1, e) == 1
  {
    if e > 0 {
      PowOfOne(e - 1);
    }
  }

  lemma PowCycle(m: nat, p: nat, t: nat, k: nat)
    requires p >= 2 && Pow(m, t) % p == 1
    ensures Pow(m, 1 + t * k) % p == m % p
  {
    PowAdd(m, 1, t * k);
    PowMul(m, t, k);
    DivModIs(1, 0, 1, p);
    ModPowCong(Pow(m, t), 1, k, p);
    PowOfOne(k);
    ModMul(Pow(m, t * k), 1, m, p);
    assert Pow(m, 1) == m * Pow(m, 0) == m;
    assert Pow(m, t * k) * m == m * Pow(m, t * k);
  }

  /** Raising to an exponent that is 1 modulo p - 1 changes nothing modulo the prime p. */
  lemma ExponentOneModulo(m: nat, p: nat, t: nat, k: nat)
    requires Prime(p) && t == p - 1
    ensures Pow(m, 1 + t * k) % p == m % p
  {
    if Divides(p, m) {
      PowMultiple(m, p, 1 + t * k);
    } else {
      LittleTheorem(m, p);
      PowCycle(m, p, t, k);
    }
  }

  lemma OtherPrime(p: nat, q: nat)
    requires Prime(p) && Prime(q) && p != q
    ensures !Divides(q, p)
  {
    if Divides(q, p) {
      assert q > p;
      DivModIs(p, 0, p, q);
    }
  }

  /** Numbers that agree modulo two different primes agree modulo their product. */
  lemma AgreeModuloProduct(x: int, y: int, p: nat, q: nat)
    requires Prime(p) && Prime(q) && p != q && x % p == y % p && x % q == y % q
    ensures x % (p * q) == y % (p * q)
  {
    SameModDivides(x, y, p);
    SameModDivides(x, y, q);
    var k := Cofactor(p, x - y);
    Euclid(q, k, p);
    if Divides(q, p) {
      OtherPrime(p, q);
      assert false;
    }
    var l := Cofactor(q, k);
    MulSwap(l, q, p);
    MulAssoc(l, p, q);
    DividesProduct(p * q, l);
    SameModDivides(x, y, p * q);
  }

  /** Exponents that are inverse modulo p - 1 and modulo q - 1, that is, modulo their least common multiple. */
  ghost predicate InverseExponents(e: nat, d: nat, p: nat, q: nat) {
    p >= 2 && q >= 2 && (e * d) % (p - 1) == 1 % (p - 1) && (e * d) % (q - 1) == 1 % (q - 1)
  }

  lemma MulSign(j: int, t: nat)
    requires t >= 1 && j * t >= 0
    ensures j >= 0
  {
    if j < 0 {
      MulMonotone(j, -1, t);
    }
  }

  lemma ExponentIsOnePlus(x: nat, t: nat) returns (k: nat)
    requires t >= 1 && x >= 1 && x % t == 1 % t
    ensures x == 1 + t * k
  {
    var j := SameModDiffer(x, 1, t);
    assert x - 1 == j * t;
    MulSign(j, t);
    k := j;
    assert t * k == j * t;
  }

  lemma OneLeftOver(x: nat, s: nat, t: nat)
    requires s >= 1 && t >= 1 && s != t && x % s == 1 % s && x % t == 1 % t
    ensures x >= 1
  {
    if x == 0 {
      DivModIs(1, 0, 1, if s > 1 then s else t);
      DivModIs(0, 0, 0, if s > 1 then s else t);
    }
  }

  lemma ExponentKeepsModulo(m: nat, p: nat, x: nat)
    requires Prime(p) && x >= 1 && x % (p - 1) == 1 % (p - 1)
    ensures Pow(m, x) % p == m % p
  {
    var k := ExponentIsOnePlus(x, p - 1);
    ExponentOneModulo(m, p, p - 1, k);
  }

  /** The correctness of RSA: e after d is the identity modulo p q, also on numbers that share a factor with p q. */
  lemma ExponentsInverse(m: nat, p: nat, q: nat, e: nat, d: nat)
    requires Prime(p) && Prime(q) && p != q && InverseExponents(e, d, p, q)
    ensures Pow(Pow(m, d), e) % (p * q) == m % (p * q)
  {
    var x := e * d;
    OneLeftOver(x, p - 1, q - 1);
    ExponentKeepsModulo(m, p, x);
    ExponentKeepsModulo(m, q, x);
    AgreeModuloProduct(Pow(m, x), m, p, q);
    PowMul(m, d, e);
    assert d * e == x;
  }
}
