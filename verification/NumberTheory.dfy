/** Powers, residues and counting facts the protocol's arithmetic rests on. */
module NumberTheory {
  function Pow(b: nat, e: nat): nat {
    if e == 0 then 1 else b * Pow(b, e - 1)
  }

  lemma MulAssoc(a: int, b: int, c: int)
    ensures a * (b * c) == (a * b) * c
  {
  }

  lemma {:induction false} PowAdd(b: nat, x: nat, y: nat)
    ensures Pow(b, x + y) == Pow(b, x) * Pow(b, y)
  {
    if x == 0 {
      assert Pow(b, 0) == 1;
    } else {
      PowAdd(b, x - 1, y);
      assert Pow(b, x + y) == b * (Pow(b, x - 1) * Pow(b, y));
      assert Pow(b, x) == b * Pow(b, x - 1);
      MulAssoc(b, Pow(b, x - 1), Pow(b, y));
    }
  }

  lemma {:induction false} PowMul(b: nat, x: nat, y: nat)
    ensures Pow(b, x * y) == Pow(Pow(b, x), y)
  {
    if y == 0 {
      assert x * y == 0;
    } else {
      assert x * y == x + x * (y - 1);
      PowAdd(b, x, x * (y - 1));
      PowMul(b, x, y - 1);
    }
  }

  lemma Regroup(a: int, b: int, x: int, y: int)
    ensures a * b * (x * y) == (a * x) * (b * y)
  {
  }

  lemma {:induction false} PowOfProduct(a: nat, b: nat, e: nat)
    ensures Pow(a * b, e) == Pow(a, e) * Pow(b, e)
  {
    if e > 0 {
      PowOfProduct(a, b, e - 1);
      var x, y := Pow(a, e - 1), Pow(b, e - 1);
      assert Pow(a * b, e) == a * b * (x * y);
      Regroup(a, b, x, y);
    }
  }

  lemma MulPositive(a: int, b: int)
    requires a > 0 && b > 0
    ensures a * b > 0
  {
  }

  lemma {:induction false} PowPositive(b: nat, e: nat)
    requires b > 0
    ensures Pow(b, e) > 0
  {
    if e > 0 {
      PowPositive(b, e - 1);
      MulPositive(b, Pow(b, e - 1));
    }
  }

  lemma Distribute(a: int, b: int, c: int)
    ensures (a + b) * c == a * c + b * c
  {
  }

  lemma MulSwap(a: int, b: int, c: int)
    ensures (a * b) * c == (a * c) * b
  {
  }

  lemma MulOfDifference(a: int, b: int, c: int, k: int, m: int)
    requires a == b + k * m
    ensures a * c == b * c + (k * c) * m
  {
    Distribute(b, k * m, c);
    MulSwap(k, m, c);
  }

  lemma MulMonotone(a: int, b: int, c: nat)
    requires a <= b
    ensures a * c <= b * c
  {
  }

  /** The square of a number, as a sum of odd numbers, so that what is said about rounds stays linear. */
  function Square(l: nat): nat {
    if l == 0 then 0 else Square(l - 1) + 2 * l - 1
  }

  lemma {:induction false} SquareIs(l: nat)
    ensures Square(l) == l * l
    decreases l
  {
    if l > 0 {
      SquareIs(l - 1);
      assert (l - 1) * (l - 1) == l * l - 2 * l + 1;
    }
  }

  /** Division is unique: a decomposition with a small remainder is the quotient and remainder. */
  lemma DivModIs(a: int, q: int, r: int, m: int)
    requires m > 0 && a == q * m + r && 0 <= r < m
    ensures a / m == q && a % m == r
  {
    var d := a / m - q;
    assert a == (a / m) * m + a % m;
    assert d * m == r - a % m by {
      assert d * m == (a / m) * m - q * m;
    }
    assert d >= 1 ==> d * m >= m;
    assert d <= -1 ==> d * m <= -m;
  }

  lemma ModShift(x: int, k: int, m: int)
    requires m > 0
    ensures (x + k * m) % m == x % m
  {
    assert x == (x / m) * m + x % m;
    assert (x / m + k) * m == (x / m) * m + k * m;
    DivModIs(x + k * m, x / m + k, x % m, m);
  }

  /** Two numbers with the same remainder differ by a multiple of the modulus. */
  lemma SameModDiffer(a: int, b: int, m: int) returns (k: int)
    requires m > 0 && a % m == b % m
    ensures a == b + k * m
  {
    k := a / m - b / m;
    assert a == (a / m) * m + a % m;
    assert b == (b / m) * m + b % m;
    assert k * m == (a / m) * m - (b / m) * m;
  }

  lemma ModAdd(a: int, b: int, c: int, m: int)
    requires m > 0 && a % m == b % m
    ensures (a + c) % m == (b + c) % m
  {
    var k := SameModDiffer(a, b, m);
    ModShift(b + c, k, m);
  }

  lemma ModMul(a: int, b: int, c: int, m: int)
    requires m > 0 && a % m == b % m
    ensures (a * c) % m == (b * c) % m
  {
    var k := SameModDiffer(a, b, m);
    MulOfDifference(a, b, c, k, m);
    ModShift(b * c, k * c, m);
  }

  lemma ModMod(a: int, m: int)
    requires m > 0
    ensures (a % m) % m == a % m
  {
    DivModIs(a % m, 0, a % m, m);
  }

  lemma {:induction false} ModPowCong(a: nat, b: nat, e: nat, m: nat)
    requires m > 0 && a % m == b % m
    ensures Pow(a, e) % m == Pow(b, e) % m
  {
    if e > 0 {
      ModPowCong(a, b, e - 1, m);
      ModMul(Pow(a, e - 1), Pow(b, e - 1), a, m);
      ModMul(a, b, Pow(b, e - 1), m);
    }
  }

  function LeastPower(n: nat, from: nat): (l: nat)
    requires n >= 1
    requires forall k: nat :: k < from ==> Pow(2, k) < n
    ensures l >= from && Pow(2, l) >= n
    ensures forall k: nat :: k < l ==> Pow(2, k) < n
    decreases n - Pow(2, from)
  {
    if Pow(2, from) >= n then from else
    PowPositive(2, from);
    LeastPower(n, from + 1)
  }

  /** The least exponent whose power of two reaches n: the source's ceil(log2 n). */
  function CeilLog2(n: nat): (l: nat)
    requires n >= 1
    ensures Pow(2, l) >= n
    ensures forall k: nat :: k < l ==> Pow(2, k) < n
  {
    LeastPower(n, 0)
  }

  lemma {:induction false} PowGrows(x: nat, y: nat)
    requires x <= y
    ensures Pow(2, x) <= Pow(2, y)
    decreases y
  {
    if x < y {
      PowGrows(x, y - 1);
    }
  }

  lemma LogIs(n: nat, l: nat)
    requires n >= 1 && l >= 1 && Pow(2, l - 1) < n <= Pow(2, l)
    ensures CeilLog2(n) == l
  {
    if CeilLog2(n) < l {
      PowGrows(CeilLog2(n), l - 1);
    }
  }

  lemma DoubleHalf(p: int, c: int, whole: int)
    requires 2 * c == whole
    ensures (2 * p) * c == p * whole == whole * p
  {
    MulSwap(2, p, c);
  }

  /** Division by a power of two modulo an odd number always succeeds, with a small result. */
  lemma {:induction false} DivideByPowerOfTwo(d: nat, s: nat, n: nat) returns (c: nat, k: int)
    requires n % 2 == 1 && d < n
    ensures c < n && Pow(2, s) * c == d + k * n
  {
    if s == 0 {
      c, k := d, 0;
    } else {
      var c0, k0 := DivideByPowerOfTwo(d, s - 1, n);
      var p := Pow(2, s - 1);
      if c0 % 2 == 0 {
        c, k := c0 / 2, k0;
        DoubleHalf(p, c, c0);
      } else {
        c, k := (c0 + n) / 2, k0 + p;
        DoubleHalf(p, c, c0 + n);
        Distribute(c0, n, p);
        Distribute(k0, p, n);
      }
    }
  }

  /** The numbers lo, lo + 1, ..., hi - 1. */
  function Range(lo: int, hi: int): (s: set<int>)
    ensures forall x :: x in s <==> lo <= x < hi
    decreases hi - lo
  {
    if hi <= lo then {} else Range(lo, hi - 1) + {hi - 1}
  }

  lemma {:induction false} RangeSize(lo: int, hi: int)
    requires lo <= hi
    ensures |Range(lo, hi)| == hi - lo
    decreases hi - lo
  {
    if lo < hi {
      RangeSize(lo, hi - 1);
    }
  }

  lemma {:induction false} SubsetSize<T>(a: set<T>, b: set<T>)
    requires a <= b
    ensures |a| <= |b|
  {
    if x :| x in a {
      SubsetSize(a - {x}, b - {x});
    }
  }

  lemma DifferenceSize<T>(a: set<T>, b: set<T>)
    ensures |a - b| >= |a| - |b|
  {
    assert a == (a - b) + (a * b);
    SubsetSize(a * b, b);
  }

  /** A subset as large as its finite superset is the superset. */
  lemma FullSubset<T>(a: set<T>, b: set<T>)
    requires a <= b && |a| >= |b|
    ensures a == b
  {
    if x :| x in b && x !in a {
      assert a <= b - {x};
      SubsetSize(a, b - {x});
    }
  }

  lemma {:induction false} DistinctSize<T>(s: seq<T>)
    requires forall i, j :: 0 <= i < j < |s| ==> s[i] != s[j]
    ensures |set x | x in s| == |s|
  {
    if |s| > 0 {
      var h := s[..|s| - 1];
      DistinctSize(h);
      assert (set x | x in s) == (set x | x in h) + {s[|s| - 1]};
    }
  }

  lemma {:induction false} DistinctOnce<T>(s: seq<T>, x: T)
    requires forall i, j :: 0 <= i < j < |s| ==> s[i] != s[j]
    ensures multiset(s)[x] == if x in s then 1 else 0
  {
    if |s| > 0 {
      var h := s[..|s| - 1];
      assert s == h + [s[|s| - 1]];
      DistinctOnce(h, x);
    }
  }

  /** Distinct entries drawn from lo..hi, as many as there are numbers, hit every number. */
  lemma DistinctCovers(s: seq<int>, lo: int, hi: int)
    requires lo <= hi && |s| == hi - lo
    requires forall i :: 0 <= i < |s| ==> lo <= s[i] < hi
    requires forall i, j :: 0 <= i < j < |s| ==> s[i] != s[j]
    ensures forall x :: lo <= x < hi ==> x in s
    ensures multiset(s) == multiset(Range(lo, hi))
  {
    DistinctSize(s);
    RangeSize(lo, hi);
    var elems := set x | x in s;
    FullSubset(elems, Range(lo, hi));
    forall x | lo <= x < hi ensures x in s {
      assert x in Range(lo, hi);
    }
    forall x ensures multiset(s)[x] == multiset(Range(lo, hi))[x] {
      DistinctOnce(s, x);
      assert x in elems <==> x in s;
    }
  }

  lemma UnionSize<T>(a: set<T>, b: set<T>)
    ensures |a + b| <= |a| + |b|
  {
    assert a + b == a + (b - a);
    SubsetSize(b - a, b);
  }

  lemma {:induction false} ClimbsByOne(s: seq<int>, k: nat)
    requires k < |s| && s[0] >= 0 && forall i: nat :: i + 1 < |s| ==> s[i] + 1 <= s[i + 1]
    ensures s[k] >= k
    decreases k
  {
    if k > 0 {
      ClimbsByOne(s, k - 1);
      assert s[k - 1] + 1 <= s[(k - 1) + 1];
    }
  }

  // ----- The values of a function on a table of arguments -----

  function Row<T>(f: (int, int) -> T, i: int, columns: nat): (r: set<T>)
    ensures |r| <= columns
    decreases columns
  {
    if columns == 0 then {} else Row(f, i, columns - 1) + {f(i, columns - 1)}
  }

  function Table<T>(f: (int, int) -> T, rows: nat, columns: nat): set<T>
    decreases rows
  {
    if rows == 0 then {} else Table(f, rows - 1, columns) + Row(f, rows - 1, columns)
  }

  lemma {:induction false} TableSize<T>(f: (int, int) -> T, rows: nat, columns: nat)
    ensures |Table(f, rows, columns)| <= rows * columns
    decreases rows
  {
    if rows > 0 {
      TableSize(f, rows - 1, columns);
      UnionSize(Table(f, rows - 1, columns), Row(f, rows - 1, columns));
      Distribute(rows - 1, 1, columns);
    }
  }

  lemma {:induction false} InRow<T>(f: (int, int) -> T, i: int, columns: nat, t: nat)
    requires t < columns
    ensures f(i, t) in Row(f, i, columns)
    decreases columns
  {
    if t < columns - 1 {
      InRow(f, i, columns - 1, t);
    }
  }

  lemma {:induction false} InTable<T>(f: (int, int) -> T, rows: nat, columns: nat, i: nat, t: nat)
    requires i < rows && t < columns
    ensures f(i, t) in Table(f, rows, columns)
    decreases rows
  {
    if i == rows - 1 {
      InRow(f, i, columns, t);
    } else {
      InTable(f, rows - 1, columns, i, t);
    }
  }
}
