/** Contributions and how an aggregate function combines their records. */
module Contributions {

  /** The data type a deployment collects. */
  type Record(!new, ==, 0)

  /** A record with the proxies its owner chose and the utility's signature on both. */
  datatype Contribution = Contribution(value: Record, proxies: seq<int>, signature: int)

  /** An aggregate function over lists of records that comes from a binary one. */
  datatype Aggregator = Aggregator(combine: (Record, Record) -> Record, unit: Record) {
    ghost predicate Commutes(x: Record, y: Record) {
      combine(x, y) == combine(y, x)
    }

    ghost predicate Associates(x: Record, y: Record, z: Record) {
      combine(x, combine(y, z)) == combine(combine(x, y), z)
    }

    ghost predicate IsUnitFor(x: Record) {
      combine(x, unit) == x && combine(unit, x) == x
    }

    /** The binary function is a commutative monoid. */
    ghost predicate Lawful() {
      && (forall x, y :: Commutes(x, y))
      && (forall x, y, z :: Associates(x, y, z))
      && (forall x :: IsUnitFor(x))
    }

    function Aggregate(values: seq<Record>): Record {
      if values == [] then unit else combine(values[0], Aggregate(values[1..]))
    }

    /** The aggregate of a bag of contributions, in no particular order. */
    ghost function Total(bag: multiset<Contribution>): Record
      decreases |bag|
    {
      if bag == multiset{} then unit else
        var c :| c in bag;
        combine(c.value, Total(bag - multiset{c}))
    }
  }

  lemma SwapFirst(a: Aggregator, x: Record, y: Record, z: Record)
    requires a.Lawful()
    ensures a.combine(x, a.combine(y, z)) == a.combine(y, a.combine(x, z))
  {
    assert a.Associates(x, y, z) && a.Associates(y, x, z) && a.Commutes(x, y);
  }

  /** Which contribution is taken first makes no difference. */
  lemma {:induction false} TotalAdd(a: Aggregator, bag: multiset<Contribution>, c: Contribution)
    requires a.Lawful()
    ensures a.Total(bag + multiset{c}) == a.combine(c.value, a.Total(bag))
    decreases |bag|
  {
    var all := bag + multiset{c};
    var d :| d in all && a.Total(all) == a.combine(d.value, a.Total(all - multiset{d}));
    if d == c {
      assert all - multiset{d} == bag;
    } else {
      var rest := bag - multiset{d};
      assert all - multiset{d} == rest + multiset{c};
      assert bag == rest + multiset{d};
      TotalAdd(a, rest, c);
      TotalAdd(a, rest, d);
      SwapFirst(a, d.value, c.value, a.Total(rest));
    }
  }

  /** The aggregate of two bags together is the combination of their aggregates. */
  lemma {:induction false} TotalUnion(a: Aggregator, b: multiset<Contribution>, c: multiset<Contribution>)
    requires a.Lawful()
    ensures a.Total(b + c) == a.combine(a.Total(b), a.Total(c))
    decreases |b|
  {
    if b == multiset{} {
      assert b + c == c;
      assert a.IsUnitFor(a.Total(c));
    } else {
      var x :| x in b;
      var rest := b - multiset{x};
      assert b == rest + multiset{x} && b + c == (rest + c) + multiset{x};
      TotalUnion(a, rest, c);
      TotalAdd(a, rest, x);
      TotalAdd(a, rest + c, x);
      assert a.Associates(x.value, a.Total(rest), a.Total(c));
    }
  }

  function Values(cs: seq<Contribution>): (r: seq<Record>)
    ensures |r| == |cs| && forall k :: 0 <= k < |cs| ==> r[k] == cs[k].value
  {
    seq(|cs|, k requires 0 <= k < |cs| => cs[k].value)
  }

  lemma HeadOfBag(cs: seq<Contribution>)
    requires cs != []
    ensures multiset(cs) == multiset(cs[1..]) + multiset{cs[0]}
  {
    assert cs == [cs[0]] + cs[1..];
  }

  /** Aggregating a list of contributions gives the aggregate of its bag. */
  lemma {:induction false} AggregateIsTotal(a: Aggregator, cs: seq<Contribution>)
    requires a.Lawful()
    ensures a.Aggregate(Values(cs)) == a.Total(multiset(cs))
    decreases |cs|
  {
    if cs != [] {
      var rest := cs[1..];
      AggregateIsTotal(a, rest);
      assert Values(cs)[1..] == Values(rest);
      TotalAdd(a, multiset(rest), cs[0]);
      HeadOfBag(cs);
    }
  }

  lemma {:induction false} AggregateAppend(a: Aggregator, values: seq<Record>, x: Record)
    requires a.Lawful()
    ensures a.Aggregate(values + [x]) == a.combine(a.Aggregate(values), x)
    decreases |values|
  {
    if values == [] {
      assert [x][1..] == [];
      assert a.Commutes(x, a.unit);
    } else {
      assert (values + [x])[1..] == values[1..] + [x];
      AggregateAppend(a, values[1..], x);
      assert a.Associates(values[0], a.Aggregate(values[1..]), x);
    }
  }

  lemma AggregateOfTwo(a: Aggregator, x: Record, y: Record)
    requires a.Lawful()
    ensures a.Aggregate([x, y]) == a.combine(x, y)
  {
    assert [x, y][1..] == [y] && [y][1..] == [];
    assert a.Aggregate([y]) == a.combine(y, a.Aggregate([]));
    assert a.IsUnitFor(y);
  }
}
