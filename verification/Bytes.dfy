/** Numbers as byte strings, in both byte orders. */
module Bytes {
  import opened NumberTheory

  type Byte = x: nat | x < 256

  /** The number a byte string spells, most significant byte first. */
  function FromBytes(bs: seq<Byte>): nat
    decreases |bs|
  {
    if bs == [] then 0 else 256 * FromBytes(bs[..|bs| - 1]) + bs[|bs| - 1]
  }

  function ToBytes(x: nat, size: nat): (bs: seq<Byte>)
    ensures |bs| == size
  {
    if size == 0 then [] else ToBytes(x / 256, size - 1) + [x % 256]
  }

  lemma {:induction false} FromToBytes(x: nat, size: nat)
    requires x < Pow(256, size)
    ensures FromBytes(ToBytes(x, size)) == x
    decreases size
  {
    if size > 0 {
      assert Pow(256, size) == 256 * Pow(256, size - 1);
      FromToBytes(x / 256, size - 1);
      var bs := ToBytes(x, size);
      assert bs[..|bs| - 1] == ToBytes(x / 256, size - 1);
    }
  }

  lemma {:induction false} ToFromBytes(bs: seq<Byte>)
    ensures FromBytes(bs) < Pow(256, |bs|) && ToBytes(FromBytes(bs), |bs|) == bs
    decreases |bs|
  {
    if bs != [] {
      ToFromBytes(bs[..|bs| - 1]);
      assert Pow(256, |bs|) == 256 * Pow(256, |bs| - 1);
      assert bs == bs[..|bs| - 1] + [bs[|bs| - 1]];
    }
  }

  lemma {:induction false} FirstByteCountsMost(first: Byte, rest: seq<Byte>)
    ensures FromBytes([first] + rest) == first * Pow(256, |rest|) + FromBytes(rest)
    decreases |rest|
  {
    var bs := [first] + rest;
    if rest == [] {
      assert bs[..0] == [] && FromBytes(bs[..|bs| - 1]) == 0;
    } else {
      var init := rest[..|rest| - 1];
      assert bs[..|bs| - 1] == [first] + init;
      FirstByteCountsMost(first, init);
      assert Pow(256, |rest|) == 256 * Pow(256, |init|);
      MulSwap(256, first, Pow(256, |init|));
      Distribute(first * Pow(256, |init|), FromBytes(init), 256);
    }
  }

  // ----- Least significant byte first: integers copied from memory -----

  function Little(x: nat, size: nat): (bs: seq<Byte>)
    ensures |bs| == size
  {
    if size == 0 then [] else [x % 256] + Little(x / 256, size - 1)
  }

  function FromLittle(bs: seq<Byte>): nat {
    if bs == [] then 0 else bs[0] + 256 * FromLittle(bs[1..])
  }

  lemma {:induction false} FromLittleLittle(x: nat, size: nat)
    requires x < Pow(256, size)
    ensures FromLittle(Little(x, size)) == x
    decreases size
  {
    if size > 0 {
      assert Pow(256, size) == 256 * Pow(256, size - 1);
      FromLittleLittle(x / 256, size - 1);
      assert Little(x, size)[1..] == Little(x / 256, size - 1);
    }
  }
}
