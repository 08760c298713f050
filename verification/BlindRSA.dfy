/** Blind RSA signatures: blinding, signing, unblinding, and the byte strings they travel in. */
module BlindRSA {
  import opened Bytes
  import opened Fermat
  import opened NumberTheory
  import opened Results

  // ----- Keys and the three operations on residues -----

  /** Modulus, exponent, and the length of the modulus in bytes. */
  datatype PublicKey = PublicKey(n: nat, e: nat, size: nat) {
    ghost predicate Valid() {
      n >= 2 && size >= 1 && Pow(256, size - 1) <= n < Pow(256, size)
    }
  }

  datatype SecretKey = SecretKey(pub: PublicKey, p: nat, q: nat, d: nat) {
    ghost predicate Valid() {
      && pub.Valid() && Prime(p) && Prime(q) && p != q && pub.n == p * q
      && InverseExponents(pub.e, d, p, q)
    }
  }

  /** A key with the primes 5 and 11, whose exponents are inverse modulo 20 but not modulo 40. */
  lemma SmallKey()
    ensures SecretKey(PublicKey(55, 3, 1), 5, 11, 7).Valid()
  {
    assert Pow(256, 1) == 256 * Pow(256, 0) == 256;
    forall d | 2 <= d < 5 ensures !Divides(d, 5) {
    }
    forall d | 2 <= d < 11 ensures !Divides(d, 11) {
    }
  }

  predicate AreInverse(r: nat, s: nat, n: nat)
    requires n > 0
  {
    (r * s) % n == 1
  }

  function Blinded(pk: PublicKey, m: nat, r: nat): nat
    requires pk.n > 0
  {
    (m * (Pow(r, pk.e) % pk.n)) % pk.n
  }

  function Signed(sk: SecretKey, b: nat): nat
    requires sk.pub.n > 0
  {
    Pow(b, sk.d) % sk.pub.n
  }

  function Unblinded(pk: PublicKey, z: nat, s: nat): nat
    requires pk.n > 0
  {
    (z * s) % pk.n
  }

  function Recovered(pk: PublicKey, sig: nat): nat
    requires pk.n > 0
  {
    Pow(sig, pk.e) % pk.n
  }

  // ----- Congruences -----

  ghost predicate Same(a: nat, b: nat, n: nat)
    requires n > 0
  {
    a % n == b % n
  }

  lemma SameMul(a: nat, b: nat, x: nat, y: nat, n: nat)
    requires n > 0 && Same(a, b, n) && Same(x, y, n)
    ensures Same(a * x, b * y, n)
  {
    ModMul(a, b, x, n);
    ModMul(x, y, b, n);
    assert x * b == b * x && y * b == b * y;
  }

  lemma SamePow(a: nat, b: nat, e: nat, n: nat)
    requires n > 0 && Same(a, b, n)
    ensures Same(Pow(a, e), Pow(b, e), n)
  {
    ModPowCong(a, b, e, n);
  }

  lemma SameReduced(a: nat, n: nat)
    requires n > 0
    ensures Same(a % n, a, n)
  {
    ModMod(a, n);
  }

  lemma BlindedIs(pk: PublicKey, m: nat, r: nat)
    requires pk.n > 0
    ensures Same(Blinded(pk, m, r), m * Pow(r, pk.e), pk.n)
  {
    SameReduced(Pow(r, pk.e), pk.n);
    SameMul(m, m, Pow(r, pk.e) % pk.n, Pow(r, pk.e), pk.n);
    SameReduced(m * (Pow(r, pk.e) % pk.n), pk.n);
  }

  /** Either exponent undoes the other. */
  lemma ExponentsUndo(sk: SecretKey, x: nat)
    requires sk.Valid()
    ensures Same(Pow(Pow(x, sk.d), sk.pub.e), x, sk.pub.n) && Same(Pow(Pow(x, sk.pub.e), sk.d), x, sk.pub.n)
  {
    ExponentsInverse(x, sk.p, sk.q, sk.pub.e, sk.d);
    PowMul(x, sk.d, sk.pub.e);
    PowMul(x, sk.pub.e, sk.d);
    assert sk.d * sk.pub.e == sk.pub.e * sk.d;
  }

  lemma SignedBlinded(sk: SecretKey, m: nat, r: nat)
    requires sk.Valid()
    ensures Same(Signed(sk, Blinded(sk.pub, m, r)), Pow(m, sk.d) * r, sk.pub.n)
  {
    var n, b, x := sk.pub.n, Blinded(sk.pub, m, r), Pow(r, sk.pub.e);
    BlindedIs(sk.pub, m, r);
    SamePow(b, m * x, sk.d, n);
    PowOfProduct(m, x, sk.d);
    ExponentsUndo(sk, r);
    SameMul(Pow(m, sk.d), Pow(m, sk.d), Pow(x, sk.d), r, n);
    SameReduced(Pow(b, sk.d), n);
  }

  lemma OneIsReduced(n: nat)
    requires n >= 2
    ensures 1 % n == 1
  {
    DivModIs(1, 0, 1, n);
  }

  /** Unblinding the signature of a blinded message leaves exactly the plain signature, whatever the blinding factor. */
  lemma UnblindingUndoesBlinding(sk: SecretKey, m: nat, r: nat, s: nat)
    requires sk.Valid() && AreInverse(r, s, sk.pub.n)
    ensures Unblinded(sk.pub, Signed(sk, Blinded(sk.pub, m, r)), s) == Signed(sk, m)
  {
    var n, z, x := sk.pub.n, Signed(sk, Blinded(sk.pub, m, r)), Pow(m, sk.d);
    SignedBlinded(sk, m, r);
    SameMul(z, x * r, s, s, n);
    assert (x * r) * s == x * (r * s) by {
      MulAssoc(x, r, s);
    }
    OneIsReduced(n);
    SameMul(x, x, r * s, 1, n);
  }

  /** The public exponent recovers the message from its signature. */
  lemma SignatureRecovers(sk: SecretKey, m: nat)
    requires sk.Valid()
    ensures Recovered(sk.pub, Signed(sk, m)) == m % sk.pub.n
  {
    SameReduced(Pow(m, sk.d), sk.pub.n);
    SamePow(Signed(sk, m), Pow(m, sk.d), sk.pub.e, sk.pub.n);
    ExponentsUndo(sk, m);
  }

  // ----- What the signer learns -----

  lemma SameBlinded(pk: PublicKey, m: nat, r: nat, m': nat, r': nat)
    requires pk.n > 0 && Same(m * Pow(r, pk.e), m' * Pow(r', pk.e), pk.n)
    ensures Blinded(pk, m, r) == Blinded(pk, m', r')
  {
    var b, b' := Blinded(pk, m, r), Blinded(pk, m', r');
    BlindedIs(pk, m, r);
    BlindedIs(pk, m', r');
    DivModIs(b, 0, b, pk.n);
    DivModIs(b', 0, b', pk.n);
  }

  lemma MovesFactor(a: nat, b: nat, m: nat, p: nat, x: nat, n: nat)
    requires n >= 2 && AreInverse(a, b, n) && Same(x, m * b, n)
    ensures Same(a * (p * x), m * p, n)
  {
    SameMul(a * p, a * p, x, m * b, n);
    MulAssoc(a, p, x);
    Regroup(a, p, m, b);
    assert (a * p) * (m * b) == (a * b) * (m * p) by {
      Regroup(a, p, b, m);
      assert m * b == b * m && p * m == m * p;
    }
    OneIsReduced(n);
    SameMul(a * b, 1, m * p, m * p, n);
  }

  /** The factor that moves a blinding from message m to message m' (u' inverse to m'). */
  lemma SameBlindedMessage(sk: SecretKey, m: nat, m': nat, u': nat, r: nat, x: nat)
    requires sk.Valid() && AreInverse(m', u', sk.pub.n) && x == Pow(m * u', sk.d)
    ensures Blinded(sk.pub, m', r * x) == Blinded(sk.pub, m, r)
  {
    var n, e := sk.pub.n, sk.pub.e;
    ExponentsUndo(sk, m * u');
    MovesFactor(m', u', m, Pow(r, e), Pow(x, e), n);
    PowOfProduct(r, x, e);
    SameBlinded(sk.pub, m', r * x, m, r);
  }

  lemma PowersInverse(a: nat, b: nat, d: nat, n: nat)
    requires n >= 2 && AreInverse(a, b, n)
    ensures Same(Pow(a, d) * Pow(b, d), 1, n)
  {
    OneIsReduced(n);
    PowOfProduct(a, b, d);
    PowOfOne(d);
    SamePow(a * b, 1, d, n);
  }

  lemma ReducedFactor(pk: PublicKey, m: nat, r: nat, s: nat)
    requires pk.n >= 2 && AreInverse(r, s, pk.n)
    ensures Blinded(pk, m, r % pk.n) == Blinded(pk, m, r) && AreInverse(r % pk.n, s, pk.n)
  {
    SameReduced(r, pk.n);
    SamePow(r % pk.n, r, pk.e, pk.n);
    SameMul(r % pk.n, r, s, s, pk.n);
  }

  lemma InverseOfProduct(a: nat, b: nat, x: nat, y: nat, n: nat)
    requires n >= 2 && AreInverse(a, b, n) && Same(x * y, 1, n)
    ensures AreInverse(a * x, b * y, n) && Same((a * x) * (b * y), 1, n)
  {
    OneIsReduced(n);
    SameMul(a * b, 1, x * y, 1, n);
    Regroup(a, b, x, y);
    Regroup(a, x, b, y);
  }

  /** Whatever was blinded, some factor would give the same blinded message for any other invertible message. */
  lemma AnyMessageCouldBeBlinded(sk: SecretKey, m: nat, u: nat, m': nat, u': nat, r: nat, s: nat)
    returns (r': nat, s': nat)
    requires sk.Valid()
    requires AreInverse(m, u, sk.pub.n) && AreInverse(m', u', sk.pub.n) && AreInverse(r, s, sk.pub.n)
    ensures r' < sk.pub.n && AreInverse(r', s', sk.pub.n) && Blinded(sk.pub, m', r') == Blinded(sk.pub, m, r)
  {
    var n := sk.pub.n;
    var x, y := Pow(m * u', sk.d), Pow(u * m', sk.d);
    SameBlindedMessage(sk, m, m', u', r, x);
    OneIsReduced(n);
    assert u' * m' == m' * u';
    InverseOfProduct(m, u, u', m', n);
    PowersInverse(m * u', u * m', sk.d, n);
    InverseOfProduct(r, s, x, y, n);
    ReducedFactor(sk.pub, m', r * x, s * y);
    r', s' := (r * x) % n, s * y;
  }

  lemma CancelInvertible(m: nat, u: nat, x: nat, x': nat, n: nat)
    requires n >= 2 && AreInverse(m, u, n) && Same(m * x, m * x', n)
    ensures Same(x, x', n)
  {
    OneIsReduced(n);
    SameMul(u, u, m * x, m * x', n);
    SameMul(m * u, 1, x, x, n);
    SameMul(m * u, 1, x', x', n);
    assert u * (m * x) == (m * u) * x && u * (m * x') == (m * u) * x' by {
      MulAssoc(u, m, x);
      MulAssoc(u, m, x');
      assert u * m == m * u;
    }
  }

  /** And only one: with the message fixed, different factors give different blinded messages. */
  lemma OneFactorPerBlindedMessage(sk: SecretKey, m: nat, u: nat, r: nat, r': nat)
    requires sk.Valid() && AreInverse(m, u, sk.pub.n) && r < sk.pub.n && r' < sk.pub.n
    requires Blinded(sk.pub, m, r) == Blinded(sk.pub, m, r')
    ensures r == r'
  {
    var n, x, x' := sk.pub.n, Pow(r, sk.pub.e), Pow(r', sk.pub.e);
    BlindedIs(sk.pub, m, r);
    BlindedIs(sk.pub, m, r');
    CancelInvertible(m, u, x, x', n);
    SamePow(x, x', sk.d, n);
    ExponentsUndo(sk, r);
    ExponentsUndo(sk, r');
    DivModIs(r, 0, r, n);
    DivModIs(r', 0, r', n);
  }

  // ----- Byte strings -----

  /** The first byte in which two strings of one length differ decides which number is smaller. */
  lemma {:induction false} FirstDifferenceDecides(a: seq<Byte>, b: seq<Byte>, i: nat)
    requires |a| == |b| && i < |a| && a[..i] == b[..i] && a[i] < b[i]
    ensures FromBytes(a) < FromBytes(b)
    decreases |a|
  {
    var last := |a| - 1;
    if i == last {
      assert a[..last] == b[..last];
    } else {
      assert a[..last][..i] == a[..i] && b[..last][..i] == b[..i];
      FirstDifferenceDecides(a[..last], b[..last], i);
    }
  }

  ghost predicate Canonical(pk: PublicKey, b: seq<Byte>) {
    |b| == pk.size && FromBytes(b) < pk.n
  }

  /** Accepts exactly the strings of full length that spell a number below the modulus. */
  method CheckCanonical(pk: PublicKey, blindMessage: seq<Byte>) returns (ok: bool)
    requires pk.Valid()
    ensures ok <==> |blindMessage| == pk.size && FromBytes(blindMessage) < pk.n
  {
    if |blindMessage| != pk.size {
      return false;
    }
    var modulus := ToBytes(pk.n, pk.size);
    FromToBytes(pk.n, pk.size);
    var i := 0;
    while i < pk.size
      invariant 0 <= i <= pk.size && blindMessage[..i] == modulus[..i]
      invariant i < pk.size
    {
      var a, b := blindMessage[i], modulus[i];
      if a < b {
        FirstDifferenceDecides(blindMessage, modulus, i);
        break;
      }
      if a > b || i + 1 == pk.size {
        if a > b {
          FirstDifferenceDecides(modulus, blindMessage, i);
        } else {
          assert blindMessage == modulus;
        }
        return false;
      }
      assert blindMessage[..i + 1] == blindMessage[..i] + [a] && modulus[..i + 1] == modulus[..i] + [b];
      i := i + 1;
    }
    return true;
  }

  // ----- The operations on byte strings -----

  ghost predicate Usable(pk: PublicKey, r: nat)
    requires pk.n > 0
  {
    r != 1 && exists s: nat :: s < pk.n && AreInverse(r, s, pk.n)
  }

  method ModInverse(r: nat, n: nat) returns (s: Option<nat>)
    requires n > 0
    ensures s.Some? ==> s.value < n && AreInverse(r, s.value, n)
    ensures s.None? ==> !exists x: nat :: x < n && AreInverse(r, x, n)
  {
    if x: nat :| x < n && AreInverse(r, x, n) {
      return Some(x);
    }
    s := None;
  }

  /** A blinded message and the secret that unblinds its signature. */
  datatype Blinding = Blinding(message: seq<Byte>, secret: seq<Byte>)

  ghost predicate IsBlinding(pk: PublicKey, padded: seq<Byte>, r: nat, b: Blinding)
    requires pk.Valid()
  {
    && b.message == ToBytes(Blinded(pk, FromBytes(padded), r), pk.size)
    && |b.secret| == pk.size && AreInverse(r, FromBytes(b.secret), pk.n)
  }

  /** Blinds with the first usable number the generator draws; fails when it stops delivering before that. */
  method Blind(pk: PublicKey, padded: seq<Byte>, draws: seq<nat>) returns (result: Option<Blinding>)
    requires pk.Valid() && forall i :: 0 <= i < |draws| ==> draws[i] < pk.n
    ensures result.None? <==> forall i :: 0 <= i < |draws| ==> !Usable(pk, draws[i])
    ensures result.Some? ==> exists r, s: nat :: r in draws && r != 1 && AreInverse(r, s, pk.n)
                                                 && IsBlinding(pk, padded, r, result.value)
    ensures result.Some? ==> exists i :: 0 <= i < |draws| && Usable(pk, draws[i])
                                         && (forall j :: 0 <= j < i ==> !Usable(pk, draws[j]))
                                         && IsBlinding(pk, padded, draws[i], result.value)
  {
    var m := FromBytes(padded);
    var secret: Option<nat> := None;
    var i := 0;
    while i < |draws|
      invariant 0 <= i <= |draws| && secret == None
      invariant forall j :: 0 <= j < i ==> !Usable(pk, draws[j])
    {
      if draws[i] != 1 {
        secret := ModInverse(draws[i], pk.n);
        if secret.Some? {
          break;
        }
      }
      i := i + 1;
    }
    if secret == None {
      return None;
    }
    var x := Pow(draws[i], pk.e) % pk.n;
    var blindM := (m * x) % pk.n;
    FromToBytes(secret.value, pk.size);
    result := Some(Blinding(ToBytes(blindM, pk.size), ToBytes(secret.value, pk.size)));
  }

  function SignBytes(sk: SecretKey, b: seq<Byte>): (sig: seq<Byte>)
    requires sk.pub.n > 0
  {
    ToBytes(Signed(sk, FromBytes(b)), sk.pub.size)
  }

  method BlindSign(sk: SecretKey, blindMessage: seq<Byte>) returns (result: Option<seq<Byte>>)
    requires sk.Valid()
    ensures result.Some? <==> |blindMessage| == sk.pub.size && FromBytes(blindMessage) < sk.pub.n
    ensures result.Some? ==> result.value == SignBytes(sk, blindMessage)
  {
    var canonical := CheckCanonical(sk.pub, blindMessage);
    if !canonical {
      return None;
    }
    result := Some(ToBytes(Pow(FromBytes(blindMessage), sk.d) % sk.pub.n, sk.pub.size));
  }

  /** Unblinds and checks: what the signature recovers must pass the padding check for the message. */
  method Finalize(pk: PublicKey, blindSig: seq<Byte>, secret: seq<Byte>, paddingOk: seq<Byte> -> bool)
    returns (result: Option<seq<Byte>>)
    requires pk.Valid()
    ensures var z := Unblinded(pk, FromBytes(blindSig), FromBytes(secret));
            && (result.Some? <==> |blindSig| == |secret| == pk.size && paddingOk(ToBytes(Recovered(pk, z), pk.size)))
            && (result.Some? ==> result.value == ToBytes(z, pk.size))
  {
    if |blindSig| != pk.size || |secret| != pk.size {
      return None;
    }
    var z := (FromBytes(blindSig) * FromBytes(secret)) % pk.n;
    var sig := ToBytes(z, pk.size);
    FromToBytes(z, pk.size);
    var em := ToBytes(Pow(FromBytes(sig), pk.e) % pk.n, pk.size);
    if !paddingOk(em) {
      return None;
    }
    result := Some(sig);
  }

  /** Each residue has exactly one string that is accepted for signing. */
  lemma OneStringPerResidue(pk: PublicKey, x: nat, b: seq<Byte>)
    requires pk.Valid()
    ensures Canonical(pk, b) && FromBytes(b) % pk.n == x % pk.n <==> b == ToBytes(x % pk.n, pk.size)
  {
    FromToBytes(x % pk.n, pk.size);
    if Canonical(pk, b) && FromBytes(b) % pk.n == x % pk.n {
      DivModIs(FromBytes(b), 0, FromBytes(b), pk.n);
      ToFromBytes(b);
    }
    DivModIs(x % pk.n, 0, x % pk.n, pk.n);
  }

  /** A blinded message is always accepted by the signer. */
  lemma BlindingIsCanonical(pk: PublicKey, padded: seq<Byte>, r: nat, b: Blinding)
    requires pk.Valid() && IsBlinding(pk, padded, r, b)
    ensures Canonical(pk, b.message) && FromBytes(b.message) == Blinded(pk, FromBytes(padded), r)
  {
    FromToBytes(Blinded(pk, FromBytes(padded), r), pk.size);
  }

  /** The whole exchange: for a padded message below the modulus and any usable factor, unblinding yields the bytes of
      the plain signature and the check sees exactly the padded message again. */
  lemma ExchangeYieldsSignature(sk: SecretKey, padded: seq<Byte>, r: nat, b: Blinding)
    requires sk.Valid() && |padded| == sk.pub.size && FromBytes(padded) < sk.pub.n
    requires IsBlinding(sk.pub, padded, r, b)
    ensures Canonical(sk.pub, b.message)
    ensures var z := Unblinded(sk.pub, FromBytes(SignBytes(sk, b.message)), FromBytes(b.secret));
            && ToBytes(z, sk.pub.size) == SignBytes(sk, padded)
            && ToBytes(Recovered(sk.pub, z), sk.pub.size) == padded
  {
    var m := FromBytes(padded);
    BlindingIsCanonical(sk.pub, padded, r, b);
    FromToBytes(Signed(sk, Blinded(sk.pub, m, r)), sk.pub.size);
    UnblindingUndoesBlinding(sk, m, r, FromBytes(b.secret));
    SignatureRecovers(sk, m);
    DivModIs(m, 0, m, sk.pub.n);
    ToFromBytes(padded);
  }
}
