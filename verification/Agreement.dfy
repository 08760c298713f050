/** Crusader Agreement on contributions at one node. */
module Agreement {
  import opened Collections
  import opened Contributions
  import opened NumberTheory
  import opened Results

  /** Ideal signatures: a genuine one names its signer and what was signed. */
  datatype Signature = Signed(signer: int, value: Contribution) | Forged(bits: int)

  /** A contribution with signatures on it, by the id each claims to come from. */
  datatype SignedValue = SignedValue(value: Contribution, signatures: map<int, Signature>)

  datatype PackageSignature = PackageSigned(signer: int, package: SignedValue) | PackageForged(bits: int)

  /** A value one node has accepted, with the signatures that made it accept. */
  datatype AgreementValue =
    AgreementValue(signedValue: SignedValue, accepter: int, accepterSignature: PackageSignature)

  type State = map<Contribution, SignedValue>

  predicate Verifies(value: Contribution, signature: Signature, id: int) {
    signature == Signed(id, value)
  }

  predicate PackageVerifies(av: AgreementValue) {
    av.accepterSignature == PackageSigned(av.accepter, av.signedValue)
  }

  // ----- What the handlers do -----

  ghost predicate IsLeast(k: int, keys: set<int>) {
    k in keys && forall j :: j in keys ==> k <= j
  }

  lemma {:induction false} LeastExists(keys: set<int>)
    requires keys != {}
    ensures exists k :: IsLeast(k, keys)
  {
    var x := SomeElement(keys);
    if keys == {x} {
      assert IsLeast(x, keys);
    } else {
      LeastExists(keys - {x});
      var rest :| IsLeast(rest, keys - {x});
      forall j | j in keys ensures j == x || rest <= j {
        assert j != x ==> j in keys - {x};
      }
      assert IsLeast(if x < rest then x else rest, keys);
    }
  }

  ghost function Least(keys: set<int>): (k: int)
    requires keys != {}
    ensures IsLeast(k, keys)
  {
    LeastExists(keys);
    var k :| IsLeast(k, keys);
    k
  }

  /** The signer of the one signature that is checked has a key. */
  ghost predicate Phase1Known(keys: set<int>, sv: SignedValue) {
    sv.signatures == map[] || Least(sv.signatures.Keys) in keys
  }

  /** Only the first signature is checked; a value not seen before is stored with all its signatures. */
  ghost function StorePhase1(s: State, sv: SignedValue): State {
    if sv.signatures == map[] then s else
      var id := Least(sv.signatures.Keys);
      if !Verifies(sv.value, sv.signatures[id], id) then s
      else if sv.value !in s then s[sv.value := sv]
      else s[sv.value := SignedValue(s[sv.value].value, map[id := sv.signatures[id]] + s[sv.value].signatures)]
  }

  /** Looking up a signer without a key throws, which ends the process. */
  ghost function HandlePhase1(keys: set<int>, s: State, sv: SignedValue): Option<State> {
    if Phase1Known(keys, sv) then Some(StorePhase1(s, sv)) else None
  }

  /** Which entries survive checking: the accepter's own entry is not checked. */
  predicate Survives(av: AgreementValue, id: int) {
    var sigs := av.signedValue.signatures;
    id in sigs && (id == av.accepter || Verifies(av.signedValue.value, sigs[id], id))
  }

  function Kept(av: AgreementValue): map<int, Signature> {
    map id | id in av.signedValue.signatures && Survives(av, id) :: av.signedValue.signatures[id]
  }

  function ValidIds(av: AgreementValue): set<int> {
    set id | id in av.signedValue.signatures && id != av.accepter && Survives(av, id)
  }

  /** All signers whose signatures are looked at have keys: the accepter, and the others if its package verifies. */
  predicate Phase2Known(keys: set<int>, av: AgreementValue) {
    && av.accepter in keys
    && (PackageVerifies(av) ==> forall id :: id in av.signedValue.signatures ==> id == av.accepter || id in keys)
  }

  function StorePhase2(s: State, av: AgreementValue, log2n: nat): State {
    var v := av.signedValue.value;
    if !PackageVerifies(av) || |ValidIds(av)| < log2n then s
    else if v !in s then s[v := SignedValue(v, Kept(av))]
    else s[v := SignedValue(s[v].value, Kept(av) + s[v].signatures)]
  }

  function HandlePhase2(keys: set<int>, s: State, av: AgreementValue, log2n: nat): Option<State> {
    if Phase2Known(keys, av) then Some(StorePhase2(s, av, log2n)) else None
  }

  /** The values with more than log2 n signatures. */
  function Accepted(s: State, log2n: nat): set<Contribution> {
    set v | v in s && |s[v].signatures| >= log2n + 1
  }

  /** One message to each other proxy of each accepted value, with the node's signature on the package. */
  function AcceptMessages(s: State, node: int, log2n: nat): set<(int, AgreementValue)> {
    set v, r | v in Accepted(s, log2n) && r in v.proxies && r != node
      :: (r, AgreementValue(s[v], node, PackageSigned(node, s[v])))
  }

  lemma AcceptOneMore(s: State, v: Contribution, sv: SignedValue, node: int, log2n: nat)
    requires v !in s
    ensures AcceptMessages(s[v := sv], node, log2n) ==
            AcceptMessages(s, node, log2n) +
            if |sv.signatures| < log2n + 1 then {}
            else set r | r in v.proxies && r != node :: (r, AgreementValue(sv, node, PackageSigned(node, sv)))
  {
    var s' := s[v := sv];
    assert Accepted(s', log2n) == Accepted(s, log2n) + if |sv.signatures| < log2n + 1 then {} else {v};
  }

  class CrusaderAgreementState {
    const nodeId: int
    const log2n: nat
    /** The ids whose public keys the node has. */
    const keys: set<int>
    var phase1Finished: bool
    var signedProxyValues: State

    ghost predicate Valid()
      reads this
    {
      forall v :: v in signedProxyValues ==> signedProxyValues[v].value == v
    }

    constructor (nodeId: int, numNodes: nat, keys: set<int>)
      requires numNodes >= 1
      ensures Valid() && signedProxyValues == map[] && !phase1Finished
      ensures this.nodeId == nodeId && log2n == CeilLog2(numNodes) && this.keys == keys
    {
      this.nodeId, log2n, this.keys := nodeId, CeilLog2(numNodes), keys;
      phase1Finished, signedProxyValues := false, map[];
    }

    /** The first key of an ordered map. */
    static method FirstKey(m: map<int, Signature>) returns (k: int)
      requires m != map[]
      ensures k == Least(m.Keys)
    {
      var rest := m.Keys;
      k := AnyOf(rest);
      rest := rest - {k};
      while rest != {}
        invariant rest <= m.Keys && k in m.Keys && k !in rest
        invariant forall j :: j in m.Keys && j !in rest ==> k <= j
        decreases rest
      {
        var j := AnyOf(rest);
        rest := rest - {j};
        if j < k {
          k := j;
        }
      }
    }

    /** Checks a signature; without a key for its signer this throws. */
    method Verify(value: Contribution, signature: Signature, signer: int) returns (verified: Option<bool>)
      ensures verified == if signer in keys then Some(Verifies(value, signature, signer)) else None
    {
      if signer !in keys {
        return None;
      }
      verified := Some(Verifies(value, signature, signer));
    }

    /** Returns whether the handler returned; otherwise an exception has ended the process. */
    method HandlePhase1Message(sv: SignedValue) returns (returned: bool)
      requires Valid()
      modifies this`signedProxyValues
      ensures var after := HandlePhase1(keys, old(signedProxyValues), sv);
              && returned == after.Some?
              && Valid() && signedProxyValues == if returned then after.value else old(signedProxyValues)
    {
      if sv.signatures == map[] {
        return true;
      }
      var id := FirstKey(sv.signatures);
      var signature := sv.signatures[id];
      var verified := Verify(sv.value, signature, id);
      if verified.None? {
        return false;
      }
      if !verified.value {
        return true;
      }
      if sv.value !in signedProxyValues {
        signedProxyValues := signedProxyValues[sv.value := sv];
      } else {
        var found := signedProxyValues[sv.value];
        signedProxyValues := signedProxyValues[sv.value :=
          found.(signatures := if id in found.signatures then found.signatures
                               else found.signatures[id := signature])];
        assert signedProxyValues[sv.value].signatures == map[id := signature] + found.signatures;
      }
      returned := true;
    }

    /** Walks over the signatures, counting the valid ones and erasing the invalid ones, until one throws. */
    method Validate(av: AgreementValue) returns (result: Option<(map<int, Signature>, nat)>)
      requires PackageVerifies(av) && av.accepter in keys
      ensures result == if Phase2Known(keys, av) then Some((Kept(av), |ValidIds(av)|)) else None
    {
      var signatures, validSignatures := av.signedValue.signatures, 0;
      ghost var counted: set<int> := {};
      var pending := signatures.Keys;
      while pending != {}
        invariant pending <= av.signedValue.signatures.Keys
        invariant forall id :: id in av.signedValue.signatures && id !in pending ==> id == av.accepter || id in keys
        invariant validSignatures == |counted|
        invariant forall id :: id in counted <==> id !in pending && id != av.accepter && Survives(av, id)
        invariant forall id :: id in signatures <==>
                    (id in pending || Survives(av, id)) && id in av.signedValue.signatures
        invariant forall id :: id in signatures ==> signatures[id] == av.signedValue.signatures[id]
        decreases pending
      {
        var id := AnyOf(pending);
        pending := pending - {id};
        if id != av.accepter {
          var verified := Verify(av.signedValue.value, signatures[id], id);
          if verified.None? {
            return None;
          }
          if verified.value {
            validSignatures := validSignatures + 1;
            counted := counted + {id};
          } else {
            signatures := signatures - {id};
          }
        }
      }
      forall id ensures id in counted <==> id in ValidIds(av) {
      }
      assert counted == ValidIds(av);
      forall id ensures id in signatures <==> id in Kept(av) {
      }
      assert signatures.Keys == Kept(av).Keys;
      assert signatures == Kept(av);
      result := Some((signatures, validSignatures));
    }

    method HandlePhase2Message(av: AgreementValue) returns (returned: bool)
      requires Valid()
      modifies this`signedProxyValues
      ensures var after := HandlePhase2(keys, old(signedProxyValues), av, log2n);
              && returned == after.Some?
              && Valid() && signedProxyValues == if returned then after.value else old(signedProxyValues)
    {
      if av.accepter !in keys {
        return false;
      }
      if !PackageVerifies(av) {
        return true;
      }
      var v := av.signedValue.value;
      var validated := Validate(av);
      if validated.None? {
        return false;
      }
      var (signatures, validSignatures) := validated.value;
      if validSignatures >= log2n {
        if v !in signedProxyValues {
          signedProxyValues := signedProxyValues[v := SignedValue(v, signatures)];
        } else {
          var found := signedProxyValues[v];
          signedProxyValues := signedProxyValues[v := found.(signatures := signatures + found.signatures)];
        }
      }
      returned := true;
    }

    /** Signs every value with enough signatures and addresses it to the value's other proxies. */
    method FinishPhase1() returns (accepts: set<(int, AgreementValue)>)
      requires Valid()
      modifies this`phase1Finished
      ensures Valid() && phase1Finished
      ensures accepts == AcceptMessages(signedProxyValues, nodeId, log2n)
    {
      accepts := {};
      var pending := signedProxyValues.Keys;
      ghost var done := map[];
      while pending != {}
        invariant pending <= signedProxyValues.Keys
        invariant done == map v | v in signedProxyValues && v !in pending :: signedProxyValues[v]
        invariant accepts == AcceptMessages(done, nodeId, log2n)
        decreases pending
      {
        var v := AnyOf(pending);
        pending := pending - {v};
        AcceptOneMore(done, v, signedProxyValues[v], nodeId, log2n);
        done := done[v := signedProxyValues[v]];
        if |signedProxyValues[v].signatures| < log2n + 1 {
          continue;
        }
        var package := signedProxyValues[v];
        var signed := AgreementValue(package, nodeId, PackageSigned(nodeId, package));
        accepts := accepts + set r | r in v.proxies && r != nodeId :: (r, signed);
      }
      assert done == signedProxyValues;
      phase1Finished := true;
    }

    method FinishPhase2() returns (values: set<Contribution>)
      requires Valid()
      ensures values == Accepted(signedProxyValues, log2n)
    {
      values := {};
      var pending := signedProxyValues.Keys;
      while pending != {}
        invariant pending <= signedProxyValues.Keys
        invariant values == Accepted(signedProxyValues, log2n) - pending
        decreases pending
      {
        var v := AnyOf(pending);
        pending := pending - {v};
        if |signedProxyValues[v].signatures| >= log2n + 1 {
          values := values + {signedProxyValues[v].value};
        }
      }
      assert Accepted(signedProxyValues, log2n) - {} == Accepted(signedProxyValues, log2n);
    }
  }
}
