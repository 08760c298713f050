/** What Crusader Agreement guarantees between nodes, some of them Byzantine. */
module AgreementRun {
  import opened Agreement
  import opened Collections
  import opened Contributions
  import opened NumberTheory
  import opened Results

  datatype Event = Phase1(sv: SignedValue) | Phase2(av: AgreementValue)

  /** The state after a message that the handler returns from. */
  ghost function Store(s: State, e: Event, log2n: nat): State {
    match e
    case Phase1(sv) => StorePhase1(s, sv)
    case Phase2(av) => StorePhase2(s, av, log2n)
  }

  ghost function React(keys: set<int>, s: State, e: Event, log2n: nat): Option<State> {
    match e
    case Phase1(sv) => HandlePhase1(keys, s, sv)
    case Phase2(av) => HandlePhase2(keys, s, av, log2n)
  }

  /** What a node with these keys holds after a list of messages; None if its process has ended. */
  ghost function StateAfter(keys: set<int>, events: seq<Event>, log2n: nat): Option<State> {
    if events == [] then Some(map[]) else
      var before := StateAfter(keys, events[..|events| - 1], log2n);
      if before.None? then None else React(keys, before.value, events[|events| - 1], log2n)
  }

  ghost predicate Known(keys: set<int>, e: Event) {
    match e
    case Phase1(sv) => Phase1Known(keys, sv)
    case Phase2(av) => Phase2Known(keys, av)
  }

  ghost predicate AllKnown(keys: set<int>, events: seq<Event>) {
    forall e :: e in events ==> Known(keys, e)
  }

  /** What a list of messages leads to if every handler returns. */
  ghost function Stored(events: seq<Event>, log2n: nat): State {
    if events == [] then map[]
    else Store(Stored(events[..|events| - 1], log2n), events[|events| - 1], log2n)
  }

  lemma KnownOneMore(keys: set<int>, before: seq<Event>, last: Event)
    ensures AllKnown(keys, before + [last]) <==> AllKnown(keys, before) && Known(keys, last)
  {
    assert last in before + [last];
    assert forall e :: e in before ==> e in before + [last];
  }

  /** A node survives a list of messages if and only if it has the keys of all signers it looks up. */
  lemma {:induction false} SurvivesExactlyWhenKnown(keys: set<int>, events: seq<Event>, log2n: nat)
    ensures StateAfter(keys, events, log2n) == if AllKnown(keys, events) then Some(Stored(events, log2n)) else None
    decreases |events|
  {
    if events != [] {
      var before, last := events[..|events| - 1], events[|events| - 1];
      SurvivesExactlyWhenKnown(keys, before, log2n);
      KnownOneMore(keys, before, last);
      assert events == before + [last];
    }
  }

  /** The ids whose signatures a node holds for a value. */
  function Ids(s: State, v: Contribution): set<int> {
    if v in s then s[v].signatures.Keys else {}
  }

  /** The one signature of a phase-1 message that is checked. */
  ghost predicate FirstVerifies(sv: SignedValue) {
    sv.signatures != map[]
    && Verifies(sv.value, sv.signatures[Least(sv.signatures.Keys)], Least(sv.signatures.Keys))
  }

  /** The ids a message adds for a value, whatever the node held before. */
  ghost function Adds(e: Event, v: Contribution, log2n: nat): set<int> {
    match e
    case Phase1(sv) => if sv.value == v && FirstVerifies(sv) then {Least(sv.signatures.Keys)} else {}
    case Phase2(av) =>
      if av.signedValue.value == v && PackageVerifies(av) && |ValidIds(av)| >= log2n then Kept(av).Keys else {}
  }

  /** Whatever arrives, ids only become more, by at least those the message adds. */
  lemma StoreGrows(s: State, e: Event, v: Contribution, log2n: nat)
    ensures Ids(s, v) + Adds(e, v, log2n) <= Ids(Store(s, e, log2n), v)
  {
  }

  /** What a message adds is held ever after. */
  lemma {:induction false} AddsStay(events: seq<Event>, e: Event, v: Contribution, log2n: nat)
    requires e in events
    ensures Adds(e, v, log2n) <= Ids(Stored(events, log2n), v)
    decreases |events|
  {
    var before, last := events[..|events| - 1], events[|events| - 1];
    StoreGrows(Stored(before, log2n), last, v, log2n);
    if e != last {
      AddsStay(before, e, v, log2n);
    }
  }

  // ----- One message -----

  /** The other values a message leaves alone. */
  ghost predicate SameElsewhere(s: State, s': State, v: Contribution) {
    s'.Keys <= s.Keys + {v} && forall u :: u in s && u != v ==> u in s' && s'[u] == s[u]
  }

  /** A phase-1 message brings the id of its first signature if that is genuine, and all its ids if the value is new. */
  lemma Phase1StoresExactly(keys: set<int>, s: State, sv: SignedValue)
    requires sv.signatures != map[]
    ensures var after, first := HandlePhase1(keys, s, sv), Least(sv.signatures.Keys);
            && (after.Some? <==> first in keys)
            && (after.Some? ==>
                 && SameElsewhere(s, after.value, sv.value)
                 && Ids(after.value, sv.value) ==
                    Ids(s, sv.value) + (if sv.signatures[first] != Signed(first, sv.value) then {}
                                        else if sv.value in s then {first} else sv.signatures.Keys))
  {
  }

  /** The ids of genuine signatures in a package besides its accepter's. */
  function GenuineOthers(av: AgreementValue): set<int> {
    var sv := av.signedValue;
    set id | id in sv.signatures && id != av.accepter && sv.signatures[id] == Signed(id, sv.value)
  }

  /** An accept message brings, if its package is genuine and at least log2 n others' signatures in it are, just their
      ids and the accepter's if it is there. */
  lemma Phase2StoresExactly(keys: set<int>, s: State, av: AgreementValue, log2n: nat)
    requires Phase2Known(keys, av)
    ensures var after, sv, genuine := HandlePhase2(keys, s, av, log2n), av.signedValue, GenuineOthers(av);
            && after.Some? && SameElsewhere(s, after.value, sv.value)
            && Ids(after.value, sv.value) ==
               Ids(s, sv.value)
               + (if av.accepterSignature == PackageSigned(av.accepter, sv) && |genuine| >= log2n
                  then genuine + (sv.signatures.Keys * {av.accepter}) else {})
  {
    assert ValidIds(av) == GenuineOthers(av);
    assert Kept(av).Keys == GenuineOthers(av) + (av.signedValue.signatures.Keys * {av.accepter});
  }

  lemma StoreKeepsEntries(s: State, e: Event, log2n: nat, v: Contribution, id: int)
    requires id in Ids(s, v)
    ensures id in Ids(Store(s, e, log2n), v) && Store(s, e, log2n)[v].signatures[id] == s[v].signatures[id]
  {
  }

  /** An entry once stored is never replaced, whatever arrives later. */
  lemma {:induction false} EntriesStay(before: seq<Event>, later: seq<Event>, log2n: nat, v: Contribution, id: int)
    requires id in Ids(Stored(before, log2n), v)
    ensures id in Ids(Stored(before + later, log2n), v)
    ensures Stored(before + later, log2n)[v].signatures[id] == Stored(before, log2n)[v].signatures[id]
    decreases |later|
  {
    if later == [] {
      assert before + later == before;
    } else {
      var init, last := later[..|later| - 1], later[|later| - 1];
      EntriesStay(before, init, log2n, v, id);
      var all := before + later;
      assert all == (before + init) + [last] && all[..|all| - 1] == before + init;
      StoreKeepsEntries(Stored(before + init, log2n), last, log2n, v, id);
    }
  }

  /** The accept messages go, for each value with more than log2 n signatures, to each of its proxies but the node, and
      to nobody else; each is genuine and carries all signatures the node holds for the value. */
  lemma AcceptMessagesExactly(s: State, node: int, log2n: nat, r: int, av: AgreementValue)
    ensures (r, av) in AcceptMessages(s, node, log2n)
            <==> r != node && av.accepter == node && PackageVerifies(av)
                 && exists v :: v in s && |s[v].signatures| > log2n && r in v.proxies && av.signedValue == s[v]
  {
  }

  // ----- Confluence -----

  /** A message with the same effect in every state: phase-1 messages carry at most one signature, or one that fails. */
  ghost predicate Additive(e: Event) {
    e.Phase1? ==> |e.sv.signatures| <= 1 || !FirstVerifies(e.sv)
  }

  ghost predicate AllAdditive(events: seq<Event>) {
    forall e :: e in events ==> Additive(e)
  }

  lemma OnlyKey(sv: SignedValue)
    requires |sv.signatures| == 1
    ensures sv.signatures.Keys == {Least(sv.signatures.Keys)}
  {
    var k := Least(sv.signatures.Keys);
    assert |sv.signatures.Keys - {k}| == 0;
  }

  lemma StoreAdds(s: State, e: Event, v: Contribution, log2n: nat)
    requires Additive(e)
    ensures Ids(Store(s, e, log2n), v) == Ids(s, v) + Adds(e, v, log2n)
  {
    if e.Phase1? && FirstVerifies(e.sv) {
      OnlyKey(e.sv);
    }
  }

  /** The ids held for a value are those some received message adds. */
  lemma {:induction false} IdsAreAdded(events: seq<Event>, v: Contribution, log2n: nat, id: int)
    requires AllAdditive(events)
    ensures id in Ids(Stored(events, log2n), v) <==> exists e :: e in events && id in Adds(e, v, log2n)
    decreases |events|
  {
    if events != [] {
      var before, last := events[..|events| - 1], events[|events| - 1];
      IdsAreAdded(before, v, log2n, id);
      StoreAdds(Stored(before, log2n), last, v, log2n);
      assert forall e :: e in events <==> e in before || e == last;
    }
  }

  lemma AcceptedByIds(s: State, v: Contribution, log2n: nat)
    ensures v in Accepted(s, log2n) <==> |Ids(s, v)| >= log2n + 1
  {
    if v in s {
      assert |s[v].signatures| == |s[v].signatures.Keys|;
    }
  }

  /** Both processes have ended, or both nodes hold signatures of the same ids for every value. */
  ghost predicate SameOutcome(a: Option<State>, b: Option<State>) {
    (a.Some? <==> b.Some?) && (a.Some? ==> forall v :: Ids(a.value, v) == Ids(b.value, v))
  }

  lemma SameAccepted(s: State, t: State, log2n: nat)
    requires forall v :: Ids(s, v) == Ids(t, v)
    ensures Accepted(s, log2n) == Accepted(t, log2n)
  {
    forall v ensures v in Accepted(s, log2n) <==> v in Accepted(t, log2n) {
      AcceptedByIds(s, v, log2n);
      AcceptedByIds(t, v, log2n);
    }
  }

  /** Order and repetition of additive messages do not matter: the same messages end the process, or lead to the same
      signer ids for every value and to the same accepted values. */
  lemma HandlingIsConfluent(keys: set<int>, a: seq<Event>, b: seq<Event>, log2n: nat)
    requires AllKnown(keys, a) ==> AllAdditive(a)
    requires forall e :: e in a <==> e in b
    ensures var s, t := StateAfter(keys, a, log2n), StateAfter(keys, b, log2n);
            SameOutcome(s, t) && (s.Some? ==> Accepted(s.value, log2n) == Accepted(t.value, log2n))
  {
    SurvivesExactlyWhenKnown(keys, a, log2n);
    SurvivesExactlyWhenKnown(keys, b, log2n);
    if AllKnown(keys, a) {
      var s, t := Stored(a, log2n), Stored(b, log2n);
      forall v ensures Ids(s, v) == Ids(t, v) {
        forall id ensures id in Ids(s, v) <==> id in Ids(t, v) {
          IdsAreAdded(a, v, log2n, id);
          IdsAreAdded(b, v, log2n, id);
        }
      }
      SameAccepted(s, t, log2n);
    }
  }

  ghost predicate Commute(keys: set<int>, e: Event, o: Event, log2n: nat) {
    SameOutcome(StateAfter(keys, [e, o], log2n), StateAfter(keys, [o, e], log2n))
  }

  lemma AfterTwo(e: Event, o: Event, log2n: nat)
    ensures Stored([e, o], log2n) == Store(Store(map[], e, log2n), o, log2n)
  {
    assert [e, o][..1] == [e] && [e][..0] == [];
    assert Stored([e], log2n) == Store(Stored([], log2n), e, log2n);
  }

  /** The first signature of a message by itself. */
  ghost function FirstAlone(sv: SignedValue): Event
    requires sv.signatures != map[]
  {
    var id := Least(sv.signatures.Keys);
    Phase1(SignedValue(sv.value, map[id := sv.signatures[id]]))
  }

  /** A phase-1 message whose first of several signatures verifies brings all its ids when it comes before that
      signature alone, and only the first when it comes after. */
  lemma OrderMatters(e: Event, log2n: nat)
    requires !Additive(e)
    ensures var o := FirstAlone(e.sv);
            Additive(o) && Ids(Stored([e, o], log2n), e.sv.value) != Ids(Stored([o, e], log2n), e.sv.value)
  {
    var sv, o := e.sv, FirstAlone(e.sv);
    var id := Least(sv.signatures.Keys);
    OnlyKey(o.sv);
    AfterTwo(e, o, log2n);
    AfterTwo(o, e, log2n);
    assert Ids(Stored([o, e], log2n), sv.value) == {id};
    assert sv.signatures.Keys <= Ids(Stored([e, o], log2n), sv.value);
    assert |sv.signatures.Keys| == |sv.signatures|;
    if sv.signatures.Keys <= {id} {
      SubsetSize(sv.signatures.Keys, {id});
    }
  }

  lemma DoesNotCommute(keys: set<int>, e: Event, log2n: nat)
    requires !Additive(e) && Known(keys, e)
    ensures Additive(FirstAlone(e.sv)) && !Commute(keys, e, FirstAlone(e.sv), log2n)
  {
    var o := FirstAlone(e.sv);
    OnlyKey(o.sv);
    assert AllKnown(keys, [e, o]) && AllKnown(keys, [o, e]);
    SurvivesExactlyWhenKnown(keys, [e, o], log2n);
    SurvivesExactlyWhenKnown(keys, [o, e], log2n);
    OrderMatters(e, log2n);
  }

  /** So a message commutes with all additive ones if and only if it is additive itself or ends the process. */
  lemma CommutesExactlyWhenAdditive(keys: set<int>, e: Event, log2n: nat)
    ensures Additive(e) || !Known(keys, e) <==> forall o :: Additive(o) ==> Commute(keys, e, o, log2n)
  {
    if Additive(e) || !Known(keys, e) {
      forall o | Additive(o) ensures Commute(keys, e, o, log2n) {
        assert e in [e, o];
        HandlingIsConfluent(keys, [e, o], [o, e], log2n);
      }
    } else {
      DoesNotCommute(keys, e, log2n);
    }
  }

  // ----- Unchecked signatures -----

  /** All these signatures are genuine, and their signers have keys. */
  ghost predicate SignaturesVerify(keys: set<int>, signatures: map<int, Signature>, v: Contribution) {
    forall id :: id in signatures ==> id in keys && Verifies(v, signatures[id], id)
  }

  /** Every signature held for the value is genuine. */
  ghost predicate AllVerify(keys: set<int>, s: State, v: Contribution) {
    v in s ==> SignaturesVerify(keys, s[v].signatures, v)
  }

  /** A phase-1 message a node may handle without throwing and without storing a signature it has not checked: the first
      signer has a key, and the value is known already, or the first signature fails, or all of them verify. */
  ghost predicate Harmless(keys: set<int>, s: State, sv: SignedValue) {
    && Phase1Known(keys, sv)
    && (sv.value in s || !FirstVerifies(sv) || SignaturesVerify(keys, sv.signatures, sv.value))
  }

  lemma OneSignatureIsHarmless(keys: set<int>, s: State, sv: SignedValue)
    requires |sv.signatures| <= 1
    ensures Harmless(keys, s, sv) <==> sv.signatures.Keys <= keys
  {
    if sv.signatures != map[] {
      assert |sv.signatures.Keys| == |sv.signatures|;
      OnlyKey(sv);
      assert forall k :: k in sv.signatures ==> k in sv.signatures.Keys;
    }
  }

  /** A phase-1 message with several signatures is stored whole after only its first is checked. */
  lemma ExtraSignaturesAreNotChecked(keys: set<int>, v: Contribution, first: int, others: set<int>, log2n: nat)
    requires first in keys && |others| == log2n && forall id :: id in others ==> first < id
    ensures var sv := SignedValue(v, (map id | id in others :: Forged(id)) + map[first := Signed(first, v)]);
            var after := HandlePhase1(keys, map[], sv);
            after.Some? && v in Accepted(after.value, log2n)
  {
    var sv := SignedValue(v, (map id | id in others :: Forged(id)) + map[first := Signed(first, v)]);
    assert sv.signatures.Keys == others + {first};
    assert Least(sv.signatures.Keys) == first;
    assert |sv.signatures| == |sv.signatures.Keys|;
  }

  /** Exactly the harmless messages leave a node running with only genuine signatures. */
  lemma VerifiedExactlyWhenHarmless(keys: set<int>, s: State, sv: SignedValue)
    requires AllVerify(keys, s, sv.value)
    ensures var after := HandlePhase1(keys, s, sv);
            after.Some? && AllVerify(keys, after.value, sv.value) <==> Harmless(keys, s, sv)
  {
  }

  // ----- Acceptance -----

  /** What a node multicasts when the shuffle ends: each value it holds, signed, to the value's other proxies. */
  function SignedMessages(node: int, held: set<Contribution>): set<(int, SignedValue)> {
    set v, r | v in held && r in v.proxies && r != node :: (r, SignedValue(v, map[node := Signed(node, v)]))
  }

  lemma SignedMessageAdds(node: int, v: Contribution, log2n: nat)
    ensures node in Adds(Phase1(SignedValue(v, map[node := Signed(node, v)])), v, log2n)
  {
    OnlyKey(SignedValue(v, map[node := Signed(node, v)]));
  }

  /** If f + 2 proxies of a value hold it and their messages arrive, among any others that do not end the process,
      each of them accepts it. */
  lemma HoldersAccept(keys: set<int>, holders: set<int>, held: map<int, set<Contribution>>, v: Contribution, node: int,
                      events: seq<Event>, log2n: nat)
    requires |holders| >= log2n + 2 && node in holders && node in v.proxies
    requires forall p :: p in holders ==> p in held && v in held[p]
    requires forall p, sv :: p in holders && (node, sv) in SignedMessages(p, held[p]) ==> Phase1(sv) in events
    ensures var after := StateAfter(keys, events, log2n);
            (after.Some? <==> AllKnown(keys, events)) && (after.Some? ==> v in Accepted(after.value, log2n))
  {
    var s := Stored(events, log2n);
    SurvivesExactlyWhenKnown(keys, events, log2n);
    forall p | p in holders - {node} ensures p in Ids(s, v) {
      var sv := SignedValue(v, map[p := Signed(p, v)]);
      assert (node, sv) in SignedMessages(p, held[p]);
      SignedMessageAdds(p, v, log2n);
      AddsStay(events, Phase1(sv), v, log2n);
    }
    SubsetSize(holders - {node}, Ids(s, v));
    AcceptedByIds(s, v, log2n);
  }

  /** The node gets exactly what these senders sign for it. */
  ghost predicate HearsExactly(node: int, senders: set<int>, held: map<int, set<Contribution>>, events: seq<Event>) {
    && senders <= held.Keys
    && (forall e :: e in events ==> e.Phase1? && exists p :: p in senders && (node, e.sv) in SignedMessages(p, held[p]))
    && (forall p, sv :: p in senders && (node, sv) in SignedMessages(p, held[p]) ==> Phase1(sv) in events)
  }

  /** The senders, other than the node, that hold the value. */
  function OtherHolders(node: int, senders: set<int>, held: map<int, set<Contribution>>, v: Contribution): set<int>
    requires senders <= held.Keys
  {
    set p | p in senders && p != node && v in held[p]
  }

  lemma HeardIsKnown(keys: set<int>, node: int, senders: set<int>, held: map<int, set<Contribution>>, e: Event)
    requires senders <= keys && senders <= held.Keys && e.Phase1?
    requires exists p :: p in senders && (node, e.sv) in SignedMessages(p, held[p])
    ensures Known(keys, e) && Additive(e)
  {
    var p :| p in senders && (node, e.sv) in SignedMessages(p, held[p]);
    OnlyKey(e.sv);
    assert p in e.sv.signatures.Keys;
  }

  /** The ids a node holds for a value of which it is a proxy are those of the others that hold it. */
  lemma HeardIds(node: int, senders: set<int>, held: map<int, set<Contribution>>, v: Contribution, events: seq<Event>,
                 log2n: nat)
    requires HearsExactly(node, senders, held, events) && AllAdditive(events) && node in v.proxies
    ensures Ids(Stored(events, log2n), v) == OtherHolders(node, senders, held, v)
  {
    forall id ensures id in Ids(Stored(events, log2n), v) <==> id in OtherHolders(node, senders, held, v) {
      IdsAreAdded(events, v, log2n, id);
      if id in OtherHolders(node, senders, held, v) {
        var sv := SignedValue(v, map[id := Signed(id, v)]);
        assert (node, sv) in SignedMessages(id, held[id]);
        SignedMessageAdds(id, v, log2n);
        assert Phase1(sv) in events;
      }
      if e :| e in events && id in Adds(e, v, log2n) {
        var p :| p in senders && (node, e.sv) in SignedMessages(p, held[p]);
        OnlyKey(e.sv);
        assert p in e.sv.signatures.Keys;
      }
    }
  }

  /** A node that gets exactly the signed messages of these senders accepts a value if and only if f + 1 others among
      them hold it: with itself f + 2, because its own signature is never put into its own map. */
  lemma AcceptsExactlyWhenEnoughHold(keys: set<int>, node: int, senders: set<int>, held: map<int, set<Contribution>>,
                                     v: Contribution, events: seq<Event>, log2n: nat)
    requires senders <= keys && HearsExactly(node, senders, held, events) && node in v.proxies
    ensures var after := StateAfter(keys, events, log2n);
            after.Some?
            && (v in Accepted(after.value, log2n) <==> |OtherHolders(node, senders, held, v)| >= log2n + 1)
  {
    forall e | e in events ensures Known(keys, e) && Additive(e) {
      HeardIsKnown(keys, node, senders, held, e);
    }
    SurvivesExactlyWhenKnown(keys, events, log2n);
    HeardIds(node, senders, held, v, events, log2n);
    AcceptedByIds(Stored(events, log2n), v, log2n);
  }

  /** So f silent proxies of the 2f + 1 keep every other proxy from accepting a value all of them hold. */
  lemma SilentFStopAcceptance(keys: set<int>, node: int, proxies: set<int>, silent: set<int>,
                              held: map<int, set<Contribution>>, v: Contribution, events: seq<Event>, f: nat)
    requires proxies == (set p | p in v.proxies) && |proxies| == 2 * f + 1 && proxies <= keys
    requires silent <= proxies && |silent| == f && node in proxies - silent
    requires HearsExactly(node, proxies - silent, held, events)
    ensures var after := StateAfter(keys, events, f); after.Some? && v !in Accepted(after.value, f)
  {
    AcceptsExactlyWhenEnoughHold(keys, node, proxies - silent, held, v, events, f);
    assert |proxies - silent| == |proxies| - |silent|;
    SubsetSize(OtherHolders(node, proxies - silent, held, v), proxies - silent - {node});
  }

  // ----- Propagation -----

  function AcceptMessage(package: SignedValue, accepter: int): AgreementValue {
    AgreementValue(package, accepter, PackageSigned(accepter, package))
  }

  lemma KeptAreValidOrOwn(av: AgreementValue)
    ensures |ValidIds(av)| + 1 >= |Kept(av)|
    ensures Kept(av).Keys - {av.accepter} == ValidIds(av)
  {
    var kept := Kept(av).Keys;
    assert kept - {av.accepter} == ValidIds(av);
    assert |kept - {av.accepter}| >= |kept| - 1;
    assert |Kept(av)| == |kept|;
  }

  /** Nodes with these keys handle the message and then accept its value. */
  ghost predicate Convinces(keys: set<int>, events: seq<Event>, v: Contribution, log2n: nat) {
    var after := StateAfter(keys, events, log2n);
    after.Some? && v in Accepted(after.value, log2n)
  }

  /** An accept message alone convinces a node exactly when its package verifies, all its signers have keys, and
      log2 n + 1 entries survive its check. */
  lemma PropagatesExactlyWhenEntriesSurvive(keys: set<int>, av: AgreementValue, log2n: nat)
    ensures Convinces(keys, [Phase2(av)], av.signedValue.value, log2n)
            <==> PackageVerifies(av) && Phase2Known(keys, av) && |Kept(av)| >= log2n + 1
  {
    KeptAreValidOrOwn(av);
    assert [Phase2(av)][..0] == [];
    assert Stored([Phase2(av)], log2n) == StorePhase2(Stored([], log2n), av, log2n);
    SurvivesExactlyWhenKnown(keys, [Phase2(av)], log2n);
    assert AllKnown(keys, [Phase2(av)]) <==> Known(keys, Phase2(av));
  }

  /** Among whatever other messages, an accept message of which log2 n + 1 entries survive convinces every node. */
  lemma DeliveredCounts(keys: set<int>, events: seq<Event>, av: AgreementValue, log2n: nat)
    requires Phase2(av) in events && AllKnown(keys, events) && PackageVerifies(av) && |Kept(av)| >= log2n + 1
    ensures Convinces(keys, events, av.signedValue.value, log2n)
  {
    var v, s := av.signedValue.value, Stored(events, log2n);
    SurvivesExactlyWhenKnown(keys, events, log2n);
    KeptAreValidOrOwn(av);
    AddsStay(events, Phase2(av), v, log2n);
    assert |Kept(av)| == |Kept(av).Keys|;
    SubsetSize(Kept(av).Keys, Ids(s, v));
    AcceptedByIds(s, v, log2n);
  }

  /** The message arrives among others, none of which ends the process. */
  ghost predicate ArrivesIn(keys: set<int>, av: AgreementValue, events: seq<Event>) {
    Phase2(av) in events && forall e :: e in events ==> e == Phase2(av) || Known(keys, e)
  }

  /** It convinces every node that gets no other message that ends the process. */
  ghost predicate ConvincesEveryNode(keys: set<int>, av: AgreementValue, log2n: nat) {
    forall events: seq<Event> :: ArrivesIn(keys, av, events) ==>
      Convinces(keys, events, av.signedValue.value, log2n)
  }

  /** The entries an accepter holds that no other node will erase: genuine signatures, and its own entry. */
  function LastingIds(s: State, v: Contribution, accepter: int): set<int> {
    if v in s then set id | id in s[v].signatures && (id == accepter || Verifies(v, s[v].signatures[id], id)) else {}
  }

  lemma {:induction false} StoredUnderOwnValue(events: seq<Event>, log2n: nat, v: Contribution)
    ensures var s := Stored(events, log2n); v in s ==> s[v].value == v
    decreases |events|
  {
    if events != [] {
      StoredUnderOwnValue(events[..|events| - 1], log2n, v);
    }
  }

  lemma ConvincesExactlyWhenAlone(keys: set<int>, av: AgreementValue, log2n: nat)
    ensures ConvincesEveryNode(keys, av, log2n)
            <==> PackageVerifies(av) && Phase2Known(keys, av) && |Kept(av)| >= log2n + 1
  {
    PropagatesExactlyWhenEntriesSurvive(keys, av, log2n);
    assert ArrivesIn(keys, av, [Phase2(av)]);
    if PackageVerifies(av) && Phase2Known(keys, av) && |Kept(av)| >= log2n + 1 {
      forall events: seq<Event> | ArrivesIn(keys, av, events)
        ensures Convinces(keys, events, av.signedValue.value, log2n) {
        DeliveredCounts(keys, events, av, log2n);
      }
    }
  }

  lemma AcceptIsKnown(keys: set<int>, package: SignedValue, accepter: int)
    ensures Phase2Known(keys, AcceptMessage(package, accepter)) <==> package.signatures.Keys + {accepter} <= keys
  {
    var av := AcceptMessage(package, accepter);
    if Phase2Known(keys, av) {
      forall id | id in package.signatures.Keys + {accepter} ensures id in keys {
        assert id in package.signatures.Keys ==> id in av.signedValue.signatures;
      }
    }
    if package.signatures.Keys + {accepter} <= keys {
      forall id | id in av.signedValue.signatures ensures id in keys {
        assert id in package.signatures.Keys;
      }
    }
  }

  /** After any messages a node survives, acceptance propagates if and only if log2 n + 1 of the accepter's entries
      last and the accepter and all signers of its entries have keys: its accept message then convinces every node it
      reaches, among any other messages that do not end the process, and else not every one. */
  lemma AcceptancePropagatesExactlyWhenEntriesLast(keys: set<int>, seen: seq<Event>, v: Contribution, accepter: int,
                                                   log2n: nat)
    requires Convinces(keys, seen, v, log2n)
    ensures var s := StateAfter(keys, seen, log2n).value;
            ConvincesEveryNode(keys, AcceptMessage(s[v], accepter), log2n)
            <==> |LastingIds(s, v, accepter)| >= log2n + 1 && s[v].signatures.Keys + {accepter} <= keys
  {
    var s := StateAfter(keys, seen, log2n).value;
    var av := AcceptMessage(s[v], accepter);
    SurvivesExactlyWhenKnown(keys, seen, log2n);
    StoredUnderOwnValue(seen, log2n, v);
    assert Kept(av).Keys == LastingIds(s, v, accepter);
    assert |Kept(av)| == |Kept(av).Keys|;
    AcceptIsKnown(keys, s[v], accepter);
    ConvincesExactlyWhenAlone(keys, av, log2n);
  }

  /** Genuine signatures of the signers, and a forged one under an id that may have no key. */
  function WithForgedEntry(v: Contribution, signers: set<int>, other: int): SignedValue {
    SignedValue(v, (map id | id in signers :: Signed(id, v)) + map[other := Forged(0)])
  }

  lemma AfterOne(keys: set<int>, e: Event, log2n: nat)
    ensures StateAfter(keys, [e], log2n) == React(keys, map[], e, log2n)
  {
    assert [e][..0] == [];
    assert StateAfter(keys, [], log2n) == Some(map[]);
  }

  lemma HeldAlone(keys: set<int>, events: seq<Event>, v: Contribution, package: SignedValue, log2n: nat)
    requires StateAfter(keys, events, log2n) == Some(map[v := package]) && |package.signatures.Keys| >= log2n + 1
    ensures Convinces(keys, events, v, log2n)
  {
    assert |package.signatures| == |package.signatures.Keys|;
  }

  lemma ForgedEntryIsStored(keys: set<int>, v: Contribution, signers: set<int>, unknown: int, log2n: nat)
    requires |signers| == log2n + 1 && signers <= keys
    requires unknown !in keys && forall id :: id in signers ==> id < unknown
    ensures var package := WithForgedEntry(v, signers, unknown);
            && package.signatures.Keys == signers + {unknown}
            && StateAfter(keys, [Phase1(package)], log2n) == Some(map[v := package])
            && Convinces(keys, [Phase1(package)], v, log2n)
  {
    var package := WithForgedEntry(v, signers, unknown);
    assert package.signatures.Keys == signers + {unknown};
    var first := SomeElement(signers);
    assert Least(package.signatures.Keys) in signers;
    AfterOne(keys, Phase1(package), log2n);
    HeldAlone(keys, [Phase1(package)], v, package, log2n);
  }

  /** An entry under an id without a key ends every process that gets the accept message, though log2 n + 1 others
      last. */
  lemma UnknownEntryEndsRecipients(keys: set<int>, v: Contribution, signers: set<int>, unknown: int, accepter: int,
                                   log2n: nat)
    requires |signers| == log2n + 1 && signers <= keys
    requires unknown !in keys && forall id :: id in signers ==> id < unknown
    requires accepter in keys
    ensures var seen := [Phase1(WithForgedEntry(v, signers, unknown))];
            && Convinces(keys, seen, v, log2n)
            && var s := StateAfter(keys, seen, log2n).value;
            && |LastingIds(s, v, accepter)| >= log2n + 1
            && forall events: seq<Event> :: Phase2(AcceptMessage(s[v], accepter)) in events ==>
                 StateAfter(keys, events, log2n).None?
  {
    var package := WithForgedEntry(v, signers, unknown);
    ForgedEntryIsStored(keys, v, signers, unknown, log2n);
    assert LastingIds(map[v := package], v, accepter) == signers;
    var av := AcceptMessage(package, accepter);
    assert unknown in av.signedValue.signatures;
    forall events: seq<Event> | Phase2(av) in events ensures StateAfter(keys, events, log2n).None? {
      SurvivesExactlyWhenKnown(keys, events, log2n);
    }
  }

  /** A message that ends no process and brings nothing but genuine signatures, or nothing at all. */
  ghost predicate BringsGenuine(keys: set<int>, e: Event, log2n: nat) {
    && Known(keys, e)
    && match e
       case Phase1(sv) => !FirstVerifies(sv) || SignaturesVerify(keys, sv.signatures, sv.value)
       case Phase2(av) =>
         || !PackageVerifies(av) || |ValidIds(av)| < log2n
         || SignaturesVerify(keys, Kept(av), av.signedValue.value)
  }

  lemma {:induction false} GenuineStaysGenuine(keys: set<int>, events: seq<Event>, log2n: nat, v: Contribution)
    requires forall e :: e in events ==> BringsGenuine(keys, e, log2n)
    ensures AllVerify(keys, Stored(events, log2n), v)
    decreases |events|
  {
    if events != [] {
      var before, last := events[..|events| - 1], events[|events| - 1];
      GenuineStaysGenuine(keys, before, log2n, v);
      assert BringsGenuine(keys, last, log2n);
    }
  }

  /** In particular it propagates after any mix of messages of both phases that brought only genuine signatures. */
  lemma AcceptancePropagates(keys: set<int>, accepter: int, seen: seq<Event>, node: int, events: seq<Event>,
                             av: AgreementValue, log2n: nat)
    requires accepter in keys && forall e :: e in seen ==> BringsGenuine(keys, e, log2n)
    requires StateAfter(keys, seen, log2n).Some?
             && (node, av) in AcceptMessages(StateAfter(keys, seen, log2n).value, accepter, log2n)
    requires ArrivesIn(keys, av, events)
    ensures Convinces(keys, events, av.signedValue.value, log2n)
  {
    SurvivesExactlyWhenKnown(keys, seen, log2n);
    var s := Stored(seen, log2n);
    var v :| v in Accepted(s, log2n) && av == AgreementValue(s[v], accepter, PackageSigned(accepter, s[v]));
    GenuineStaysGenuine(keys, seen, log2n, v);
    AcceptancePropagatesExactlyWhenEntriesLast(keys, seen, v, accepter, log2n);
    assert LastingIds(s, v, accepter) == Ids(s, v);
    AcceptedByIds(s, v, log2n);
    StoredUnderOwnValue(seen, log2n, v);
    assert ConvincesEveryNode(keys, av, log2n);
  }

  /** The entry of the sender survives the check of its own message, and only that. */
  lemma UncheckedEntryKept(v: Contribution, signers: set<int>, sender: int, accepter: int)
    requires sender !in signers && accepter !in signers && sender != accepter
    ensures var package := WithForgedEntry(v, signers, sender);
            && Kept(AcceptMessage(package, sender)) == package.signatures
            && package.signatures.Keys == signers + {sender}
            && Kept(AcceptMessage(package, accepter)).Keys == signers
  {
    var package := WithForgedEntry(v, signers, sender);
    assert package.signatures.Keys == signers + {sender};
    assert Kept(AcceptMessage(package, sender)) == package.signatures;
    assert Kept(AcceptMessage(package, accepter)).Keys == signers;
  }

  lemma WholePackageIsStored(keys: set<int>, package: SignedValue, sender: int, log2n: nat)
    requires package.signatures.Keys + {sender} <= keys && |ValidIds(AcceptMessage(package, sender))| >= log2n
    requires Kept(AcceptMessage(package, sender)) == package.signatures
    ensures StateAfter(keys, [Phase2(AcceptMessage(package, sender))], log2n) == Some(map[package.value := package])
  {
    AfterOne(keys, Phase2(AcceptMessage(package, sender)), log2n);
    AcceptIsKnown(keys, package, sender);
  }

  lemma EarlyMessageIsStored(keys: set<int>, v: Contribution, signers: set<int>, sender: int, log2n: nat)
    requires |signers| == log2n && sender !in signers && signers + {sender} <= keys
    requires Kept(AcceptMessage(WithForgedEntry(v, signers, sender), sender)) ==
             WithForgedEntry(v, signers, sender).signatures
    ensures var package := WithForgedEntry(v, signers, sender);
            && StateAfter(keys, [Phase2(AcceptMessage(package, sender))], log2n) == Some(map[v := package])
            && Convinces(keys, [Phase2(AcceptMessage(package, sender))], v, log2n)
  {
    var package := WithForgedEntry(v, signers, sender);
    KeptAreValidOrOwn(AcceptMessage(package, sender));
    assert package.signatures.Keys == signers + {sender};
    assert package.signatures.Keys - {sender} == signers;
    WholePackageIsStored(keys, package, sender, log2n);
    HeldAlone(keys, [Phase2(AcceptMessage(package, sender))], v, package, log2n);
  }

  /** An accept message with fewer lasting entries is handled without convincing. */
  lemma HandledInVain(keys: set<int>, package: SignedValue, accepter: int, kept: set<int>, log2n: nat)
    requires package.signatures.Keys + {accepter} <= keys && |kept| <= log2n
    requires Kept(AcceptMessage(package, accepter)).Keys == kept
    ensures StateAfter(keys, [Phase2(AcceptMessage(package, accepter))], log2n).Some?
    ensures !Convinces(keys, [Phase2(AcceptMessage(package, accepter))], package.value, log2n)
  {
    var av := AcceptMessage(package, accepter);
    AcceptIsKnown(keys, package, accepter);
    SurvivesExactlyWhenKnown(keys, [Phase2(av)], log2n);
    PropagatesExactlyWhenEntriesSurvive(keys, av, log2n);
    assert |Kept(av)| == |Kept(av).Keys|;
  }

  /** Accepting after an early phase-2 message need not propagate: the sender's own unchecked entry
      counts at the accepter but is erased by everyone the accepter tells. */
  lemma EarlyPhase2NeedNotPropagate(keys: set<int>, v: Contribution, signers: set<int>, sender: int, accepter: int,
                                    log2n: nat)
    requires |signers| == log2n && sender !in signers && accepter !in signers && sender != accepter
    requires signers + {sender, accepter} <= keys
    ensures var seen := [Phase2(AcceptMessage(WithForgedEntry(v, signers, sender), sender))];
            && Convinces(keys, seen, v, log2n)
            && var s := StateAfter(keys, seen, log2n).value;
            && StateAfter(keys, [Phase2(AcceptMessage(s[v], accepter))], log2n).Some?
            && !Convinces(keys, [Phase2(AcceptMessage(s[v], accepter))], v, log2n)
  {
    var package := WithForgedEntry(v, signers, sender);
    UncheckedEntryKept(v, signers, sender, accepter);
    EarlyMessageIsStored(keys, v, signers, sender, log2n);
    HandledInVain(keys, package, accepter, signers, log2n);
  }

  // ----- Integrity against Byzantine nodes -----

  /** The correct nodes with what each held when it signed, and the Byzantine ones. */
  datatype Parties = Parties(held: map<int, set<Contribution>>, byzantine: set<int>) {
    ghost predicate Valid() {
      held.Keys !! byzantine
    }

    /** A signature id counts as honest support for a value, or may come from a Byzantine node. */
    ghost predicate Plausible(id: int, v: Contribution) {
      id in byzantine || (id in held && v in held[id])
    }
  }

  /** Every correct node's state, None if its process has ended, and the packages correct nodes have signed so far. */
  datatype Net = Net(states: map<int, Option<State>>, packages: set<(int, SignedValue)>)

  /** Only Byzantine nodes can have produced signatures no correct node made. */
  ghost predicate Unforged(p: Parties, net: Net, e: Event) {
    var sv := if e.Phase1? then e.sv else e.av.signedValue;
    && (forall id :: id in sv.signatures && Verifies(sv.value, sv.signatures[id], id) ==> p.Plausible(id, sv.value))
    && (e.Phase2? && PackageVerifies(e.av) && e.av.accepter !in p.byzantine ==>
         (e.av.accepter, e.av.signedValue) in net.packages)
  }

  ghost predicate Running(net: Net, q: int) {
    q in net.states && net.states[q].Some?
  }

  /** A correct node gets a message; it handles it or its process ends. A phase-1 message it handles is harmless. */
  ghost predicate ReceiveStep(p: Parties, keys: set<int>, log2n: nat, net: Net, net': Net, q: int, e: Event) {
    && Running(net, q) && Unforged(p, net, e)
    && (e.Phase1? && Phase1Known(keys, e.sv) ==> Harmless(keys, net.states[q].value, e.sv))
    && net' == net.(states := net.states[q := React(keys, net.states[q].value, e, log2n)])
  }

  /** A correct node finishes phase 1, signing a package for each value it accepts. */
  ghost predicate FinishStep(p: Parties, log2n: nat, net: Net, net': Net, q: int) {
    && Running(net, q)
    && net' == net.(packages := net.packages
                                + set m | m in AcceptMessages(net.states[q].value, q, log2n) :: (q, m.1.signedValue))
  }

  ghost predicate Step(p: Parties, keys: set<int>, log2n: nat, net: Net, net': Net) {
    || (exists q, e :: ReceiveStep(p, keys, log2n, net, net', q, e))
    || (exists q :: FinishStep(p, log2n, net, net', q))
  }

  ghost predicate IsRun(p: Parties, keys: set<int>, log2n: nat, run: seq<Net>) {
    && p.Valid() && |run| > 0
    && run[0] == Net(map q | q in p.held :: Some(map[]), {})
    && forall k :: 0 <= k < |run| - 1 ==> Step(p, keys, log2n, run[k], run[k + 1])
  }

  ghost predicate StatePlausible(p: Parties, s: State) {
    && (forall v :: v in s ==> s[v].value == v)
    && (forall v, id :: id in Ids(s, v) ==> p.Plausible(id, v))
  }

  ghost predicate Inv(p: Parties, net: Net) {
    && net.states.Keys == p.held.Keys
    && (forall q :: Running(net, q) ==> StatePlausible(p, net.states[q].value))
    && (forall m :: m in net.packages ==>
         m.0 in p.held && forall id :: id in m.1.signatures ==> p.Plausible(id, m.1.value))
  }

  lemma AddedIsPlausible(p: Parties, log2n: nat, net: Net, e: Event, v: Contribution, id: int)
    requires p.Valid() && Inv(p, net) && Unforged(p, net, e) && id in Adds(e, v, log2n)
    ensures p.Plausible(id, v)
  {
    if e.Phase2? && id == e.av.accepter && id !in p.byzantine {
      assert (e.av.accepter, e.av.signedValue) in net.packages;
    }
  }

  lemma ReceiveKeepsPlausible(p: Parties, keys: set<int>, log2n: nat, net: Net, q: int, e: Event)
    requires p.Valid() && Inv(p, net) && Running(net, q) && Unforged(p, net, e) && Known(keys, e)
    requires e.Phase1? ==> Harmless(keys, net.states[q].value, e.sv)
    ensures StatePlausible(p, Store(net.states[q].value, e, log2n))
  {
    var s := net.states[q].value;
    forall v, id | id in Ids(Store(s, e, log2n), v) ensures p.Plausible(id, v) {
      if id !in Ids(s, v) && id in Adds(e, v, log2n) {
        AddedIsPlausible(p, log2n, net, e, v, id);
      }
    }
  }

  lemma FinishKeepsInv(p: Parties, log2n: nat, net: Net, net': Net, q: int)
    requires p.Valid() && Inv(p, net) && FinishStep(p, log2n, net, net', q)
    ensures Inv(p, net')
  {
    var s := net.states[q].value;
    forall m | m in net'.packages && m !in net.packages
      ensures m.0 in p.held && forall id :: id in m.1.signatures ==> p.Plausible(id, m.1.value) {
      var v :| v in Accepted(s, log2n) && m == (q, s[v]);
      forall id | id in m.1.signatures ensures p.Plausible(id, m.1.value) {
        assert id in Ids(s, v);
      }
    }
  }

  lemma StepKeepsInv(p: Parties, keys: set<int>, log2n: nat, net: Net, net': Net)
    requires p.Valid() && Inv(p, net) && Step(p, keys, log2n, net, net')
    ensures Inv(p, net')
  {
    if q, e :| ReceiveStep(p, keys, log2n, net, net', q, e) {
      if Known(keys, e) {
        ReceiveKeepsPlausible(p, keys, log2n, net, q, e);
      }
    } else {
      var q :| FinishStep(p, log2n, net, net', q);
      FinishKeepsInv(p, log2n, net, net', q);
    }
  }

  lemma {:induction false} RunKeepsInv(p: Parties, keys: set<int>, log2n: nat, run: seq<Net>, k: nat)
    requires IsRun(p, keys, log2n, run) && k < |run|
    ensures Inv(p, run[k])
  {
    if k > 0 {
      RunKeepsInv(p, keys, log2n, run, k - 1);
      assert Step(p, keys, log2n, run[k - 1], run[(k - 1) + 1]);
      StepKeepsInv(p, keys, log2n, run[k - 1], run[k]);
    }
  }

  /** With at most log2 n Byzantine nodes, whatever a correct node accepts in any run was held and
      signed by some correct node. */
  lemma AcceptedWasSignedByCorrect(p: Parties, keys: set<int>, log2n: nat, run: seq<Net>, k: nat, q: int,
                                   v: Contribution)
    requires IsRun(p, keys, log2n, run) && k < |run| && |p.byzantine| <= log2n
    requires Running(run[k], q) && v in Accepted(run[k].states[q].value, log2n)
    ensures exists i :: i in p.held && v in p.held[i]
  {
    RunKeepsInv(p, keys, log2n, run, k);
    var s := run[k].states[q].value;
    AcceptedByIds(s, v, log2n);
    var honest := Ids(s, v) - p.byzantine;
    if honest == {} {
      forall id | id in Ids(s, v) ensures id in p.byzantine {
        assert id !in honest;
      }
      SubsetSize(Ids(s, v), p.byzantine);
    } else {
      var id := SomeElement(honest);
      assert p.Plausible(id, v);
    }
  }
}
