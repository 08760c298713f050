/** The whole query when some nodes fall silent after the shuffle and all others are correct: what the proxies hold is
    what they accept, is what the roots of groups without failures send, is what the server reports. */
module FailSilent {
  import opened Agreement
  import opened AgreementRun
  import opened Collections
  import opened Contributions
  import opened NumberTheory
  import opened Results
  import AggregationRun
  import GroupTotals
  import QueryServer

  /** The contributions a node should hold after the shuffle: those that name it as a proxy. */
  function Held(cs: set<Contribution>, node: int): set<Contribution> {
    set c | c in cs && node in c.proxies
  }

  /** The ids with keys, the nodes that send nothing, what each node holds after the shuffle, the messages it handles
      before it finishes phase 1, and those it handles in all. */
  datatype Exchange = Exchange(n: nat, log2n: nat, cs: set<Contribution>, keys: set<int>, silent: set<int>,
                               held: int -> set<Contribution>, early: int -> seq<Event>, all: int -> seq<Event>) {
    predicate Speaks(node: int) {
      0 <= node < n && node !in silent
    }

    ghost predicate SentInPhase1(node: int, e: Event) {
      e.Phase1? && exists p :: Speaks(p) && (node, e.sv) in SignedMessages(p, held(p))
    }

    /** Node p is still running when it finishes phase 1 and then sends the node this accept message. */
    ghost predicate Accepts(p: int, node: int, av: AgreementValue) {
      var after := StateAfter(keys, early(p), log2n);
      after.Some? && (node, av) in AcceptMessages(after.value, p, log2n)
    }

    ghost predicate SentInPhase2(node: int, e: Event) {
      e.Phase2? && exists p :: Speaks(p) && Accepts(p, node, e.av)
    }

    ghost predicate FaithfulTo(node: int) {
      && (forall e :: e in early(node) ==> SentInPhase1(node, e))
      && (forall e :: e in all(node) ==> SentInPhase1(node, e) || SentInPhase2(node, e))
      && (forall e :: SentInPhase1(node, e) ==> e in all(node))
    }

    /** Nodes handle only what speaking nodes have sent; phase-1 messages all arrive at last, in any order, and of the
        accept messages any that may. Every node has the keys of all nodes. */
    ghost predicate Faithful() {
      && (forall i :: 0 <= i < n ==> i in keys)
      && (forall node :: Speaks(node) ==> FaithfulTo(node) && held(node) == Held(cs, node))
    }

    /** The proxies of a contribution that send what they hold. */
    function SpeakingProxies(c: Contribution): set<int> {
      set p | p in c.proxies && Speaks(p)
    }

    /** The contributions naming the node that f + 2 speaking proxies hold. */
    function SpokenFor(node: int): set<Contribution> {
      set c | c in Held(cs, node) && |SpeakingProxies(c)| >= log2n + 2
    }

    /** What a node accepts in the end, if it is still running. */
    ghost function AcceptedAt(node: int): Option<set<Contribution>> {
      var after := StateAfter(keys, all(node), log2n);
      if after.Some? then Some(Accepted(after.value, log2n)) else None
    }
  }

  // ----- Where signatures come from -----

  lemma Phase1Carries(x: Exchange, node: int, e: Event)
    requires x.Faithful() && x.SentInPhase1(node, e)
    ensures Known(x.keys, e) && Additive(e) && e.sv.value in Held(x.cs, node)
    ensures Adds(e, e.sv.value, x.log2n) <= x.SpeakingProxies(e.sv.value) - {node}
  {
    var p :| x.Speaks(p) && (node, e.sv) in SignedMessages(p, x.held(p));
    OnlyKey(e.sv);
    assert p in e.sv.signatures.Keys;
    assert x.held(p) == Held(x.cs, p);
  }

  /** The ids these messages bring for a value are those of speaking proxies other than the node. */
  lemma Phase1Ids(x: Exchange, node: int, events: seq<Event>, v: Contribution)
    requires x.Faithful() && forall e :: e in events ==> x.SentInPhase1(node, e)
    ensures AllKnown(x.keys, events) && AllAdditive(events)
    ensures Ids(Stored(events, x.log2n), v) <= x.SpeakingProxies(v) - {node}
  {
    forall e | e in events ensures Known(x.keys, e) && Additive(e) {
      Phase1Carries(x, node, e);
    }
    forall id | id in Ids(Stored(events, x.log2n), v) ensures id in x.SpeakingProxies(v) - {node} {
      IdsAreAdded(events, v, x.log2n, id);
      var e :| e in events && id in Adds(e, v, x.log2n);
      Phase1Carries(x, node, e);
    }
  }

  /** Somebody must have signed an accepted value. */
  lemma AddedBySomeEvent(events: seq<Event>, v: Contribution, log2n: nat) returns (e: Event)
    requires AllAdditive(events) && v in Accepted(Stored(events, log2n), log2n)
    ensures e in events && Adds(e, v, log2n) != {}
  {
    AcceptedByIds(Stored(events, log2n), v, log2n);
    var id := SomeElement(Ids(Stored(events, log2n), v));
    IdsAreAdded(events, v, log2n, id);
    e :| e in events && id in Adds(e, v, log2n);
  }

  /** What a node accepts at the end of phase 1 it holds, and so do f + 2 speaking proxies in all. */
  lemma EarlyAccepted(x: Exchange, node: int, v: Contribution)
    requires x.Faithful() && x.Speaks(node) && v in Accepted(Stored(x.early(node), x.log2n), x.log2n)
    ensures v in Held(x.cs, node) && |x.SpeakingProxies(v)| >= x.log2n + 2
    ensures Stored(x.early(node), x.log2n)[v].value == v
    ensures Ids(Stored(x.early(node), x.log2n), v) <= x.SpeakingProxies(v)
  {
    assert x.FaithfulTo(node);
    StoredUnderOwnValue(x.early(node), x.log2n, v);
    Phase1Ids(x, node, x.early(node), v);
    var e := AddedBySomeEvent(x.early(node), v, x.log2n);
    Phase1Carries(x, node, e);
    AcceptedByIds(Stored(x.early(node), x.log2n), v, x.log2n);
    SubsetSize(Ids(Stored(x.early(node), x.log2n), v), x.SpeakingProxies(v) - {node});
    assert node in x.SpeakingProxies(v);
  }

  /** An accept message ends no process; it is for a value that f + 2 speaking proxies hold. */
  lemma Phase2Carries(x: Exchange, node: int, e: Event)
    requires x.Faithful() && x.SentInPhase2(node, e)
    ensures Known(x.keys, e) && e.av.signedValue.value in Held(x.cs, node)
    ensures |x.SpeakingProxies(e.av.signedValue.value)| >= x.log2n + 2
  {
    var p :| x.Speaks(p) && x.Accepts(p, node, e.av);
    SurvivesExactlyWhenKnown(x.keys, x.early(p), x.log2n);
    var s := Stored(x.early(p), x.log2n);
    var v :| v in Accepted(s, x.log2n) && node in v.proxies && e.av == AgreementValue(s[v], p, PackageSigned(p, s[v]));
    EarlyAccepted(x, p, v);
    forall id | id in s[v].signatures.Keys + {p} ensures id in x.keys {
      assert id in s[v].signatures.Keys ==> id in Ids(s, v);
    }
    AcceptIsKnown(x.keys, s[v], p);
  }

  lemma AllAreKnown(x: Exchange, node: int)
    requires x.Faithful() && x.Speaks(node)
    ensures AllKnown(x.keys, x.all(node)) && AllAdditive(x.all(node))
  {
    assert x.FaithfulTo(node);
    forall e | e in x.all(node) ensures Known(x.keys, e) && Additive(e) {
      if x.SentInPhase1(node, e) {
        Phase1Carries(x, node, e);
      } else {
        Phase2Carries(x, node, e);
      }
    }
  }

  // ----- What is accepted -----

  lemma AcceptedIsHeld(x: Exchange, node: int, v: Contribution)
    requires x.Faithful() && x.Speaks(node) && v in Accepted(Stored(x.all(node), x.log2n), x.log2n)
    ensures v in Held(x.cs, node)
  {
    assert x.FaithfulTo(node);
    AllAreKnown(x, node);
    var e := AddedBySomeEvent(x.all(node), v, x.log2n);
    if x.SentInPhase1(node, e) {
      Phase1Carries(x, node, e);
    } else {
      Phase2Carries(x, node, e);
    }
  }

  /** An id comes with a signed value of its own, or with an accept message, behind which f + 2 proxies stand. */
  lemma IdOfSpeaking(x: Exchange, node: int, v: Contribution, id: int)
    requires x.Faithful() && x.Speaks(node) && id in Ids(Stored(x.all(node), x.log2n), v)
    ensures id in x.SpeakingProxies(v) - {node} || |x.SpeakingProxies(v)| >= x.log2n + 2
  {
    assert x.FaithfulTo(node);
    AllAreKnown(x, node);
    IdsAreAdded(x.all(node), v, x.log2n, id);
    var e :| e in x.all(node) && id in Adds(e, v, x.log2n);
    if x.SentInPhase1(node, e) {
      Phase1Carries(x, node, e);
    } else {
      Phase2Carries(x, node, e);
    }
  }

  lemma AcceptedIsSpokenFor(x: Exchange, node: int, v: Contribution)
    requires x.Faithful() && x.Speaks(node) && v in Accepted(Stored(x.all(node), x.log2n), x.log2n)
    ensures |x.SpeakingProxies(v)| >= x.log2n + 2
  {
    AcceptedIsHeld(x, node, v);
    assert node in x.SpeakingProxies(v);
    if |x.SpeakingProxies(v)| < x.log2n + 2 {
      var s := Stored(x.all(node), x.log2n);
      forall id | id in Ids(s, v) ensures id in x.SpeakingProxies(v) - {node} {
        IdOfSpeaking(x, node, v, id);
      }
      AcceptedByIds(s, v, x.log2n);
      SubsetSize(Ids(s, v), x.SpeakingProxies(v) - {node});
    }
  }

  lemma SpokenForIsAccepted(x: Exchange, node: int, v: Contribution)
    requires x.Faithful() && x.Speaks(node) && v in Held(x.cs, node) && |x.SpeakingProxies(v)| >= x.log2n + 2
    ensures v in Accepted(Stored(x.all(node), x.log2n), x.log2n)
  {
    assert x.FaithfulTo(node);
    var holders := x.SpeakingProxies(v);
    var held := map p | p in holders :: x.held(p);
    forall p, sv | p in holders && (node, sv) in SignedMessages(p, held[p]) ensures Phase1(sv) in x.all(node) {
      assert x.SentInPhase1(node, Phase1(sv));
    }
    AllAreKnown(x, node);
    SurvivesExactlyWhenKnown(x.keys, x.all(node), x.log2n);
    HoldersAccept(x.keys, holders, held, v, node, x.all(node), x.log2n);
  }

  /** A node that speaks survives and accepts exactly those of the contributions naming it that f + 2 speaking proxies
      hold, itself among them. */
  lemma AcceptsExactlyWhatIsSpokenFor(x: Exchange, node: int)
    requires x.Faithful() && x.Speaks(node)
    ensures x.AcceptedAt(node) == Some(x.SpokenFor(node))
  {
    AllAreKnown(x, node);
    SurvivesExactlyWhenKnown(x.keys, x.all(node), x.log2n);
    var accepted := Accepted(Stored(x.all(node), x.log2n), x.log2n);
    forall v ensures v in accepted <==> v in Held(x.cs, node) && |x.SpeakingProxies(v)| >= x.log2n + 2 {
      if v in accepted {
        AcceptedIsHeld(x, node, v);
        AcceptedIsSpokenFor(x, node, v);
      }
      if v in Held(x.cs, node) && |x.SpeakingProxies(v)| >= x.log2n + 2 {
        SpokenForIsAccepted(x, node, v);
      }
    }
    assert accepted == x.SpokenFor(node);
  }

  lemma ProxiesDiffer(c: Contribution, groups: nat, n: nat)
    requires 2 <= groups <= n && GroupTotals.ProxyPerGroup(c, groups, n)
    ensures |set p | p in c.proxies| == groups && forall p :: p in c.proxies ==> 0 <= p < n
  {
    assert forall g, h :: 0 <= g < h < |c.proxies| ==> c.proxies[g] != c.proxies[h];
    DistinctSize(c.proxies);
  }

  /** Fewer than f silent nodes leave f + 2 of the 2f + 1 proxies speaking. */
  lemma EnoughSpeak(x: Exchange, c: Contribution)
    requires x.log2n >= 1 && 2 * x.log2n + 1 <= x.n && GroupTotals.ProxyPerGroup(c, 2 * x.log2n + 1, x.n)
    requires |x.silent| < x.log2n
    ensures |x.SpeakingProxies(c)| >= x.log2n + 2
  {
    ProxiesDiffer(c, 2 * x.log2n + 1, x.n);
    var proxies := set p | p in c.proxies;
    DifferenceSize(proxies, x.silent);
    assert x.SpeakingProxies(c) == proxies - x.silent;
  }

  /** Fewer than f silent nodes change nothing for the others: each accepts exactly what it held. */
  lemma AgreementKeepsHeld(x: Exchange, node: int)
    requires x.log2n >= 1 && 2 * x.log2n + 1 <= x.n && x.Faithful() && x.Speaks(node) && |x.silent| < x.log2n
    requires forall c :: c in x.cs ==> GroupTotals.ProxyPerGroup(c, 2 * x.log2n + 1, x.n)
    ensures x.AcceptedAt(node) == Some(Held(x.cs, node))
  {
    AcceptsExactlyWhatIsSpokenFor(x, node);
    forall c | c in Held(x.cs, node) ensures |x.SpeakingProxies(c)| >= x.log2n + 2 {
      EnoughSpeak(x, c);
    }
    assert x.SpokenFor(node) == Held(x.cs, node);
  }

  lemma AcceptedAreNamed(x: Exchange, s: AggregationRun.Setting, bad: set<int>, j: nat)
    requires x.log2n >= 1 && 2 * x.log2n + 1 <= x.n && x.Faithful() && |x.silent| < x.log2n && x.silent <= bad
    requires forall c :: c in x.cs ==> GroupTotals.ProxyPerGroup(c, 2 * x.log2n + 1, x.n)
    requires j < x.n && j !in bad && Some(s.accepted(j)) == x.AcceptedAt(j)
    ensures GroupTotals.AcceptedNamed(s, x.cs, j)
  {
    AgreementKeepsHeld(x, j);
  }

  /** End to end. Each contribution names one proxy per group; fewer than f nodes fall silent after the shuffle and at
      most f are bad in all, silent or failed or aggregating something else than they accepted; the proxies named hold
      the contribution; the agreement messages of all but the silent arrive in any order; the trees run in any order;
      the server gets the results of the groups without a bad node, and whatever else up to 2f + 1 results in all. It
      reports the aggregate of all contributions, each counted once. */
  lemma QueryAnswersTotal(x: Exchange, s: AggregationRun.Setting, run: seq<AggregationRun.System>, q: nat,
                          ms: seq<QueryServer.Result>, from: seq<int>, bad: set<int>)
    requires x.log2n >= 1 && 2 * x.log2n + 1 <= x.n && x.Faithful()
    requires |x.silent| < x.log2n && x.silent + s.failed <= bad && |bad| <= x.log2n
    requires forall c :: c in x.cs ==> GroupTotals.ProxyPerGroup(c, 2 * x.log2n + 1, x.n)
    requires s.a.Lawful() && s.n == x.n && s.forest == GroupTotals.OverlayForest(2 * x.log2n + 1, x.n)
    requires forall j: nat :: j < x.n && j !in bad ==> Some(s.accepted(j)) == x.AcceptedAt(j)
    requires AggregationRun.IsRun(s, run) && !AggregationRun.Enabled(s, run[|run| - 1])
    requires |ms| <= 2 * x.log2n + 1
    requires QueryServer.HeardFrom(s, run, q, 2 * x.log2n + 1, GroupTotals.Untouched(bad, 2 * x.log2n + 1, x.n), ms,
                                   from)
    ensures var events := QueryServer.WholeSession(x.log2n, q, ms);
            && QueryServer.IsRun(x.log2n, events)
            && QueryServer.RunOf(x.log2n, events).reported == [(q, Some(s.a.Total(multiset(x.cs))))]
  {
    GroupTotals.OverlayForestIsWellFormed(2 * x.log2n + 1, x.n);
    forall j: nat | j < s.n && j !in bad ensures GroupTotals.AcceptedNamed(s, x.cs, j) {
      AcceptedAreNamed(x, s, bad, j);
    }
    QueryServer.QueryAnswersTotal(x.log2n, q, s, x.cs, run, ms, from, bad);
  }
}
