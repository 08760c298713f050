/** A query from the first onion to the report, as far as nothing stops it on the way. */
module WholeQuery {
  import opened Contributions
  import opened FailSilent
  import opened LockStep
  import opened NumberTheory
  import opened Overlay
  import opened PathSpec
  import opened Results
  import opened ShuffleResult
  import AggregationRun
  import GroupTotals
  import QueryServer
  import RoundSystem

  /** The contributions among all of which a node holds the payload. */
  function HeldShares(sh: Shares, s: RoundSystem.System, j: int): set<Contribution>
    requires 0 <= j < |s.nodes|
  {
    set c | c in sh.All() && sh.carry(c) in s.nodes[j].core.contributions
  }

  /** If all get there in time a node holds exactly the contributions that name it after the shuffle. */
  lemma HeldAreNamed(w: World, sh: Shares, run: seq<RoundSystem.System>, a: nat, j: int)
    requires RoundSystem.IsRun(w, run) && a < |run| && run[a].AllAlive()
    requires SharesAreSent(w, sh) && AllGetThere(w, sh) && sh.CarriesApart()
    requires w.IsNode(j) && run[a].nodes[j].core.round > w.cfg.Span()
    ensures HeldShares(sh, run[a], j) == Held(sh.All(), j)
  {
    ShuffleDeliversExactly(w, sh, run, a, j);
    NamedArrive(w, sh, j);
    forall c | c in sh.All() ensures c in HeldShares(sh, run[a], j) <==> j in c.proxies {
      if c in HeldShares(sh, run[a], j) {
        var i :| i in sh.own && j in sh.own[i].proxies && sh.carry(sh.own[i]) == sh.carry(c);
        assert sh.own[i] in sh.All();
      } else {
        var i :| i in sh.own && sh.own[i] == c;
        assert j in c.proxies ==> sh.carry(c) in sh.Named(j);
      }
    }
  }

  /** The exchange of agreement messages starts from what the nodes hold after the shuffle. */
  ghost predicate FollowsShuffle(x: Exchange, w: World, sh: Shares, s: RoundSystem.System)
    requires w.Valid()
  {
    && x.n == w.cfg.n == |s.nodes| && x.cs == sh.All() && x.log2n == w.cfg.Faults()
    && (forall i :: 0 <= i < x.n ==> i in x.keys)
    && (forall j :: x.Speaks(j) ==> x.FaithfulTo(j) && x.held(j) == HeldShares(sh, s, j))
  }

  /** All nodes have taken part in the shuffle and left it. */
  ghost predicate ShuffleIsOver(w: World, s: RoundSystem.System)
    requires w.Valid()
  {
    s.AllAlive() && forall j :: 0 <= j < |s.nodes| ==> s.nodes[j].core.round > w.cfg.Span()
  }

  lemma FaultsPositive(w: World)
    requires w.Valid()
    ensures w.cfg.Faults() >= 1
  {
    assert Pow(2, 0) == 1;
  }

  /** Every contribution names one proxy in each of the 2f + 1 groups, and not its owner. */
  ghost predicate NamesOnePerGroup(w: World, sh: Shares)
    requires w.Valid()
  {
    FaultsPositive(w);
    && 2 * w.cfg.Faults() + 1 <= w.cfg.n
    && forall i :: i in sh.own ==>
      i !in sh.own[i].proxies && GroupTotals.ProxyPerGroup(sh.own[i], 2 * w.cfg.Faults() + 1, w.cfg.n)
  }

  lemma FaithfulAfterShuffle(w: World, sh: Shares, rounds: seq<RoundSystem.System>, a: nat, x: Exchange)
    requires RoundSystem.IsRun(w, rounds) && a < |rounds| && ShuffleIsOver(w, rounds[a])
    requires SharesAreSent(w, sh) && AllGetThere(w, sh) && sh.CarriesApart() && FollowsShuffle(x, w, sh, rounds[a])
    ensures x.Faithful()
  {
    forall j | x.Speaks(j) ensures x.FaithfulTo(j) && x.held(j) == Held(x.cs, j) {
      HeldAreNamed(w, sh, rounds, a, j);
    }
  }

  /** The trees after the agreement, and the results the server gets: at most f nodes are bad in all, the others
      aggregate what they accepted, and the groups without a bad node are heard. */
  ghost predicate FollowsAgreement(x: Exchange, s: AggregationRun.Setting, run: seq<AggregationRun.System>, q: nat,
                                   ms: seq<QueryServer.Result>, from: seq<int>, bad: set<int>)
  {
    && x.log2n >= 1 && 2 * x.log2n + 1 <= x.n
    && x.silent + s.failed <= bad && |bad| <= x.log2n
    && s.a.Lawful() && s.n == x.n && s.forest == GroupTotals.OverlayForest(2 * x.log2n + 1, x.n)
    && (forall j: nat :: j < x.n && j !in bad ==> Some(s.accepted(j)) == x.AcceptedAt(j))
    && AggregationRun.IsRun(s, run) && !AggregationRun.Enabled(s, run[|run| - 1])
    && |ms| <= 2 * x.log2n + 1
    && QueryServer.HeardFrom(s, run, q, 2 * x.log2n + 1, GroupTotals.Untouched(bad, 2 * x.log2n + 1, x.n), ms, from)
  }

  /** The query is answered with the aggregate of all contributions, each counted once. */
  ghost predicate AnswersTotal(f: nat, s: AggregationRun.Setting, q: nat, ms: seq<QueryServer.Result>,
                               cs: set<Contribution>) {
    var events := QueryServer.WholeSession(f, q, ms);
    QueryServer.IsRun(f, events) && QueryServer.RunOf(f, events).reported == [(q, Some(s.a.Total(multiset(cs))))]
  }

  /** End to end. Every contribution gets to its proxies during the shuffle, which all nodes leave alive; then fewer
      than f nodes fall silent; the agreement messages of the others arrive in any order; at most f nodes are bad in
      all; the trees run in any order; the server gets the results of the groups without a bad node, and whatever else.
      It reports the aggregate of all contributions, each counted once. */
  lemma QueryAnswersTotal(w: World, sh: Shares, rounds: seq<RoundSystem.System>, a: nat, x: Exchange,
                          s: AggregationRun.Setting, run: seq<AggregationRun.System>, q: nat,
                          ms: seq<QueryServer.Result>, from: seq<int>, bad: set<int>)
    requires RoundSystem.IsRun(w, rounds) && a < |rounds| && ShuffleIsOver(w, rounds[a])
    requires SharesAreSent(w, sh) && AllGetThere(w, sh) && sh.CarriesApart()
    requires NamesOnePerGroup(w, sh)
    requires FollowsShuffle(x, w, sh, rounds[a]) && |x.silent| < x.log2n
    requires FollowsAgreement(x, s, run, q, ms, from, bad)
    ensures AnswersTotal(x.log2n, s, q, ms, sh.All())
  {
    FaultsPositive(w);
    FaithfulAfterShuffle(w, sh, rounds, a, x);
    FailSilent.QueryAnswersTotal(x, s, run, q, ms, from, bad);
  }

  // ----- 29 and 37 meters -----

  /** The two smallest listed sizes over which proxies can be picked. */
  lemma TwoSizes(n: nat)
    requires n == 29 || n == 37
    ensures TwoIsPrimitive(n) && CeilLog2(n) == if n == 29 then 5 else 6
  {
    assert Pow(2, 4) == 16 && Pow(2, 5) == 32 && Pow(2, 6) == 64;
    if n == 29 {
      LogIs(29, 5);
      TwoIsPrimitiveModulo29();
    } else {
      LogIs(37, 6);
      TwoIsPrimitiveModulo37();
    }
  }

  /** Over 29 or 37 meters no search for the proxies of a contribution, or for all but one of them, ever throws,
      whatever the round, and its paths are all planned within n + 2 rounds. */
  lemma NoSearchThrowsOver29Or37(source: int, targets: seq<int>, n: nat, start: nat)
    requires (n == 29 || n == 37) && 0 <= source < n && OthersOnly(source, targets, n) && |targets| >= 2 * CeilLog2(n)
    ensures FindPathsSpec(source, targets, n, start).Found?
    ensures var paths := FindPathsSpec(source, targets, n, start).value;
            |paths| == |targets| && forall a :: 0 <= a < |paths| ==> EndsBy(paths[a], start + n + 1)
  {
    TwoSizes(n);
    NoSearchFails(source, targets, n, start);
  }

  lemma TwoSizesSuit(w: World)
    requires w.Valid() && (w.cfg.n == 29 || w.cfg.n == 37)
    ensures Suits(w) && w.cfg.n - 1 <= w.cfg.LogN() * (2 * w.cfg.Faults() + 1)
  {
    TwoSizes(w.cfg.n);
    SquareIs(w.cfg.LogN());
  }

  lemma OnePerGroupIsEnough(w: World, sh: Shares)
    requires w.Valid() && NamesOnePerGroup(w, sh)
    requires w.cfg.n - 1 <= w.cfg.LogN() * (2 * w.cfg.Faults() + 1)
    ensures AllNameEnough(w, sh)
  {
    FaultsPositive(w);
    forall i | i in sh.own ensures NamesEnough(w, sh.own[i], i) {
      assert GroupTotals.ProxyPerGroup(sh.own[i], 2 * w.cfg.Faults() + 1, w.cfg.n);
    }
  }

  /** Over 29 or 37 meters nothing has to be assumed of the searches: if each contributor multicasts to one proxy per
      group, every search succeeds, every contribution gets there, and the query is answered as above. */
  lemma QueryOver29Or37AnswersTotal(w: World, sh: Shares, rounds: seq<RoundSystem.System>, a: nat, x: Exchange,
                                    s: AggregationRun.Setting, run: seq<AggregationRun.System>, q: nat,
                                    ms: seq<QueryServer.Result>, from: seq<int>, bad: set<int>)
    requires RoundSystem.IsRun(w, rounds) && a < |rounds| && ShuffleIsOver(w, rounds[a])
    requires w.cfg.n == 29 || w.cfg.n == 37
    requires AllMulticast(w, sh) && sh.CarriesApart()
    requires NamesOnePerGroup(w, sh)
    requires FollowsShuffle(x, w, sh, rounds[a]) && |x.silent| < x.log2n
    requires FollowsAgreement(x, s, run, q, ms, from, bad)
    ensures AnswersTotal(x.log2n, s, q, ms, sh.All())
  {
    TwoSizesSuit(w);
    OnePerGroupIsEnough(w, sh);
    SuitedSharesGetThere(w, sh);
    FaultsPositive(w);
    QueryAnswersTotal(w, sh, rounds, a, x, s, run, q, ms, from, bad);
  }
}
