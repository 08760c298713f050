/** The utility's server: it starts a query, collects the groups' results and lets them vote. */
module QueryServer {
  import opened Collections
  import opened Contributions
  import opened NumberTheory
  import opened Results
  import AggregationRun
  import Groups
  import GroupTotals
  import TreeAggregation

  /** What the server compares of an aggregation message: all but its sender. */
  datatype Result = Result(contributors: nat, queryNum: nat, value: Record)

  type Report = (nat, Option<Record>)

  /** The server's fields, its live timers, and the calls its query callbacks have received. */
  datatype Server = Server(queryNum: nat, finished: bool, results: multiset<Result>, stored: seq<Option<Record>>,
                           timers: set<nat>, timer: nat, nextTimer: nat, reported: seq<Report>)

  // ----- The vote -----

  ghost predicate Wins(results: multiset<Result>, f: nat, r: Result) {
    results[r] >= f + 1
  }

  /** The value of some result with f + 1 copies, if there is one. */
  ghost function Vote(results: multiset<Result>, f: nat): (v: Option<Record>)
    ensures v.Some? <==> exists r :: Wins(results, f, r)
    ensures v.Some? ==> exists r :: Wins(results, f, r) && r.value == v.value
  {
    if exists r :: Wins(results, f, r) then
      var r :| Wins(results, f, r);
      Some(r.value)
    else None
  }

  lemma TwoCounts<T>(m: multiset<T>, x: T, y: T)
    requires x != y
    ensures m[x] + m[y] <= |m|
  {
    var m' := m[x := 0];
    assert |m'| == |m| - m[x] && m'[y] == m[y];
    assert |m'[y := 0]| == |m'| - m'[y];
  }

  lemma OneWinner(results: multiset<Result>, f: nat, r: Result, r': Result)
    requires |results| <= 2 * f + 1 && Wins(results, f, r) && Wins(results, f, r')
    ensures r == r'
  {
    if r != r' {
      TwoCounts(results, r, r');
      assert false;
    }
  }

  /** Among 2f + 1 results no two have f + 1 copies, so the order of looking does not matter. */
  lemma WinnerIsVoted(results: multiset<Result>, f: nat, r: Result)
    requires |results| <= 2 * f + 1 && Wins(results, f, r)
    ensures Vote(results, f) == Some(r.value)
  {
    var w :| Wins(results, f, w) && Vote(results, f) == Some(w.value);
    OneWinner(results, f, w, r);
  }

  /** The results vector, grown with empty entries where needed. */
  function StoreAt(stored: seq<Option<Record>>, q: nat, v: Option<Record>): (r: seq<Option<Record>>)
    ensures |r| == (if |stored| <= q then q + 1 else |stored|) && r[q] == v
    ensures forall k :: 0 <= k < |r| && k != q ==> r[k] == if k < |stored| then stored[k] else None
  {
    (if |stored| <= q then stored + seq(q + 1 - |stored|, _ => None) else stored)[q := v]
  }

  // ----- One event -----

  ghost function Ended(f: nat, s: Server): Server {
    s.(results := multiset{}, finished := true, stored := StoreAt(s.stored, s.queryNum, Vote(s.results, f)),
       reported := s.reported + [(s.queryNum, Vote(s.results, f))])
  }

  function Armed(s: Server): Server {
    s.(timers := s.timers + {s.nextTimer}, timer := s.nextTimer, nextTimer := s.nextTimer + 1)
  }

  function Started(s: Server, q: nat): Server {
    Armed(s.(queryNum := q, results := multiset{}, finished := false))
  }

  ghost function Received(f: nat, s: Server, r: Result): Server {
    var s1 := s.(results := s.results + multiset{r}, timers := s.timers - {s.timer});
    var s2 := if !s1.finished && |s1.results| > 2 * f then Ended(f, s1) else s1;
    if !s2.finished then Armed(s2) else s2
  }

  ghost function TimedOut(f: nat, s: Server, t: nat): Server {
    Ended(f, s.(timers := s.timers - {t}))
  }

  class QueryServer {
    /** The number of failures tolerated. */
    const f: nat
    var queryNum: nat
    var queryFinished: bool
    var currResults: multiset<Result>
    var allResults: seq<Option<Record>>
    var timers: set<nat>
    var queryTimeoutTimer: nat
    var nextTimer: nat
    var callbackCalls: seq<Report>

    ghost function View(): Server
      reads this
    {
      Server(queryNum, queryFinished, currResults, allResults, timers, queryTimeoutTimer, nextTimer, callbackCalls)
    }

    constructor (f: nat)
      ensures this.f == f && View() == Server(0, true, multiset{}, [], {}, 0, 0, [])
    {
      this.f, queryNum, queryFinished, currResults, allResults := f, 0, true, multiset{}, [];
      timers, queryTimeoutTimer, nextTimer, callbackCalls := {}, 0, 0, [];
    }

    method RegisterTimer() returns (handle: nat)
      modifies this`timers, this`nextTimer
      ensures handle == old(nextTimer) && nextTimer == handle + 1 && timers == old(timers) + {handle}
    {
      handle, nextTimer, timers := nextTimer, nextTimer + 1, timers + {nextTimer};
    }

    method StartQuery(q: nat)
      modifies this
      ensures View() == Started(old(View()), q)
    {
      queryNum := q;
      currResults := multiset{};
      queryFinished := false;
      queryTimeoutTimer := RegisterTimer();
    }

    static method AnyResult(results: multiset<Result>) returns (r: Result)
      requires results != multiset{}
      ensures r in results
    {
      r :| r in results;
    }

    /** Looks at the held results in any order and takes the first with f + 1 copies. */
    static method FindWinner(f: nat, results: multiset<Result>) returns (result: Option<Record>)
      requires |results| <= 2 * f + 1
      ensures result == Vote(results, f)
    {
      result := None;
      var unseen := results;
      while unseen != multiset{}
        invariant unseen <= results && forall r :: Wins(results, f, r) ==> unseen[r] == results[r]
        decreases |unseen|
      {
        var r := AnyResult(unseen);
        if results[r] >= f + 1 {
          WinnerIsVoted(results, f, r);
          return Some(r.value);
        }
        unseen := unseen - multiset{r};
      }
      assert !exists r :: Wins(results, f, r);
    }

    method EndQuery()
      requires |currResults| <= 2 * f + 1
      modifies this
      ensures View() == Ended(f, old(View()))
    {
      var result := FindWinner(f, currResults);
      currResults := multiset{};
      if |allResults| <= queryNum {
        allResults := allResults + seq(queryNum + 1 - |allResults|, _ => None);
      }
      allResults := allResults[queryNum := result];
      queryFinished := true;
      callbackCalls := callbackCalls + [(queryNum, result)];
    }

    method HandleMessage(r: Result)
      requires !queryFinished ==> |currResults| <= 2 * f
      modifies this
      ensures View() == Received(f, old(View()), r)
    {
      currResults := currResults + multiset{r};
      timers := timers - {queryTimeoutTimer};
      if !queryFinished && |currResults| > 2 * f {
        EndQuery();
      }
      if !queryFinished {
        queryTimeoutTimer := RegisterTimer();
      }
    }

    method HandleTimeout(t: nat)
      requires t in timers && |currResults| <= 2 * f
      modifies this
      ensures View() == TimedOut(f, old(View()), t)
    {
      timers := timers - {t};
      EndQuery();
    }
  }

  // ----- Runs of single queries, one at a time -----

  datatype Event = Query(queryNum: nat) | Message(result: Result) | Timeout(timer: nat)

  /** A query is started only when none is in progress; a timer fires only while live. */
  ghost predicate Possible(s: Server, e: Event) {
    match e
    case Query(_) => s.finished
    case Message(_) => true
    case Timeout(t) => t in s.timers
  }

  ghost function After(f: nat, s: Server, e: Event): Server {
    match e
    case Query(q) => Started(s, q)
    case Message(r) => Received(f, s, r)
    case Timeout(t) => TimedOut(f, s, t)
  }

  ghost function RunOf(f: nat, events: seq<Event>): Server
    decreases |events|
  {
    if events == [] then Server(0, true, multiset{}, [], {}, 0, 0, [])
    else After(f, RunOf(f, events[..|events| - 1]), events[|events| - 1])
  }

  ghost predicate IsRun(f: nat, events: seq<Event>)
    decreases |events|
  {
    events == [] || (var before := events[..|events| - 1];
                     IsRun(f, before) && Possible(RunOf(f, before), events[|events| - 1]))
  }

  /** The queries asked, in order. */
  function Asked(events: seq<Event>): seq<nat>
    decreases |events|
  {
    if events == [] then []
    else
      var e := events[|events| - 1];
      Asked(events[..|events| - 1]) + (if e.Query? then [e.queryNum] else [])
  }

  function Answered(reports: seq<Report>): seq<nat>
    decreases |reports|
  {
    if reports == [] then [] else Answered(reports[..|reports| - 1]) + [reports[|reports| - 1].0]
  }

  /** The results that arrived since the last query was asked. */
  function SinceQuery(events: seq<Event>): seq<Result>
    decreases |events|
  {
    if events == [] || events[|events| - 1].Query? then []
    else
      var e := events[|events| - 1];
      SinceQuery(events[..|events| - 1]) + (if e.Message? then [e.result] else [])
  }

  ghost predicate Valid(f: nat, s: Server) {
    && s.timers == (if s.finished then {} else {s.timer})
    && (!s.finished ==> |s.results| <= 2 * f)
  }

  lemma AskedAppend(before: seq<Event>, e: Event)
    ensures Asked(before + [e]) == Asked(before) + (if e.Query? then [e.queryNum] else [])
    ensures SinceQuery(before + [e]) ==
            if e.Query? then [] else SinceQuery(before) + (if e.Message? then [e.result] else [])
  {
    assert (before + [e])[..|before + [e]| - 1] == before;
  }

  /** One event more. */
  lemma RunAppend(f: nat, before: seq<Event>, e: Event)
    requires IsRun(f, before) && Possible(RunOf(f, before), e)
    ensures IsRun(f, before + [e]) && RunOf(f, before + [e]) == After(f, RunOf(f, before), e)
    ensures Asked(before + [e]) == Asked(before) + (if e.Query? then [e.queryNum] else [])
    ensures SinceQuery(before + [e]) ==
            if e.Query? then [] else SinceQuery(before) + (if e.Message? then [e.result] else [])
  {
    AskedAppend(before, e);
    var all := before + [e];
    assert all != [] && all[..|all| - 1] == before && all[|all| - 1] == e;
  }

  lemma EventKeepsValid(f: nat, s: Server, e: Event)
    requires Valid(f, s) && Possible(s, e)
    ensures Valid(f, After(f, s, e))
  {
  }

  /** What an event does to the collected results and the reports. */
  lemma EventOutcome(f: nat, s: Server, e: Event)
    requires Valid(f, s) && Possible(s, e)
    ensures var s' := After(f, s, e);
            var arrived := s.results + (if e.Message? then multiset{e.result} else multiset{});
            if e.Query? then
              && !s'.finished && s'.results == multiset{} && s'.queryNum == e.queryNum && s'.reported == s.reported
            else
              && s'.queryNum == s.queryNum && (s.finished ==> s'.finished)
              && if !s.finished && s'.finished then
                   && s'.reported == s.reported + [(s.queryNum, Vote(arrived, f))] && |arrived| <= 2 * f + 1
                   && |s'.stored| > s.queryNum && s'.stored[s.queryNum] == Vote(arrived, f)
                 else s'.reported == s.reported && (s'.finished || s'.results == arrived)
  {
    assert s.results + multiset{} == s.results;
  }

  /** Between events an open query holds at most 2f results and exactly one live timer; a closed one none.
      So the class methods may always be called when the event can happen. */
  lemma {:induction false} RunsStayValid(f: nat, events: seq<Event>)
    requires IsRun(f, events)
    ensures Valid(f, RunOf(f, events))
    decreases |events|
  {
    if events != [] {
      RunsStayValid(f, events[..|events| - 1]);
      EventKeepsValid(f, RunOf(f, events[..|events| - 1]), events[|events| - 1]);
    }
  }

  lemma {:induction false} HoldsWhatArrived(f: nat, events: seq<Event>)
    requires IsRun(f, events) && !RunOf(f, events).finished
    ensures RunOf(f, events).results == multiset(SinceQuery(events))
    decreases |events|
  {
    var before, e := events[..|events| - 1], events[|events| - 1];
    RunsStayValid(f, before);
    EventOutcome(f, RunOf(f, before), e);
    if !e.Query? {
      HoldsWhatArrived(f, before);
    }
  }

  /** The answers given, and the query still open if there is one, are the queries asked. */
  ghost predicate Accounted(s: Server, asked: seq<nat>) {
    asked == Answered(s.reported) + (if s.finished then [] else [s.queryNum])
  }

  lemma EventKeepsAccounts(f: nat, s: Server, e: Event, asked: seq<nat>)
    requires Valid(f, s) && Possible(s, e) && Accounted(s, asked)
    ensures Accounted(After(f, s, e), asked + (if e.Query? then [e.queryNum] else []))
  {
    var s' := After(f, s, e);
    EventOutcome(f, s, e);
    if !s.finished && s'.finished {
      assert s'.reported[..|s'.reported| - 1] == s.reported;
    }
  }

  /** Every query that is asked is reported exactly once, in order; only the last one may still be open. */
  lemma {:induction false} EachQueryEndsOnce(f: nat, events: seq<Event>)
    requires IsRun(f, events)
    ensures Accounted(RunOf(f, events), Asked(events))
    decreases |events|
  {
    if events != [] {
      EachQueryEndsOnce(f, events[..|events| - 1]);
      RunsStayValid(f, events[..|events| - 1]);
      EventKeepsAccounts(f, RunOf(f, events[..|events| - 1]), events[|events| - 1], Asked(events[..|events| - 1]));
    }
  }

  /** The event that ends a query reports the value with f + 1 copies among what arrived, or a failure. */
  lemma ReportIsMajority(f: nat, events: seq<Event>, e: Event, r: Result)
    requires IsRun(f, events) && Possible(RunOf(f, events), e) && !RunOf(f, events).finished
    requires After(f, RunOf(f, events), e).finished
    ensures var s, s' := RunOf(f, events), After(f, RunOf(f, events), e);
            var arrived := multiset(SinceQuery(events + [e]));
            && |arrived| <= 2 * f + 1
            && s'.reported == s.reported + [(s.queryNum, Vote(arrived, f))]
            && |s'.stored| > s.queryNum && s'.stored[s.queryNum] == Vote(arrived, f)
            && (Wins(arrived, f, r) ==> Vote(arrived, f) == Some(r.value))
  {
    RunsStayValid(f, events);
    HoldsWhatArrived(f, events);
    EventOutcome(f, RunOf(f, events), e);
    RunAppend(f, events, e);
    var arrived := multiset(SinceQuery(events + [e]));
    if Wins(arrived, f, r) {
      WinnerIsVoted(arrived, f, r);
    }
  }

  // ----- The whole query -----

  /** A query is asked and these results arrive, in this order. */
  function Session(q: nat, ms: seq<Result>): seq<Event>
    decreases |ms|
  {
    if ms == [] then [Query(q)] else Session(q, ms[..|ms| - 1]) + [Message(ms[|ms| - 1])]
  }

  lemma OneMoreCollected(f: nat, before: seq<Event>, r: Result)
    requires IsRun(f, before) && !RunOf(f, before).finished && |SinceQuery(before)| < 2 * f
    ensures var events, s := before + [Message(r)], RunOf(f, before);
            && IsRun(f, events) && SinceQuery(events) == SinceQuery(before) + [r]
            && var s' := RunOf(f, events);
               !s'.finished && s'.queryNum == s.queryNum && s'.reported == s.reported
  {
    RunAppend(f, before, Message(r));
    RunsStayValid(f, before);
    HoldsWhatArrived(f, before);
    EventOutcome(f, RunOf(f, before), Message(r));
  }

  lemma {:induction false} CollectsUntilFull(f: nat, q: nat, ms: seq<Result>)
    requires |ms| <= 2 * f
    ensures var events := Session(q, ms);
            && IsRun(f, events) && !RunOf(f, events).finished && SinceQuery(events) == ms
            && RunOf(f, events).queryNum == q && RunOf(f, events).reported == []
    decreases |ms|
  {
    if ms == [] {
      RunAppend(f, [], Query(q));
      assert Session(q, ms) == [] + [Query(q)];
    } else {
      var rest, last := ms[..|ms| - 1], ms[|ms| - 1];
      assert ms == rest + [last];
      CollectsUntilFull(f, q, rest);
      OneMoreCollected(f, Session(q, rest), last);
    }
  }

  /** Counting the honest results. */
  lemma {:induction false} HonestCopies(ms: seq<Result>, truth: Result, honest: set<nat>)
    requires forall k :: k in honest ==> k < |ms| && ms[k] == truth
    ensures multiset(ms)[truth] >= |honest|
    decreases |ms|
  {
    if ms == [] {
      assert honest == {};
    } else {
      var last := |ms| - 1;
      HonestCopies(ms[..last], truth, honest - {last});
      assert ms == ms[..last] + [ms[last]];
      assert |honest - {last}| >= |honest| - 1;
    }
  }

  lemma LastEventEnds(f: nat, before: seq<Event>, e: Event, truth: Result)
    requires IsRun(f, before) && !RunOf(f, before).finished && Possible(RunOf(f, before), e)
    requires After(f, RunOf(f, before), e).finished && Wins(multiset(SinceQuery(before + [e])), f, truth)
    ensures var events, s := before + [e], RunOf(f, before);
            && IsRun(f, events) && RunOf(f, events).finished
            && RunOf(f, events).reported == s.reported + [(s.queryNum, Some(truth.value))]
  {
    RunAppend(f, before, e);
    ReportIsMajority(f, before, e, truth);
  }

  lemma LastResultEnds(f: nat, before: seq<Event>, r: Result)
    requires IsRun(f, before) && !RunOf(f, before).finished && |SinceQuery(before)| == 2 * f
    ensures After(f, RunOf(f, before), Message(r)).finished
  {
    RunsStayValid(f, before);
    HoldsWhatArrived(f, before);
  }

  lemma LiveTimerEnds(f: nat, before: seq<Event>)
    requires IsRun(f, before) && !RunOf(f, before).finished
    ensures var e := Timeout(RunOf(f, before).timer);
            Possible(RunOf(f, before), e) && After(f, RunOf(f, before), e).finished
  {
    RunsStayValid(f, before);
  }

  /** A query is asked, these results arrive in this order, and if they are not 2f + 1 the timer fires then. */
  ghost function WholeSession(f: nat, q: nat, ms: seq<Result>): seq<Event> {
    var events := Session(q, ms);
    if |ms| > 2 * f then events else events + [Timeout(RunOf(f, events).timer)]
  }

  /** Results of which f + 1 agree, at most 2f + 1 in all, end the query with that answer. */
  lemma HonestMajorityAnswers(f: nat, q: nat, ms: seq<Result>, truth: Result, honest: set<nat>)
    requires |ms| <= 2 * f + 1 && |honest| >= f + 1
    requires forall k :: k in honest ==> k < |ms| && ms[k] == truth
    ensures var events := WholeSession(f, q, ms);
            IsRun(f, events) && RunOf(f, events).finished && RunOf(f, events).reported == [(q, Some(truth.value))]
  {
    HonestCopies(ms, truth, honest);
    if |ms| > 2 * f {
      var before, last := ms[..2 * f], ms[2 * f];
      assert ms == before + [last];
      CollectsUntilFull(f, q, before);
      LastResultEnds(f, Session(q, before), last);
      RunAppend(f, Session(q, before), Message(last));
      LastEventEnds(f, Session(q, before), Message(last), truth);
    } else {
      CollectsUntilFull(f, q, ms);
      LiveTimerEnds(f, Session(q, ms));
      RunAppend(f, Session(q, ms), Timeout(RunOf(f, Session(q, ms)).timer));
      LastEventEnds(f, Session(q, ms), Timeout(RunOf(f, Session(q, ms)).timer), truth);
    }
  }

  /** The result the server sees in a message a group's root sent. */
  function ResultOf(q: nat, m: TreeAggregation.AggregationMessage): Result {
    Result(m.contributors, q, m.value)
  }

  /** The root of a group has sent a message that the server sees as this result. */
  ghost predicate SentBy(s: AggregationRun.Setting, run: seq<AggregationRun.System>, q: nat, group: int, groups: nat,
                         result: Result)
    requires 2 <= groups <= s.n && AggregationRun.IsRun(s, run)
  {
    && 0 <= group < groups
    && var root := Groups.First(group, groups, s.n);
    && 0 <= root < s.n
    && exists m :: (-1, m) in run[|run| - 1].nodes[root].sent && result == ResultOf(q, m)
  }

  /** Of the results, each with the group it comes from, those of these groups were sent by their roots, and each of
      these groups has one. */
  ghost predicate HeardFrom(s: AggregationRun.Setting, run: seq<AggregationRun.System>, q: nat, groups: nat,
                            heard: set<int>, ms: seq<Result>, from: seq<int>)
    requires 2 <= groups <= s.n && AggregationRun.IsRun(s, run)
  {
    && |from| == |ms|
    && (forall k :: 0 <= k < |ms| && from[k] in heard ==> SentBy(s, run, q, from[k], groups, ms[k]))
    && (forall g :: g in heard ==> g in from)
  }

  function Positions(from: seq<int>, heard: set<int>): set<nat> {
    set k: nat | k < |from| && from[k] in heard
  }

  lemma {:induction false} OnePositionEach(from: seq<int>, heard: set<int>)
    requires forall g :: g in heard ==> g in from
    ensures |Positions(from, heard)| >= |heard|
    decreases |from|
  {
    if heard != {} {
      var g := SomeElement(heard);
      assert g in from;
      var rest, last := from[..|from| - 1], from[|from| - 1];
      OnePositionEach(rest, heard - {last});
      var earlier := Positions(rest, heard - {last});
      if last in heard {
        SubsetSize(earlier + {|from| - 1}, Positions(from, heard));
      } else {
        SubsetSize(earlier, Positions(from, heard));
      }
    }
  }

  /** A result sent by the root of a sound group is the truth. */
  lemma SoundResultIsTrue(s: AggregationRun.Setting, cs: set<Contribution>, run: seq<AggregationRun.System>, q: nat,
                          groups: nat, group: int, result: Result)
    requires 2 <= groups <= s.n && GroupTotals.NamesProxies(s, cs, groups)
    requires AggregationRun.IsRun(s, run) && !AggregationRun.Enabled(s, run[|run| - 1])
    requires 0 <= group < groups && GroupTotals.GroupSound(s, cs, groups, group)
    requires SentBy(s, run, q, group, groups, result)
    ensures result == Result(|cs|, q, s.a.Total(multiset(cs)))
  {
    GroupTotals.SoundRootSendsAll(s, cs, groups, run, group);
  }

  /** End to end: at most f nodes are bad, which covers all that failed and all that accepted anything else than the
      contributions naming them. Once the trees of the 2f + 1 groups have come to rest, a query that gets the results
      of the groups without a bad node, and whatever else up to 2f + 1 results in all, is answered with the aggregate of
      all contributions, each counted once. */
  lemma QueryAnswersTotal(f: nat, q: nat, s: AggregationRun.Setting, cs: set<Contribution>,
                          run: seq<AggregationRun.System>, ms: seq<Result>, from: seq<int>, bad: set<int>)
    requires 1 <= f && 2 * f + 1 <= s.n && GroupTotals.NamesProxies(s, cs, 2 * f + 1)
    requires s.failed <= bad && |bad| <= f
    requires forall j: nat :: j < s.n && j !in bad ==> GroupTotals.AcceptedNamed(s, cs, j)
    requires AggregationRun.IsRun(s, run) && !AggregationRun.Enabled(s, run[|run| - 1])
    requires |ms| <= 2 * f + 1
    requires HeardFrom(s, run, q, 2 * f + 1, GroupTotals.Untouched(bad, 2 * f + 1, s.n), ms, from)
    ensures var events := WholeSession(f, q, ms);
            IsRun(f, events) && RunOf(f, events).reported == [(q, Some(s.a.Total(multiset(cs))))]
  {
    var groups := 2 * f + 1;
    var truth, heard := Result(|cs|, q, s.a.Total(multiset(cs))), GroupTotals.Untouched(bad, groups, s.n);
    var honest := Positions(from, heard);
    forall k | k in honest ensures k < |ms| && ms[k] == truth {
      GroupTotals.UntouchedIsSound(s, cs, groups, bad, from[k]);
      SoundResultIsTrue(s, cs, run, q, groups, from[k], ms[k]);
    }
    GroupTotals.MostGroupsAreUntouched(bad, f, s.n);
    OnePositionEach(from, heard);
    HonestMajorityAnswers(f, q, ms, truth, honest);
  }
}
