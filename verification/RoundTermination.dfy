/** Every asynchronous run of the overlay rounds is finite, and stops only when all nodes are done. */
module RoundTermination {
  import opened LockStep
  import opened Messages
  import opened NumberTheory
  import opened ProtocolSpec
  import opened RoundSystem

  // ----- No batch beyond those of rounds 0 to 3S -----

  /** Every node has sent one batch a round so far, and only what was sent has been delivered. */
  ghost predicate Counted(w: World, s: System) {
    && WellFormed(w, s)
    && (forall i :: 0 <= i < w.cfg.n ==> SentInOrder(w.cfg, i, s.nodes[i]))
    && (forall b :: b in s.delivered ==> 0 <= b.sender < w.cfg.n && b in s.nodes[b.sender].sent)
  }

  lemma {:induction false} ReceivingSendsInOrder(cfg: Config, env: Env, me: int, q: Node, ts: seq<Transport>)
    requires cfg.Valid() && OnSchedule(cfg, q.core) && SentInOrder(cfg, me, q)
    ensures var r := ReceiveAll(cfg, env, me, q, ts); SentInOrder(cfg, me, r) && q.sent <= r.sent
    decreases |ts|
  {
    if ts != [] {
      ReactSendsInOrder(cfg, me, q, Receives(ts[0], env));
      ReceivingSendsInOrder(cfg, env, me, Receive(cfg, env, me, q, ts[0]), ts[1..]);
    }
  }

  lemma OneNodeMore(w: World, s: System, s': System, i: int)
    requires Counted(w, s) && WellFormed(w, s') && 0 <= i < w.cfg.n
    requires s'.nodes == s.nodes[i := s'.nodes[i]] && SentInOrder(w.cfg, i, s'.nodes[i])
    requires s.nodes[i].sent <= s'.nodes[i].sent
    requires forall b :: b in s'.delivered ==>
               b in s.delivered || (0 <= b.sender < w.cfg.n && b in s.nodes[b.sender].sent)
    ensures Counted(w, s')
  {
  }

  lemma StepKeepsCounted(w: World, s: System, s': System)
    requires Counted(w, s) && Step(w, s, s') && WellFormed(w, s')
    ensures Counted(w, s')
  {
    if i :| StartStep(w, s, s', i) {
      ReactSendsInOrder(w.cfg, i, s.nodes[i], SignatureArrives(w.onions(i), s.Network()));
      OneNodeMore(w, s, s', i);
    } else {
      var b :| DeliverStep(w, s, s', b);
      ReceivingSendsInOrder(w.cfg, s.Network(), b.recipient, s.nodes[b.recipient], b.messages);
      OneNodeMore(w, s, s', b.recipient);
    }
  }

  lemma InitiallyCounted(w: World, s: System)
    requires WellFormed(w, s) && s == Initial(w)
    ensures Counted(w, s)
  {
  }

  lemma {:induction false} RunKeepsCounted(w: World, run: seq<System>, k: nat)
    requires IsRun(w, run) && k < |run|
    ensures Counted(w, run[k])
  {
    if k == 0 {
      InitiallyCounted(w, run[0]);
    } else {
      RunKeepsCounted(w, run, k - 1);
      assert StepAt(w, run, k - 1);
      StepKeepsCounted(w, run[k - 1], run[k]);
    }
  }

  /** What each node has sent in each round. */
  ghost function BatchTable(s: System): (int, int) -> Batch {
    (i, t) => if 0 <= i < |s.nodes| && 0 <= t < |s.nodes[i].sent| then s.nodes[i].sent[t] else Batch(i, i, 0, [])
  }

  lemma InTableOfSent(f: (int, int) -> Batch, rows: nat, columns: nat, i: nat, sent: seq<Batch>, b: Batch)
    requires i < rows && |sent| <= columns && b in sent && forall t :: 0 <= t < |sent| ==> sent[t] == f(i, t)
    ensures b in Table(f, rows, columns)
  {
    var t :| 0 <= t < |sent| && sent[t] == b;
    InTable(f, rows, columns, i, t);
  }

  lemma RoundsAreFew(w: World, s: System, i: int)
    requires Counted(w, s) && 0 <= i < w.cfg.n
    ensures |s.nodes[i].sent| <= w.LastRound() + 1
  {
  }

  lemma DeliveredAreFew(w: World, s: System)
    requires Counted(w, s)
    ensures |s.delivered| <= w.cfg.n * (w.LastRound() + 1)
  {
    var all := Table(BatchTable(s), w.cfg.n, w.LastRound() + 1);
    forall b | b in s.delivered ensures b in all {
      RoundsAreFew(w, s, b.sender);
      InTableOfSent(BatchTable(s), w.cfg.n, w.LastRound() + 1, b.sender, s.nodes[b.sender].sent, b);
    }
    TableSize(BatchTable(s), w.cfg.n, w.LastRound() + 1);
    SubsetSize(s.delivered, all);
  }

  // ----- Each step does some of the work there is -----

  ghost function StartedNodes(s: System): set<int> {
    set i | 0 <= i < |s.nodes| && s.nodes[i].core.phase != Setup
  }

  lemma {:induction false} ReceivingKeepsStarted(cfg: Config, env: Env, me: int, q: Node, ts: seq<Transport>)
    requires cfg.Valid() && OnSchedule(cfg, q.core) && q.core.phase != Setup
    ensures ReceiveAll(cfg, env, me, q, ts).core.phase != Setup
    decreases |ts|
  {
    if ts != [] {
      ReceivingKeepsStarted(cfg, env, me, Receive(cfg, env, me, q, ts[0]), ts[1..]);
    }
  }

  lemma OneMoreStarted(s: System, s': System, i: int)
    requires 0 <= i < |s.nodes| == |s'.nodes| && s'.nodes == s.nodes[i := s'.nodes[i]] && s.nodes[i].core.phase == Setup
    requires s'.nodes[i].core.phase != Setup
    ensures |StartedNodes(s')| >= |StartedNodes(s)| + 1
  {
    assert StartedNodes(s') == StartedNodes(s) + {i};
  }

  lemma StartIsWork(w: World, s: System, s': System, i: int)
    requires WellFormed(w, s) && StartStep(w, s, s', i)
    ensures |StartedNodes(s')| >= |StartedNodes(s)| + 1 && s'.delivered == s.delivered
  {
    OneMoreStarted(s, s', i);
  }

  lemma DeliveryIsWork(w: World, s: System, s': System, b: Batch)
    requires WellFormed(w, s) && DeliverStep(w, s, s', b)
    ensures |StartedNodes(s')| >= |StartedNodes(s)| && |s'.delivered| == |s.delivered| + 1
  {
    var j := b.recipient;
    if s.nodes[j].core.phase != Setup {
      ReceivingKeepsStarted(w.cfg, s.Network(), j, s.nodes[j], b.messages);
    }
    SubsetSize(StartedNodes(s), StartedNodes(s'));
  }

  ghost function Work(s: System): nat {
    |StartedNodes(s)| + |s.delivered|
  }

  lemma StepIsWork(w: World, s: System, s': System)
    requires WellFormed(w, s) && Step(w, s, s')
    ensures Work(s') >= Work(s) + 1
  {
    if i :| StartStep(w, s, s', i) {
      StartIsWork(w, s, s', i);
    } else {
      var b :| DeliverStep(w, s, s', b);
      DeliveryIsWork(w, s, s', b);
    }
  }

  lemma StartedAreFew(s: System)
    ensures |StartedNodes(s)| <= |s.nodes|
  {
    RangeSize(0, |s.nodes|);
    SubsetSize(StartedNodes(s), Range(0, |s.nodes|));
  }

  lemma WorkIsBounded(w: World, s: System)
    requires Counted(w, s)
    ensures Work(s) <= w.cfg.n + w.cfg.n * (w.LastRound() + 1)
  {
    StartedAreFew(s);
    DeliveredAreFew(w, s);
  }

  lemma OneStepMore(w: World, run: seq<System>, k: nat)
    requires IsRun(w, run) && k + 1 < |run|
    ensures Work(run[k + 1]) >= Work(run[k]) + 1
  {
    assert StepAt(w, run, k);
    StepIsWork(w, run[k], run[k + 1]);
  }

  ghost function Works(run: seq<System>): (r: seq<int>)
    ensures |r| == |run| && forall k :: 0 <= k < |run| ==> r[k] == Work(run[k])
  {
    seq(|run|, k requires 0 <= k < |run| => Work(run[k]))
  }

  /** In any world a run is over after at most n starts and n (3S + 1) deliveries. */
  lemma RunsAreShort(w: World, run: seq<System>)
    requires IsRun(w, run)
    ensures |run| - 1 <= w.cfg.n + w.cfg.n * (w.LastRound() + 1)
  {
    var works := Works(run);
    forall k: nat | k + 1 < |works| ensures works[k] + 1 <= works[k + 1] {
      OneStepMore(w, run, k);
    }
    ClimbsByOne(works, |run| - 1);
    RunKeepsCounted(w, run, |run| - 1);
    WorkIsBounded(w, run[|run| - 1]);
  }

  ghost predicate Stopped(w: World, s: System)
    requires WellFormed(w, s)
  {
    forall s' :: Step(w, s, s') ==> s' == s
  }

  lemma FinishedNodesAgree(w: World, run: seq<System>, k: nat)
    requires IsRun(w, run) && k < |run| && AllFinished(run[k])
    ensures forall j :: w.IsNode(j) ==> run[k].nodes[j].core == w.Finished(j) && w.Finished(j).phase == Aggregate
  {
    forall j | w.IsNode(j)
      ensures run[k].nodes[j].core == w.Finished(j) && w.Finished(j).phase == Aggregate {
      RunsSimulateLockStep(w, run, k, j);
      RunKeepsInv(w, run, k);
      assert InStep(w, run[k].delivered, j, run[k].nodes[j]);
    }
  }

  lemma FinishedMeansRunsThrough(w: World, run: seq<System>, k: nat)
    requires IsRun(w, run) && k < |run| && AllFinished(run[k])
    requires forall j :: w.IsNode(j) ==> run[k].nodes[j].core == w.Finished(j) && w.Finished(j).phase == Aggregate
    ensures RunsThrough(w)
  {
    forall j | w.IsNode(j) ensures PassesBefore(w, j, w.LastRound() + 1) {
      assert w.Finished(j).phase == Aggregate;
      AliveExactlyWhenPassed(w, j, w.LastRound());
      PassesOneMore(w, j, w.LastRound() + 1);
    }
    forall j: int, t: nat | w.IsNode(j) && t <= w.LastRound() ensures Passes(w, j, t) {
      assert PassesBefore(w, j, w.LastRound() + 1);
    }
  }

  /** A run that can go no further has taken every node through all its rounds if and only if nothing throws in
      lock step; each is then in the final state of lock step. */
  lemma StoppedRunsAreFinished(w: World, run: seq<System>)
    requires IsRun(w, run) && Stopped(w, run[|run| - 1])
    ensures AllFinished(run[|run| - 1]) <==> RunsThrough(w)
    ensures RunsThrough(w) ==> forall j :: w.IsNode(j) ==> run[|run| - 1].nodes[j].core == w.Finished(j)
  {
    var k := |run| - 1;
    if RunsThrough(w) {
      RunsThroughWithoutCrash(w, run, k);
      if !AllFinished(run[k]) {
        RunsMakeProgress(w, run, k);
        assert false;
      }
    }
    if AllFinished(run[k]) {
      FinishedNodesAgree(w, run, k);
      FinishedMeansRunsThrough(w, run, k);
    }
  }
}
