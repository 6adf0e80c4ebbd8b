/** One call of proposer::run inside the system (mit_6.824/paxos.cc, lines 90-236). Between any two
    of its turns everything else may go on: messages are delivered, other nodes propose, crash and
    restart. The whole call is a sequence of steps of module Paxos. */
module PaxosCall {
  import opened PaxosAcceptor
  import opened Paxos
  import opened PaxosSafety
  import opened PaxosProposer

  // ----- sequences of steps

  /** A sequence of steps leads from one state to the other. */
  ghost predicate Leads(c: Config, states: seq<Sys>, s: Sys, s': Sys) {
    && |states| > 0 && states[0] == s && states[|states| - 1] == s'
    && forall i :: 0 < i < |states| ==> Next(c, states[i - 1], states[i])
  }

  ghost predicate Reaches(c: Config, s: Sys, s': Sys) {
    exists states :: Leads(c, states, s, s')
  }

  lemma ReachesOn(c: Config, s: Sys, s': Sys, s'': Sys)
    requires Reaches(c, s, s') && Reaches(c, s', s'')
    ensures Reaches(c, s, s'')
  {
    hide Next;
    var a :| Leads(c, a, s, s');
    var b :| Leads(c, b, s', s'');
    var ab := a + b[1..];
    forall i | 0 < i < |ab| ensures Next(c, ab[i - 1], ab[i]) {
      if i < |a| {
        assert Next(c, a[i - 1], a[i]);
      } else {
        assert Next(c, b[i - |a|], b[i - |a| + 1]);
      }
    }
    assert Leads(c, ab, s, s'');
  }

  lemma StepReaches(c: Config, s: Sys, step: Step)
    requires Enabled(c, s, step)
    ensures Reaches(c, s, Apply(c, s, step))
  {
    hide Enabled, Apply;
    assert Next(c, s, Apply(c, s, step));
    assert Leads(c, [s, Apply(c, s, step)], s, Apply(c, s, step));
  }

  /** Any steps that leave the record of run `r` as it is. */
  ghost predicate Meanwhile(c: Config, r: nat, s: Sys, s': Sys) {
    Reaches(c, s, s') && r < |s.runs| && r < |s'.runs| && s'.runs[r] == s.runs[r]
  }

  // ----- the turns of the loops

  lemma PrepareTurnIsStep(c: Config, s: Sys, r: nat, a: Answer<PrepareReply>)
    requires r < |s.runs| && s.runs[r].phase == Preparing && s.runs[r].next < |c.nodes|
    requires IsPromise(a) ==> PromiseMsg(r, c.nodes[s.runs[r].next], a.reply.na, a.reply.va) in s.net
    ensures Reaches(c, s, SetRun(s, r, PrepareTurn(s.runs[r], c.nodes[s.runs[r].next], a)))
  {
    hide TakePromise, Reaches;
    StepReaches(c, s, if IsPromise(a) then GotPromise(r, a.reply.na, a.reply.va) else SkipPrepare(r));
  }

  lemma AcceptTurnIsStep(c: Config, s: Sys, r: nat, a: Answer<bool>)
    requires r < |s.runs| && s.runs[r].phase == Accepting && s.runs[r].next < |s.runs[r].promises|
    requires a == Some(true) ==> AcceptedMsg(r, s.runs[r].promises[s.runs[r].next]) in s.net
    ensures Reaches(c, s, SetRun(s, r, AcceptTurn(s.runs[r], s.runs[r].promises[s.runs[r].next], a)))
  {
    hide Reaches;
    StepReaches(c, s, if a == Some(true) then GotAccepted(r) else SkipAccept(r));
  }

  /** The prepare loop gets the given answers, in order, each from a message that is in the network
      at that moment. */
  ghost predicate PrepareTurns(c: Config, r: nat, s: Sys, s': Sys, answers: seq<Answer<PrepareReply>>)
    requires |answers| <= |c.nodes|
    decreases |answers|
  {
    if answers == [] then Meanwhile(c, r, s, s')
    else
      var k := |answers| - 1;
      exists t: Sys ::
        PrepareTurns(c, r, s, t, answers[..k]) && PrepareTurnAt(c, r, t, s', c.nodes[k], answers[k])
  }

  ghost predicate PrepareTurnAt(c: Config, r: nat, t: Sys, s': Sys, node: Name, a: Answer<PrepareReply>) {
    && r < |t.runs| && (IsPromise(a) ==> PromiseMsg(r, node, a.reply.na, a.reply.va) in t.net)
    && Meanwhile(c, r, SetRun(t, r, PrepareTurn(t.runs[r], node, a)), s')
  }

  ghost predicate AcceptTurns(c: Config, r: nat, s: Sys, s': Sys, nodes: seq<Name>, answers: seq<Answer<bool>>)
    requires |answers| <= |nodes|
    decreases |answers|
  {
    if answers == [] then Meanwhile(c, r, s, s')
    else
      var k := |answers| - 1;
      exists t: Sys ::
        AcceptTurns(c, r, s, t, nodes, answers[..k]) && AcceptTurnAt(c, r, t, s', nodes[k], answers[k])
  }

  ghost predicate AcceptTurnAt(c: Config, r: nat, t: Sys, s': Sys, node: Name, a: Answer<bool>) {
    && r < |t.runs| && (a == Some(true) ==> AcceptedMsg(r, node) in t.net)
    && Meanwhile(c, r, SetRun(t, r, AcceptTurn(t.runs[r], node, a)), s')
  }

  lemma {:induction false} PrepareLoopIsSteps(c: Config, r: nat, s: Sys, s': Sys, answers: seq<Answer<PrepareReply>>)
    requires |answers| <= |c.nodes| && PrepareTurns(c, r, s, s', answers)
    requires r < |s.runs| && s.runs[r].phase == Preparing && s.runs[r].next == 0
    ensures r < |s'.runs| && s'.runs[r] == PrepareLoop(s.runs[r], c.nodes[..|answers|], answers)
    ensures Reaches(c, s, s')
    decreases |answers|
  {
    hide Reaches, PrepareTurn;
    if answers != [] {
      var k := |answers| - 1;
      var nodes := c.nodes[..k + 1];
      assert nodes[..k] == c.nodes[..k];
      var t: Sys :|
        PrepareTurns(c, r, s, t, answers[..k]) && PrepareTurnAt(c, r, t, s', c.nodes[k], answers[k]);
      PrepareLoopIsSteps(c, r, s, t, answers[..k]);
      PrepareLoopPromises(s.runs[r], c.nodes[..k], answers[..k]);
      PrepareTurnIsStep(c, t, r, answers[k]);
      var u := SetRun(t, r, PrepareTurn(t.runs[r], c.nodes[k], answers[k]));
      ReachesOn(c, s, t, u);
      ReachesOn(c, s, u, s');
    }
  }

  lemma {:induction false} AcceptLoopIsSteps(c: Config, r: nat, s: Sys, s': Sys, answers: seq<Answer<bool>>)
    requires r < |s.runs| && s.runs[r].phase == Accepting && s.runs[r].next == 0
    requires |answers| <= |s.runs[r].promises| && AcceptTurns(c, r, s, s', s.runs[r].promises, answers)
    ensures r < |s'.runs| && s'.runs[r] == AcceptLoop(s.runs[r], s.runs[r].promises[..|answers|], answers)
    ensures Reaches(c, s, s')
    decreases |answers|
  {
    hide Reaches, AcceptTurn;
    if answers != [] {
      var k, all := |answers| - 1, s.runs[r].promises;
      assert all[..k + 1][..k] == all[..k];
      var t: Sys :|
        AcceptTurns(c, r, s, t, all, answers[..k]) && AcceptTurnAt(c, r, t, s', all[k], answers[k]);
      AcceptLoopIsSteps(c, r, s, t, answers[..k]);
      AcceptLoopAccepts(s.runs[r], all[..k], answers[..k]);
      AcceptTurnIsStep(c, t, r, answers[k]);
      var u := SetRun(t, r, AcceptTurn(t.runs[r], all[k], answers[k]));
      ReachesOn(c, s, t, u);
      ReachesOn(c, s, u, s');
    }
  }

  // ----- what follows the loops

  ghost function EndPrepare(c: Config, s: Sys, r: nat): Sys
    requires r < |s.runs|
  {
    var run := AfterPrepare(c.nodes, s.runs[r]);
    if run.phase == Ended then EndRun(s, r, run) else SetRun(s, r, run)
  }

  ghost function EndAccept(c: Config, s: Sys, r: nat): Sys
    requires r < |s.runs|
  {
    var run := AfterAccept(c.nodes, s.runs[r]);
    if run.phase == Ended then EndRun(s, r, run) else SetRun(s, r, run)
  }

  /** One turn of the decide loop, which waits for no answer. */
  ghost function DecideTurn(s: Sys, r: nat, node: Name): Sys
    requires r < |s.runs|
  {
    var run := s.runs[r];
    SetRun(s, r, run.(next := run.next + 1)).(net := s.net + {DecideMsg(r, node, run.v)})
  }

  ghost predicate DecideTurns(c: Config, r: nat, s: Sys, s': Sys, nodes: seq<Name>)
    decreases |nodes|
  {
    if nodes == [] then Meanwhile(c, r, s, s')
    else
      var k := |nodes| - 1;
      exists t: Sys :: DecideTurns(c, r, s, t, nodes[..k]) && DecideTurnAt(c, r, t, s', nodes[k])
  }

  ghost predicate DecideTurnAt(c: Config, r: nat, t: Sys, s': Sys, node: Name) {
    r < |t.runs| && Meanwhile(c, r, DecideTurn(t, r, node), s')
  }

  lemma StepKeepsNet(c: Config, s: Sys, step: Step)
    requires Enabled(c, s, step)
    ensures s.net <= Apply(c, s, step).net
  {
    hide OnPrepare, OnAccept, OnDecide, Commit, Replay;
  }

  lemma {:induction false} LeadsKeepsNet(c: Config, states: seq<Sys>, s: Sys, s': Sys)
    requires Leads(c, states, s, s')
    ensures s.net <= s'.net
  {
    hide Enabled, Apply;
    var k := |states| - 1;
    if k > 0 {
      assert Next(c, states[k - 1], states[k]);
      var step :| Enabled(c, states[k - 1], step) && states[k] == Apply(c, states[k - 1], step);
      StepKeepsNet(c, states[k - 1], step);
      LeadsKeepsNet(c, states[..k], s, states[k - 1]);
    }
  }

  lemma ReachesKeepsNet(c: Config, s: Sys, s': Sys)
    requires Reaches(c, s, s')
    ensures s.net <= s'.net
  {
    hide Leads;
    var states :| Leads(c, states, s, s');
    LeadsKeepsNet(c, states, s, s');
  }

  lemma DecideTurnIsStep(c: Config, s: Sys, r: nat)
    requires r < |s.runs| && s.runs[r].phase == Deciding && s.runs[r].next < |s.runs[r].accepts|
    ensures Reaches(c, s, DecideTurn(s, r, s.runs[r].accepts[s.runs[r].next]))
  {
    hide Reaches;
    StepReaches(c, s, SendDecide(r));
  }

  lemma {:induction false} DecideLoopIsSteps(c: Config, r: nat, s: Sys, s': Sys, k: nat)
    requires r < |s.runs| && s.runs[r].phase == Deciding && s.runs[r].next == 0 && k <= |s.runs[r].accepts|
    requires DecideTurns(c, r, s, s', s.runs[r].accepts[..k])
    ensures r < |s'.runs| && s'.runs[r] == s.runs[r].(next := k) && Reaches(c, s, s')
    ensures forall i :: 0 <= i < k ==> DecideMsg(r, s.runs[r].accepts[i], s.runs[r].v) in s'.net
    decreases k
  {
    hide Reaches, DecideTurnAt;
    if k > 0 {
      var all := s.runs[r].accepts;
      assert all[..k][..k - 1] == all[..k - 1];
      var t: Sys :| DecideTurns(c, r, s, t, all[..k - 1]) && DecideTurnAt(c, r, t, s', all[k - 1]);
      DecideLoopIsSteps(c, r, s, t, k - 1);
      OneMoreDecide(c, r, s, t, s', k - 1);
    }
  }

  lemma OneMoreDecide(c: Config, r: nat, s: Sys, t: Sys, s': Sys, k: nat)
    requires r < |s.runs| && s.runs[r].phase == Deciding && k < |s.runs[r].accepts|
    requires r < |t.runs| && t.runs[r] == s.runs[r].(next := k) && Reaches(c, s, t)
    requires DecideTurnAt(c, r, t, s', s.runs[r].accepts[k])
    ensures r < |s'.runs| && s'.runs[r] == s.runs[r].(next := k + 1) && Reaches(c, s, s')
    ensures t.net <= s'.net && DecideMsg(r, s.runs[r].accepts[k], s.runs[r].v) in s'.net
  {
    hide Reaches;
    DecideTurnIsStep(c, t, r);
    var u := DecideTurn(t, r, s.runs[r].accepts[k]);
    ReachesOn(c, s, t, u);
    ReachesOn(c, s, u, s');
    ReachesKeepsNet(c, u, s');
  }

  // ----- the whole call

  /** A call of run that no old-instance answer cuts short: from the state in which run `r` is new to
      the state in which it has ended. The requests it sends are among the steps in between. */
  ghost predicate Call(c: Config, r: nat, s: Sys, s': Sys, promises: seq<Answer<PrepareReply>>,
                       votes: seq<Answer<bool>>) {
    && |promises| == |c.nodes|
    && exists a: Sys :: PrepareTurns(c, r, s, a, promises) && r < |a.runs| && Rest(c, r, EndPrepare(c, a, r), s', votes)
  }

  /** What follows the prepare phase. */
  ghost predicate Rest(c: Config, r: nat, s: Sys, s': Sys, votes: seq<Answer<bool>>) {
    && r < |s.runs|
    && if s.runs[r].phase == Ended then s' == s
       else
         && |votes| == |s.runs[r].promises|
         && exists a: Sys ::
              && AcceptTurns(c, r, s, a, s.runs[r].promises, votes) && r < |a.runs|
              && Decides(c, r, EndAccept(c, a, r), s')
  }

  /** What follows the accept phase. */
  ghost predicate Decides(c: Config, r: nat, s: Sys, s': Sys) {
    && r < |s.runs|
    && if s.runs[r].phase == Ended then s' == s
       else
         exists a: Sys ::
           && DecideTurns(c, r, s, a, s.runs[r].accepts) && r < |a.runs|
           && s' == EndRun(a, r, a.runs[r].(phase := Ended))
  }

  /** The decide requests of a run are in the network. */
  ghost predicate Decided(s: Sys, r: nat, nodes: seq<Name>, v: string) {
    forall i :: 0 <= i < |nodes| ==> DecideMsg(r, nodes[i], v) in s.net
  }

  lemma DecidesIsSteps(c: Config, r: nat, s: Sys, s': Sys)
    requires Decides(c, r, s, s') && (s.runs[r].phase == Ended || (s.runs[r].phase == Deciding && s.runs[r].next == 0))
    ensures Reaches(c, s, s') && r < |s'.runs|
    ensures s.runs[r].phase == Ended ==> s' == s
    ensures s.runs[r].phase == Deciding ==>
              && s'.runs[r] == s.runs[r].(phase := Ended, next := |s.runs[r].accepts|)
              && Decided(s', r, s.runs[r].accepts, s.runs[r].v)
  {
    hide Reaches;
    if s.runs[r].phase == Ended {
      Stays(c, s);
    } else {
      var all := s.runs[r].accepts;
      var a: Sys :| && DecideTurns(c, r, s, a, all) && r < |a.runs| && s' == EndRun(a, r, a.runs[r].(phase := Ended));
      assert all[..|all|] == all;
      DecideLoopIsSteps(c, r, s, a, |all|);
      EndIsStep(c, a, r);
      ReachesOn(c, s, a, s');
    }
  }

  lemma EndIsStep(c: Config, s: Sys, r: nat)
    requires r < |s.runs| && s.runs[r].phase == Deciding && s.runs[r].next == |s.runs[r].accepts|
    ensures Reaches(c, s, EndRun(s, r, s.runs[r].(phase := Ended)))
  {
    hide Reaches;
    StepReaches(c, s, FinishDecide(r));
  }

  lemma Stays(c: Config, s: Sys)
    ensures Reaches(c, s, s)
  {
    assert Leads(c, [s], s, s);
  }

  lemma EndPrepareIsStep(c: Config, s: Sys, r: nat)
    requires r < |s.runs| && s.runs[r].phase == Preparing && s.runs[r].next == |c.nodes|
    ensures Reaches(c, s, EndPrepare(c, s, r))
  {
    hide Reaches, AfterPrepare;
    StepReaches(c, s, FinishPrepare(r));
  }

  lemma EndAcceptIsStep(c: Config, s: Sys, r: nat)
    requires r < |s.runs| && s.runs[r].phase == Accepting && s.runs[r].next == |s.runs[r].promises|
    ensures Reaches(c, s, EndAccept(c, s, r))
  {
    hide Reaches, AfterAccept;
    StepReaches(c, s, FinishAccept(r));
  }

  lemma EndAcceptRun(c: Config, s: Sys, r: nat)
    requires r < |s.runs|
    ensures r < |EndAccept(c, s, r).runs|
    ensures var run := EndAccept(c, s, r).runs[r];
            run == AfterAccept(c.nodes, s.runs[r]) && (run.phase == Ended || (run.phase == Deciding && run.next == 0))
  {
    hide IsMajority;
  }

  /** How a run that has come to `run` ends. */
  ghost predicate EndsAs(s: Sys, r: nat, run: Paxos.Run) {
    && r < |s.runs|
    && s.runs[r] == (if run.phase == Deciding then run.(phase := Ended, next := |run.accepts|) else run)
    && (run.phase == Deciding ==> Decided(s, r, run.accepts, run.v))
  }

  lemma RestIsSteps(c: Config, r: nat, s: Sys, s': Sys, votes: seq<Answer<bool>>)
    requires Rest(c, r, s, s', votes) && s.runs[r].phase == Accepting && s.runs[r].next == 0
    ensures |votes| == |s.runs[r].promises| && Reaches(c, s, s')
    ensures EndsAs(s', r, AfterAccept(c.nodes, AcceptLoop(s.runs[r], s.runs[r].promises, votes)))
  {
    hide Reaches, Decided, AcceptLoop, AfterAccept, AcceptTurns, Decides, EndAccept;
    var all := s.runs[r].promises;
    var a: Sys :| && AcceptTurns(c, r, s, a, all, votes) && r < |a.runs| && Decides(c, r, EndAccept(c, a, r), s');
    assert all[..|votes|] == all;
    AcceptLoopIsSteps(c, r, s, a, votes);
    AcceptLoopAccepts(s.runs[r], all, votes);
    EndAcceptIsStep(c, a, r);
    EndAcceptRun(c, a, r);
    ReachesOn(c, s, a, EndAccept(c, a, r));
    DecidesIsSteps(c, r, EndAccept(c, a, r), s');
    ReachesOn(c, s, EndAccept(c, a, r), s');
  }

  /** The whole call is a sequence of steps of the system, and comes to what the program's loops
      compute from the answers it gets. */
  lemma CallIsSteps(c: Config, r: nat, s: Sys, s': Sys, promises: seq<Answer<PrepareReply>>, votes: seq<Answer<bool>>)
    requires r < |s.runs| && s.runs[r].phase == Preparing && s.runs[r].next == 0 && s.runs[r].promises == []
    requires Call(c, r, s, s', promises, votes) && |votes| >= |Promisers(c.nodes, promises)|
    ensures Reaches(c, s, s') && EndsAs(s', r, WholeRun(c.nodes, s.runs[r], promises, votes))
  {
    hide Reaches, Decided, PrepareLoop, AcceptLoop, IsMajority, Promisers, Rest;
    var a: Sys :| PrepareTurns(c, r, s, a, promises) && r < |a.runs| && Rest(c, r, EndPrepare(c, a, r), s', votes);
    assert c.nodes[..|promises|] == c.nodes;
    PrepareLoopIsSteps(c, r, s, a, promises);
    PrepareLoopPromises(s.runs[r], c.nodes, promises);
    EndPrepareIsStep(c, a, r);
    var b := EndPrepare(c, a, r);
    ReachesOn(c, s, a, b);
    if b.runs[r].phase == Ended {
      RestEnded(c, r, b, s', votes);
    } else {
      RestIsSteps(c, r, b, s', votes);
      assert votes[..|votes|] == votes;
      ReachesOn(c, s, b, s');
    }
  }

  /** The same from the moment at which the program takes its number. */
  lemma CallFromStart(c: Config, s: Sys, p: Name, newv: string, s': Sys, promises: seq<Answer<PrepareReply>>,
                      votes: seq<Answer<bool>>)
    requires Enabled(c, s, Start(p, newv)) && Call(c, |s.runs|, Apply(c, s, Start(p, newv)), s', promises, votes)
    requires |votes| >= |Promisers(c.nodes, promises)|
    ensures Reaches(c, s, s')
    ensures var n := Max(s.acceptors[p].nh.n + 1, s.proposers[p].myN + 1);
            EndsAs(s', |s.runs|, WholeRun(c.nodes, NewRun(p, Prop(n, p), newv), promises, votes))
  {
    hide Reaches, WholeRun, EndsAs, PrepareTurns, Rest, Promisers;
    var t := Apply(c, s, Start(p, newv));
    CallIsSteps(c, |s.runs|, t, s', promises, votes);
    StepReaches(c, s, Start(p, newv));
    ReachesOn(c, s, t, s');
  }

  lemma RestEnded(c: Config, r: nat, s: Sys, s': Sys, votes: seq<Answer<bool>>)
    requires Rest(c, r, s, s', votes) && s.runs[r].phase == Ended
    ensures s' == s
  {}

  /** A call that an old-instance answer cuts short commits the value it carries and ends. */
  lemma OldCallIsSteps(c: Config, r: nat, s: Sys, a: Sys, promises: seq<Answer<PrepareReply>>, v: string)
    requires r < |s.runs| && s.runs[r].phase == Preparing && s.runs[r].next == 0 && |promises| < |c.nodes|
    requires PrepareTurns(c, r, s, a, promises) && OldMsg(r, c.nodes[|promises|], v) in a.net
    ensures r < |a.runs| && Enabled(c, a, GotOld(r, v)) && Reaches(c, s, Apply(c, a, GotOld(r, v)))
  {
    hide Reaches, PrepareLoop;
    PrepareLoopIsSteps(c, r, s, a, promises);
    PrepareLoopPromises(s.runs[r], c.nodes[..|promises|], promises);
    StepReaches(c, a, GotOld(r, v));
    ReachesOn(c, s, a, Apply(c, a, GotOld(r, v)));
  }
}
