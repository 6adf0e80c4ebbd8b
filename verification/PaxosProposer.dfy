/** The loops of one proposer call (mit_6.824/paxos.cc, lines 82-236), as the program runs them.
    What the other nodes answer is a parameter: one answer per request, in the order sent.
    Module Paxos takes these loops apart into steps; here they are put together again. */
module PaxosProposer {
  import opened PaxosAcceptor
  import opened Paxos

  /** `None`: no connection, or the call failed or timed out. */
  datatype Answer<T> = None | Some(reply: T)

  predicate IsPromise(a: Answer<PrepareReply>) {
    a.Some? && a.reply.Promise?
  }

  predicate IsOld(a: Answer<PrepareReply>) {
    a.Some? && a.reply.OldInstance?
  }

  /** The nodes that gave a promise, in order. */
  function Promisers(nodes: seq<Name>, answers: seq<Answer<PrepareReply>>): seq<Name>
    requires |nodes| == |answers|
  {
    if nodes == [] then []
    else Promisers(nodes[..|nodes| - 1], answers[..|nodes| - 1]) +
         if IsPromise(answers[|nodes| - 1]) then [nodes[|nodes| - 1]] else []
  }

  /** The nodes that accepted, in order. */
  function Accepters(nodes: seq<Name>, answers: seq<Answer<bool>>): seq<Name>
    requires |nodes| == |answers|
  {
    if nodes == [] then []
    else Accepters(nodes[..|nodes| - 1], answers[..|nodes| - 1]) +
         if answers[|nodes| - 1] == Some(true) then [nodes[|nodes| - 1]] else []
  }

  // ----- the loops as steps of the system

  /** One turn of the prepare loop, in the step system. */
  function PrepareTurn(run: Run, node: Name, a: Answer<PrepareReply>): Run {
    if IsPromise(a) then TakePromise(run, node, a.reply.na, a.reply.va) else run.(next := run.next + 1)
  }

  function PrepareLoop(run: Run, nodes: seq<Name>, answers: seq<Answer<PrepareReply>>): Run
    requires |nodes| == |answers|
  {
    if nodes == [] then run
    else
      var k := |nodes| - 1;
      PrepareTurn(PrepareLoop(run, nodes[..k], answers[..k]), nodes[k], answers[k])
  }

  function AcceptTurn(run: Run, node: Name, a: Answer<bool>): Run {
    if a == Some(true) then run.(accepts := run.accepts + [node], next := run.next + 1) else run.(next := run.next + 1)
  }

  function AcceptLoop(run: Run, nodes: seq<Name>, answers: seq<Answer<bool>>): Run
    requires |nodes| == |answers|
  {
    if nodes == [] then run
    else
      var k := |nodes| - 1;
      AcceptTurn(AcceptLoop(run, nodes[..k], answers[..k]), nodes[k], answers[k])
  }

  lemma {:induction false} PrepareLoopPromises(run: Run, nodes: seq<Name>, answers: seq<Answer<PrepareReply>>)
    requires |nodes| == |answers|
    ensures var run' := PrepareLoop(run, nodes, answers);
            && run'.promises == run.promises + Promisers(nodes, answers)
            && run' == run.(next := run.next + |nodes|, promises := run'.promises, best := run'.best, v := run'.v)
  {
    if nodes != [] { PrepareLoopPromises(run, nodes[..|nodes| - 1], answers[..|nodes| - 1]); }
  }

  lemma {:induction false} AcceptLoopAccepts(run: Run, nodes: seq<Name>, answers: seq<Answer<bool>>)
    requires |nodes| == |answers|
    ensures AcceptLoop(run, nodes, answers) == run.(next := run.next + |nodes|,
      accepts := run.accepts + Accepters(nodes, answers))
  {
    if nodes != [] { AcceptLoopAccepts(run, nodes[..|nodes| - 1], answers[..|nodes| - 1]); }
  }

  /** What a call of run comes to: the run after its prepare and accept phases. */
  function WholeRun(nodes: seq<Name>, run: Run, promises: seq<Answer<PrepareReply>>, votes: seq<Answer<bool>>): Run
    requires |nodes| == |promises| && |votes| >= |Promisers(nodes, promises)| && run.promises == []
  {
    PrepareLoopPromises(run, nodes, promises);
    var run' := AfterPrepare(nodes, PrepareLoop(run, nodes, promises));
    if run'.phase == Ended then run' else AfterAccept(nodes, AcceptLoop(run', run'.promises, votes[..|run'.promises|]))
  }

  const NO_VOTE := Prop(0, Name(""))

  /** `v` belongs to a promise whose number no other promise exceeds. */
  ghost predicate HighestVote(answers: seq<Answer<PrepareReply>>, best: Prop, v: string) {
    && (forall i :: 0 <= i < |answers| && IsPromise(answers[i]) ==> AtLeast(best, answers[i].reply.na))
    && ((best == NO_VOTE && v == "")
        || exists i ::
             0 <= i < |answers| && IsPromise(answers[i]) && answers[i].reply.na == best && answers[i].reply.va == v)
  }

  class ProposerServer {
    const me: Name
    const acc: AcceptorServer
    var myN: nat
    var stable: bool

    constructor (me: Name, acc: AcceptorServer)
      ensures this.me == me && this.acc == acc && myN == 0 && stable
    {
      this.me, this.acc, myN, stable := me, acc, 0, true;
    }

    /** The new number is above the acceptor's and above every earlier one. */
    method SetN()
      modifies this
      ensures myN > acc.nh.n && myN > old(myN) && (myN == acc.nh.n + 1 || myN == old(myN) + 1)
      ensures stable == old(stable)
    {
      myN := if acc.nh.n + 1 > myN + 1 then acc.nh.n + 1 else myN + 1;
    }

    /** An old-instance answer ends the loop and commits the value it carries. */
    method Prepare(instance: nat, nodes: seq<Name>, answers: seq<Answer<PrepareReply>>, ghost run: Paxos.Run)
      returns (ok: bool, accepts: seq<Name>, v: string, ghost best: Prop)
      requires |nodes| == |answers| && run.promises == [] && run.best == NO_VOTE && run.v == ""
      modifies acc
      ensures ok ==>
                var run' := PrepareLoop(run, nodes, answers);
                accepts == run'.promises && best == run'.best && v == run'.v
      ensures ok ==> forall i :: 0 <= i < |answers| ==> !IsOld(answers[i])
      ensures ok ==>
                accepts == Promisers(nodes, answers) && HighestVote(answers, best, v) && acc.State() == old(acc.State())
      ensures !ok ==> exists i :: && 0 <= i < |answers| && IsOld(answers[i])
                                  && (forall j :: 0 <= j < i ==> !IsOld(answers[j]))
                                  && acc.State() == Commit(old(acc.State()), acc.me, instance, answers[i].reply.v)
    {
      hide HighestVote, Greater, Commit;
      accepts, v, best := [], "", NO_VOTE;
      var currnA := NO_VOTE;
      NoAnswers();
      for k := 0 to |nodes|
        invariant forall i :: 0 <= i < k ==> !IsOld(answers[i])
        invariant accepts == Promisers(nodes[..k], answers[..k]) && best == currnA && HighestVote(answers[..k], best, v)
        invariant var run' := PrepareLoop(run, nodes[..k], answers[..k]);
                  accepts == run'.promises && best == run'.best && v == run'.v
        invariant acc.State() == old(acc.State())
      {
        assert nodes[..k + 1][..k] == nodes[..k] && answers[..k + 1][..k] == answers[..k];
        HighestStep(answers, k, currnA, v);
        match answers[k] {
          case None =>
          case Some(OldInstance(w)) =>
            acc.CommitWo(instance, w);
            return false, accepts, v, best;
          case Some(Promise(na, va)) =>
            accepts := accepts + [nodes[k]];
            if Greater(na, currnA) { v, currnA, best := va, na, na; }
          case Some(Refuse) =>
        }
      }
      assert nodes[..|nodes|] == nodes && answers[..|nodes|] == answers;
      ok := true;
    }

    method Accept(nodes: seq<Name>, answers: seq<Answer<bool>>) returns (accepts: seq<Name>)
      requires |nodes| == |answers|
      ensures accepts == Accepters(nodes, answers)
    {
      accepts := [];
      for k := 0 to |nodes|
        invariant accepts == Accepters(nodes[..k], answers[..k])
      {
        assert nodes[..k + 1][..k] == nodes[..k] && answers[..k + 1][..k] == answers[..k];
        match answers[k] {
          case None =>
          case Some(r) => if r { accepts := accepts + [nodes[k]]; }
        }
      }
      assert nodes[..|nodes|] == nodes && answers[..|nodes|] == answers;
    }

    /** `proposed` and `decided` are the nodes that are sent accept and decide requests, `v` the
        value in them. Accepts go to promisers only, decides to accepters only, and only after
        a majority. */
    method Run(instance: nat, nodes: seq<Name>, newv: string, promises: seq<Answer<PrepareReply>>,
               votes: seq<Answer<bool>>)
      returns (r: bool, proposed: seq<Name>, decided: seq<Name>, v: string)
      requires |nodes| == |promises|
      requires |votes| >= |Promisers(nodes, promises)|
      modifies this, acc
      ensures old(stable) && (forall i :: 0 <= i < |promises| ==> !IsOld(promises[i])) ==>
                var run := WholeRun(nodes, NewRun(me, Prop(myN, me), newv), promises, votes);
                && (r <==> run.phase == Deciding) && (run.proposed ==> proposed == run.promises && v == run.v)
                && (!run.proposed ==> proposed == []) && (r ==> decided == run.accepts)
      ensures !old(stable) ==>
                !r && proposed == [] && decided == [] && stable == old(stable) && acc.State() == old(acc.State())
      ensures old(stable) ==> stable && myN > old(myN) && myN > old(acc.nh.n)
      ensures proposed != [] ==> proposed == Promisers(nodes, promises) && IsMajority(nodes, proposed)
      ensures proposed != [] ==> exists best, w :: HighestVote(promises, best, w) && v == if w == "" then newv else w
      ensures && old(stable) && (forall i :: 0 <= i < |promises| ==> !IsOld(promises[i]))
              && IsMajority(nodes, Promisers(nodes, promises)) ==>
                proposed == Promisers(nodes, promises)
      ensures r ==> proposed != [] && decided == Accepters(proposed, votes[..|proposed|]) && IsMajority(nodes, decided)
      ensures !r ==> decided == []
      ensures proposed != [] ==> (r <==> IsMajority(nodes, Accepters(proposed, votes[..|proposed|])))
    {
      hide PrepareLoop, AcceptLoop, Promisers, Accepters, IsMajority, HighestVote;
      r, proposed, decided, v := false, [], [], "";
      if !stable { return; }
      stable := false;
      SetN();
      ghost var run := NewRun(me, Prop(myN, me), newv);
      var ok, accepts, w, best := Prepare(instance, nodes, promises, run);
      PrepareLoopPromises(run, nodes, promises);
      assert run.promises + Promisers(nodes, promises) == Promisers(nodes, promises);
      if ok {
        var most := Majority(nodes, accepts);
        if most {
          v := if |w| == 0 then newv else w;
          proposed := accepts;
          assert HighestVote(promises, best, w);
          NobodyIsNoMajority(nodes);
          AcceptLoopAccepts(AfterPrepare(nodes, PrepareLoop(run, nodes, promises)), proposed, votes[..|proposed|]);
          accepts := Accept(proposed, votes[..|proposed|]);
          assert run.accepts + accepts == accepts;
          most := Majority(nodes, accepts);
          if most {
            decided := accepts;
            r := true;
          }
        }
      }
      stable := true;
    }
  }

  lemma {:induction false} NobodyCounts(nodes: seq<Name>)
    ensures CountIn(nodes, []) == 0
  {
    if nodes != [] { NobodyCounts(nodes[..|nodes| - 1]); }
  }

  lemma NobodyIsNoMajority(nodes: seq<Name>)
    ensures !IsMajority(nodes, [])
  {
    NobodyCounts(nodes);
  }

  lemma NoAnswers()
    ensures HighestVote([], NO_VOTE, "")
  {}

  lemma HighestStep(answers: seq<Answer<PrepareReply>>, k: nat, best: Prop, v: string)
    requires k < |answers| && HighestVote(answers[..k], best, v)
    ensures !IsPromise(answers[k]) ==> HighestVote(answers[..k + 1], best, v)
    ensures IsPromise(answers[k]) && !Greater(answers[k].reply.na, best) ==> HighestVote(answers[..k + 1], best, v)
    ensures IsPromise(answers[k]) && Greater(answers[k].reply.na, best) ==>
              HighestVote(answers[..k + 1], answers[k].reply.na, answers[k].reply.va)
  {
    hide AtLeast, Greater;
    var some, more := answers[..k], answers[..k + 1];
    assert forall i :: 0 <= i < k ==> more[i] == some[i];
    if IsPromise(answers[k]) {
      var na := answers[k].reply.na;
      GreaterIsNotAtLeast(na, best);
      AtLeastTotal(na, best);
      AtLeastTotal(na, na);
      assert more[k] == answers[k];
      if Greater(na, best) {
        forall i | 0 <= i < |more| && IsPromise(more[i]) ensures AtLeast(na, more[i].reply.na) {
          if i < k { assert IsPromise(some[i]); AtLeastTransitive(na, best, some[i].reply.na); }
        }
      } else if !(best == NO_VOTE && v == "") {
        var i :| 0 <= i < |some| && IsPromise(some[i]) && some[i].reply.na == best && some[i].reply.va == v;
        assert more[i] == some[i];
      }
    } else if !(best == NO_VOTE && v == "") {
      var i :| 0 <= i < |some| && IsPromise(some[i]) && some[i].reply.na == best && some[i].reply.va == v;
      assert more[i] == some[i];
    }
  }
}
