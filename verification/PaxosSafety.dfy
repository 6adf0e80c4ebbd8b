/** Every step of module Paxos keeps its invariant, so agreement holds in every run. */
module PaxosSafety {
  import opened PaxosAcceptor
  import opened Paxos

  // ----- what never goes back

  ghost predicate Kept(a: Run, b: Run) {
    a.n == b.n && (a.proposed ==> b.proposed && b.v == a.v && b.promises == a.promises)
  }

  ghost predicate Grows(s: Sys, s': Sys) {
    && |s.runs| <= |s'.runs| && s.net <= s'.net
    && forall r: nat :: r < |s.runs| ==> Kept(s.runs[r], s'.runs[r])
  }

  lemma VoteOfGrows(s: Sys, s': Sys, q: Name, n: Prop, v: string)
    requires Grows(s, s') && VoteOf(s, q, n, v)
    ensures VoteOf(s', q, n, v)
  {
    var k: nat :| Voted(s, k, q) && s.runs[k].n == n && s.runs[k].proposed && s.runs[k].v == v;
    assert Voted(s', k, q) && Kept(s.runs[k], s'.runs[k]);
  }

  lemma ChosenGrows(c: Config, s: Sys, s': Sys, r: nat)
    requires Grows(s, s') && Chosen(c, s, r)
    ensures Chosen(c, s', r) && s'.runs[r].v == s.runs[r].v
  {
    hide IsMajority;
    assert Kept(s.runs[r], s'.runs[r]);
    var some :| IsMajority(c.nodes, some) && forall q :: q in some ==> Voted(s, r, q);
    assert forall q :: q in some ==> Voted(s', r, q);
  }

  lemma ChosenValueGrows(c: Config, s: Sys, s': Sys, v: string)
    requires Grows(s, s') && ChosenValue(c, s, v)
    ensures ChosenValue(c, s', v)
  {
    hide IsMajority, Grows;
    var r: nat :| Chosen(c, s, r) && s.runs[r].v == v;
    ChosenGrows(c, s, s', r);
  }

  // ----- steps that neither promise nor vote nor touch an acceptor

  ghost predicate IsRequest(m: Msg) {
    m.PrepareMsg? || m.AcceptMsg? || m.DecideMsg?
  }

  /** Runs may advance and requests may be added. */
  ghost predicate Quiet(s: Sys, s': Sys) {
    && Grows(s, s') && s'.acceptors == s.acceptors
    && (forall m :: m in s'.net ==> m in s.net || IsRequest(m))
    && (forall m :: m in s'.net ==> m.run < |s'.runs|)
  }

  lemma QuietVotes(s: Sys, s': Sys, q: Name)
    requires Quiet(s, s') && MsgsKnown(s)
    ensures forall k: nat :: Voted(s', k, q) <==> Voted(s, k, q)
    ensures forall k: nat :: Voted(s, k, q) ==> s'.runs[k].n == s.runs[k].n
  {
    forall k: nat ensures Voted(s', k, q) <==> Voted(s, k, q) {
      if AcceptedMsg(k, q) in s'.net { assert AcceptedMsg(k, q) in s.net; }
    }
  }

  lemma QuietPromises(c: Config, s: Sys, s': Sys)
    requires Quiet(s, s') && MsgsKnown(s) && PromisesOk(c, s) && PromiseOnce(s)
    ensures PromisesOk(c, s') && PromiseOnce(s')
  {
    hide AtLeast, VoteOf, Voted;
    forall r: nat, q, na, va | PromiseMsg(r, q, na, va) in s'.net && r < |s'.runs|
      ensures r < |s.runs| && s'.runs[r].n == s.runs[r].n && PromiseMsg(r, q, na, va) in s.net
      ensures PromiseOk(c, s', q, s'.runs[r].n, na, va)
    {
      assert PromiseOk(c, s, q, s.runs[r].n, na, va) && Kept(s.runs[r], s'.runs[r]);
      QuietVotes(s, s', q);
      if na.n > 0 { VoteOfGrows(s, s', q, na, va); }
    }
  }

  lemma QuietAcceptors(c: Config, s: Sys, s': Sys)
    requires Quiet(s, s') && MsgsKnown(s) && AcceptorsOk(c, s)
    ensures AcceptorsOk(c, s')
  {
    hide AtLeast, VoteOf, Voted, Recoverable, ChosenValue;
    forall q | q in s'.acceptors ensures AcceptorOk(c, s', q) {
      assert AcceptorOk(c, s, q);
      QuietVotes(s, s', q);
      var acc := s.acceptors[q];
      if Open(c, s, q) && acc.na.n > 0 { VoteOfGrows(s, s', q, acc.na, acc.va); }
      if c.instance in acc.values { ChosenValueGrows(c, s, s', acc.values[c.instance]); }
    }
  }

  lemma QuietMessages(c: Config, s: Sys, s': Sys)
    requires Quiet(s, s') && MsgsKnown(s) && AcceptsOk(s) && VotesOk(s) && DecidesOk(c, s)
    requires forall m :: m in s'.net && m.AcceptMsg? ==>
               m in s.net || (m.run < |s'.runs| && s'.runs[m.run].proposed && m.v == s'.runs[m.run].v
                 && m.dst in s'.runs[m.run].promises)
    requires forall m :: m in s'.net && m.DecideMsg? ==>
               m in s.net || (Chosen(c, s', m.run) && m.v == s'.runs[m.run].v && Voted(s', m.run, m.dst))
    ensures AcceptsOk(s') && VotesOk(s') && DecidesOk(c, s')
  {
    hide IsMajority, ChosenValue, Grows;
    forall r: nat | r < |s.runs| ensures r < |s'.runs| && Kept(s.runs[r], s'.runs[r]) { KeptHere(s, s', r); }
    forall k: nat, q | Voted(s', k, q) ensures s'.runs[k].proposed && q in s'.runs[k].promises {
      assert AcceptedMsg(k, q) in s.net && Voted(s, k, q);
    }
    forall r: nat, q, v | AcceptMsg(r, q, v) in s'.net && r < |s'.runs|
      ensures s'.runs[r].proposed && v == s'.runs[r].v && q in s'.runs[r].promises
    {
      if AcceptMsg(r, q, v) in s.net { assert r < |s.runs|; }
    }
    forall r: nat, q, v | DecideMsg(r, q, v) in s'.net
      ensures Chosen(c, s', r) && v == s'.runs[r].v && Voted(s', r, q)
    {
      if DecideMsg(r, q, v) in s.net { ChosenGrows(c, s, s', r); VotedGrows(s, s', r, q); }
    }
    forall r: nat, q, v | OldMsg(r, q, v) in s'.net ensures ChosenValue(c, s', v) {
      assert OldMsg(r, q, v) in s.net;
      ChosenValueGrows(c, s, s', v);
    }
  }

  lemma KeptHere(s: Sys, s': Sys, r: nat)
    requires Grows(s, s') && r < |s.runs|
    ensures r < |s'.runs| && Kept(s.runs[r], s'.runs[r])
  {}

  lemma VotedGrows(s: Sys, s': Sys, k: nat, q: Name)
    requires Grows(s, s') && Voted(s, k, q)
    ensures Voted(s', k, q)
  {}

  /** A run that did not move stays as good as it was. */
  lemma RunOkKept(c: Config, s: Sys, s': Sys, r: nat)
    requires Grows(s, s') && r < |s.runs| && RunOk(c, s, r) && s'.runs[r] == s.runs[r]
    requires forall q, na, va :: PromiseMsg(r, q, na, va) in s'.net ==> PromiseMsg(r, q, na, va) in s.net
    ensures RunOk(c, s', r)
  {
    hide AtLeast, IsMajority;
    forall q | q in s.runs[r].promises ensures Promised(s', r, q) {
      assert Promised(s, r, q);
      var na, va :| PromiseMsg(r, q, na, va) in s.net;
      assert PromiseMsg(r, q, na, va) in s'.net;
    }
  }

  /** Puts the parts together for a quiet step in which only run `r` moved. */
  lemma QuietStep(c: Config, s: Sys, s': Sys, r: nat)
    requires Inv(c, s) && Quiet(s, s') && r < |s'.runs| && |s'.runs| <= |s.runs| + 1
    requires |s'.runs| == |s.runs| + 1 ==> r == |s.runs|
    requires forall k: nat :: k < |s.runs| && k != r ==> s'.runs[k] == s.runs[k]
    requires RunOk(c, s', r)
    requires forall m :: m in s'.net && m.AcceptMsg? ==>
               m in s.net || (m.run < |s'.runs| && s'.runs[m.run].proposed && m.v == s'.runs[m.run].v
                 && m.dst in s'.runs[m.run].promises)
    requires forall m :: m in s'.net && m.DecideMsg? ==>
               m in s.net || (Chosen(c, s', m.run) && m.v == s'.runs[m.run].v && Voted(s', m.run, m.dst))
    ensures Inv(c, s')
  {
    hide RunOk, PromisesOk, PromiseOnce, AcceptorsOk, AcceptsOk, VotesOk, DecidesOk, Chosen, Voted;
    QuietPromises(c, s, s');
    QuietAcceptors(c, s, s');
    QuietMessages(c, s, s');
    forall k: nat | k < |s'.runs| ensures RunOk(c, s', k) {
      if k != r { RunOkKept(c, s, s', k); }
    }
  }

  lemma StartKeeps(c: Config, s: Sys, p: Name, newv: string)
    requires Inv(c, s) && Enabled(c, s, Start(p, newv))
    ensures Inv(c, Apply(c, s, Start(p, newv)))
  {
    hide PromisesOk, PromiseOnce, AcceptorsOk, AcceptsOk, VotesOk, DecidesOk, RunsOk, IsMajority, Chosen, Voted;
    QuietStep(c, s, Apply(c, s, Start(p, newv)), |s.runs|);
  }

  lemma SendPrepareKeeps(c: Config, s: Sys, r: nat)
    requires Inv(c, s) && Enabled(c, s, SendPrepare(r))
    ensures Inv(c, Apply(c, s, SendPrepare(r)))
  {
    hide PromisesOk, PromiseOnce, AcceptorsOk, AcceptsOk, VotesOk, DecidesOk, IsMajority, Chosen, Voted, RunOk;
    var s' := Apply(c, s, SendPrepare(r));
    RunOkKept(c, s, s', r);
    QuietStep(c, s, s', r);
  }

  /** A step that only moves the position of a run, ends it or lets it decide. */
  lemma MoveKeeps(c: Config, s: Sys, s': Sys, r: nat, run: Run)
    requires Inv(c, s) && r < |s.runs| && s'.runs == s.runs[r := run] && s'.net == s.net && s'.acceptors == s.acceptors
    requires run == s.runs[r].(phase := run.phase, next := run.next)
    requires run.phase == s.runs[r].phase || run.phase == Ended || (run.phase == Deciding && run.proposed
      && IsMajority(c.nodes, run.accepts))
    ensures Inv(c, s')
  {
    hide PromisesOk, PromiseOnce, AcceptorsOk, AcceptsOk, VotesOk, DecidesOk, IsMajority, Chosen;
    assert RunOk(c, s, r);
    forall q | q in run.promises ensures Promised(s', r, q) { assert Promised(s, r, q); }
    assert RunOk(c, s', r);
    QuietStep(c, s, s', r);
  }

  /** The prepare loop keeps the value of the highest vote. */
  lemma GotPromiseBest(c: Config, s: Sys, r: nat, na: Prop, va: string)
    requires Inv(c, s) && Enabled(c, s, GotPromise(r, na, va))
    ensures BestOk(Apply(c, s, GotPromise(r, na, va)), r)
  {
    hide AtLeast, Greater, IsMajority, AcceptorsOk, AcceptsOk, VotesOk, DecidesOk;
    var s' := Apply(c, s, GotPromise(r, na, va));
    var was, run, node := s.runs[r], s'.runs[r], c.nodes[s.runs[r].next];
    assert RunOk(c, s, r) && PromiseOk(c, s, node, was.n, na, va);
    GreaterIsNotAtLeast(na, was.best);
    ZeroIsLow(na, was.best);
    AtLeastTotal(na, was.best);
    forall q, na', va' | q in run.promises && PromiseMsg(r, q, na', va') in s'.net
      ensures if run.best.n == 0 then na'.n == 0 else na'.n == 0 || AtLeast(run.best, na')
    {
      if q == node {
        assert na' == na;
        AtLeastTotal(na, na);
      } else {
        assert q in was.promises;
        if na'.n > 0 && Greater(na, was.best) { AtLeastTransitive(na, was.best, na'); }
      }
    }
    if run.best.n > 0 {
      if Greater(na, was.best) {
        assert node in run.promises;
      } else {
        var q :| q in was.promises && PromiseMsg(r, q, was.best, was.v) in s.net;
        assert q in run.promises;
      }
    }
  }

  lemma ZeroIsLow(a: Prop, b: Prop)
    ensures AtLeast(a, b) ==> a.n >= b.n
    ensures Greater(a, b) ==> a.n >= b.n
    ensures !AtLeast(a, b) ==> a.n <= b.n
  {}

  lemma GotPromiseKeeps(c: Config, s: Sys, r: nat, na: Prop, va: string)
    requires Inv(c, s) && Enabled(c, s, GotPromise(r, na, va))
    ensures Inv(c, Apply(c, s, GotPromise(r, na, va)))
  {
    hide PromisesOk, PromiseOnce, AcceptorsOk, AcceptsOk, VotesOk, DecidesOk, IsMajority, Chosen, BestOk, Greater;
    var s' := Apply(c, s, GotPromise(r, na, va));
    assert RunOk(c, s, r);
    GotPromiseBest(c, s, r, na, va);
    forall q | q in s'.runs[r].promises ensures Promised(s', r, q) {
      if q in s.runs[r].promises { assert Promised(s, r, q); } else { assert PromiseMsg(r, q, na, va) in s'.net; }
    }
    assert RunOk(c, s', r);
    QuietStep(c, s, s', r);
  }

  /** A run that has a majority of promises proposes. */
  lemma ProposeKeeps(c: Config, s: Sys, s': Sys, r: nat)
    requires Inv(c, s) && r < |s.runs| && s.runs[r].phase == Preparing && IsMajority(c.nodes, s.runs[r].promises)
    requires s'.runs == s.runs[r := AfterPrepare(c.nodes, s.runs[r])] && s'.net == s.net && s'.acceptors == s.acceptors
    ensures Inv(c, s')
  {
    hide PromisesOk, PromiseOnce, AcceptorsOk, AcceptsOk, VotesOk, DecidesOk, IsMajority, Chosen, AtLeast;
    assert RunOk(c, s, r);
    forall q | q in s'.runs[r].promises ensures Promised(s', r, q) { assert Promised(s, r, q); }
    assert RunOk(c, s', r);
    QuietStep(c, s, s', r);
  }

  lemma FinishPrepareKeeps(c: Config, s: Sys, r: nat)
    requires Inv(c, s) && Enabled(c, s, FinishPrepare(r))
    ensures Inv(c, Apply(c, s, FinishPrepare(r)))
  {
    hide Inv, IsMajority;
    var s' := Apply(c, s, FinishPrepare(r));
    if IsMajority(c.nodes, s.runs[r].promises) {
      ProposeKeeps(c, s, s', r);
    } else {
      MoveKeeps(c, s, s', r, s.runs[r].(phase := Ended));
    }
  }

  lemma SendAcceptKeeps(c: Config, s: Sys, r: nat)
    requires Inv(c, s) && Enabled(c, s, SendAccept(r))
    ensures Inv(c, Apply(c, s, SendAccept(r)))
  {
    hide PromisesOk, PromiseOnce, AcceptorsOk, AcceptsOk, VotesOk, DecidesOk, IsMajority, Chosen, Voted, BestOk;
    var s' := Apply(c, s, SendAccept(r));
    assert RunOk(c, s, r);
    RunOkKept(c, s, s', r);
    QuietStep(c, s, s', r);
  }

  lemma GotAcceptedKeeps(c: Config, s: Sys, r: nat)
    requires Inv(c, s) && Enabled(c, s, GotAccepted(r))
    ensures Inv(c, Apply(c, s, GotAccepted(r)))
  {
    hide PromisesOk, PromiseOnce, AcceptorsOk, AcceptsOk, VotesOk, DecidesOk, IsMajority, Chosen, AtLeast;
    var s' := Apply(c, s, GotAccepted(r));
    assert RunOk(c, s, r);
    forall q | q in s'.runs[r].promises ensures Promised(s', r, q) { assert Promised(s, r, q); }
    assert RunOk(c, s', r);
    QuietStep(c, s, s', r);
  }

  lemma FinishAcceptKeeps(c: Config, s: Sys, r: nat)
    requires Inv(c, s) && Enabled(c, s, FinishAccept(r))
    ensures Inv(c, Apply(c, s, FinishAccept(r)))
  {
    hide RunOk, PromisesOk, PromiseOnce, AcceptorsOk, AcceptsOk, VotesOk, DecidesOk, IsMajority, MsgsKnown;
    ProposedWhileAccepting(c, s, r);
    MoveKeeps(c, s, Apply(c, s, FinishAccept(r)), r, AfterAccept(c.nodes, s.runs[r]));
  }

  lemma ProposedWhileAccepting(c: Config, s: Sys, r: nat)
    requires RunsOk(c, s) && r < |s.runs| && s.runs[r].phase == Accepting
    ensures s.runs[r].proposed
  {
    assert RunOk(c, s, r);
  }

  lemma SendDecideKeeps(c: Config, s: Sys, r: nat)
    requires Inv(c, s) && Enabled(c, s, SendDecide(r))
    ensures Inv(c, Apply(c, s, SendDecide(r)))
  {
    hide PromisesOk, PromiseOnce, AcceptorsOk, AcceptsOk, VotesOk, DecidesOk, IsMajority, AtLeast;
    var s' := Apply(c, s, SendDecide(r));
    assert RunOk(c, s, r);
    forall q | q in s'.runs[r].promises ensures Promised(s', r, q) {
      assert Promised(s, r, q);
      var na, va :| PromiseMsg(r, q, na, va) in s.net;
      assert PromiseMsg(r, q, na, va) in s'.net;
    }
    assert RunOk(c, s', r);
    assert forall q :: q in s'.runs[r].accepts ==> Voted(s', r, q);
    QuietStep(c, s, s', r);
  }

  // ----- steps of acceptors: promises

  /** The acceptors other than `q` are the same, and `q` has not gone back. */
  ghost predicate OneMoved(c: Config, s: Sys, s': Sys, q: Name) {
    && q in s.acceptors && s'.acceptors.Keys == s.acceptors.Keys
    && (forall p :: p in s.acceptors && p != q ==> s'.acceptors[p] == s.acceptors[p])
    && (Open(c, s', q) ==> Open(c, s, q) && AtLeast(s'.acceptors[q].nh, s.acceptors[q].nh))
  }

  lemma PromiseOkMoved(c: Config, s: Sys, s': Sys, q: Name, p: Name, n: Prop, na: Prop, va: string)
    requires s'.runs == s.runs && s.net <= s'.net && OneMoved(c, s, s', q) && PromiseOk(c, s, p, n, na, va)
    requires forall k: nat :: Voted(s', k, p) ==> Voted(s, k, p)
    ensures PromiseOk(c, s', p, n, na, va)
  {
    hide AtLeast, Voted;
    VoteOfMoved(s, s', p, na, va);
    if Open(c, s', p) && p == q { AtLeastTransitive(s'.acceptors[q].nh, s.acceptors[q].nh, n); }
  }

  lemma VoteOfMoved(s: Sys, s': Sys, q: Name, n: Prop, v: string)
    requires s'.runs == s.runs && s.net <= s'.net
    ensures VoteOf(s, q, n, v) ==> VoteOf(s', q, n, v)
  {
    if VoteOf(s, q, n, v) { VoteOfGrows(s, s', q, n, v); }
  }

  lemma AcceptorOkKept(c: Config, s: Sys, s': Sys, p: Name)
    requires s'.runs == s.runs && s.net <= s'.net && p in s.acceptors && p in s'.acceptors
    requires s'.acceptors[p] == s.acceptors[p]
    requires AcceptorOk(c, s, p) && forall k: nat :: Voted(s', k, p) ==> Voted(s, k, p)
    ensures AcceptorOk(c, s', p)
  {
    hide AtLeast, VoteOf, Voted, Recoverable, ChosenValue;
    var acc := s.acceptors[p];
    VoteOfMoved(s, s', p, acc.na, acc.va);
    if c.instance in acc.values { ChosenValueGrows(c, s, s', acc.values[c.instance]); }
  }

  /** Requests and decisions do not depend on a promise or an old-instance reply. */
  lemma ReplyMessages(c: Config, s: Sys, s': Sys)
    requires AcceptsOk(s) && VotesOk(s) && DecidesOk(c, s) && s'.runs == s.runs && s.net <= s'.net
    requires forall m :: m in s'.net ==> m in s.net || m.PromiseMsg? || (m.OldMsg? && ChosenValue(c, s, m.v))
    ensures AcceptsOk(s') && VotesOk(s') && DecidesOk(c, s')
  {
    hide ChosenValue, IsMajority;
    forall r: nat, q, v | DecideMsg(r, q, v) in s'.net
      ensures Chosen(c, s', r) && v == s'.runs[r].v && Voted(s', r, q) {
      assert DecideMsg(r, q, v) in s.net;
      ChosenGrows(c, s, s', r);
    }
    forall r: nat, q, v | OldMsg(r, q, v) in s'.net ensures ChosenValue(c, s', v) {
      ChosenValueGrows(c, s, s', v);
    }
    forall k: nat, q | Voted(s', k, q) ensures Voted(s, k, q) { assert AcceptedMsg(k, q) in s.net; }
  }

  /** The state after `q` answers run `r` with a promise. */
  ghost predicate AfterPromise(c: Config, s: Sys, s': Sys, r: nat, q: Name) {
    && q in s.acceptors && r < |s.runs| && Open(c, s, q) && Greater(s.runs[r].n, s.acceptors[q].nh)
    && s' == s.(acceptors := s.acceptors[q := OnPrepare(s.acceptors[q], c.instance, s.runs[r].n).0],
                net := s.net + {PromiseMsg(r, q, s.acceptors[q].na, s.acceptors[q].va)})
  }

  lemma PromiseKeepsPromises(c: Config, s: Sys, s': Sys, r: nat, q: Name)
    requires MsgsKnown(s) && PromisesOk(c, s) && PromiseOnce(s) && VotesOk(s) && RunsOk(c, s) && AcceptorsOk(c, s)
    requires AfterPromise(c, s, s', r, q)
    ensures PromisesOk(c, s') && PromiseOnce(s') && OneMoved(c, s, s', q) && forall k: nat, p :: Voted(s', k, p) ==>
              Voted(s, k, p)
  {
    hide AtLeast, Greater, RunsOk, VotesOk, AcceptorOk, Voted;
    var acc, n := s.acceptors[q], s.runs[r].n;
    GreaterIsNotAtLeast(n, acc.nh);
    NewPromise(c, s, s', r, q);
    forall r': nat, p, na, va | PromiseMsg(r', p, na, va) in s'.net && r' < |s'.runs|
      ensures PromiseOk(c, s', p, s'.runs[r'].n, na, va)
      ensures PromiseMsg(r', p, na, va) in s.net && p == q ==> s'.runs[r'].n != n
    {
      if PromiseMsg(r', p, na, va) in s.net {
        assert PromiseOk(c, s, p, s.runs[r'].n, na, va);
        PromiseOkMoved(c, s, s', q, p, s.runs[r'].n, na, va);
      }
    }
  }

  lemma NewPromise(c: Config, s: Sys, s': Sys, r: nat, q: Name)
    requires MsgsKnown(s) && PromisesOk(c, s) && VotesOk(s) && RunsOk(c, s) && AcceptorsOk(c, s)
    requires AfterPromise(c, s, s', r, q)
    ensures OneMoved(c, s, s', q) && (forall k: nat, p :: Voted(s', k, p) ==> Voted(s, k, p))
    ensures PromiseOk(c, s', q, s.runs[r].n, s.acceptors[q].na, s.acceptors[q].va)
  {
    hide AtLeast, Greater, RunsOk, PromisesOk, VotesOk, Recoverable, ChosenValue, VoteOf;
    var acc, n := s.acceptors[q], s.runs[r].n;
    assert AcceptorOk(c, s, q);
    GreaterIsNotAtLeast(n, acc.nh);
    AtLeastTotal(n, acc.nh);
    AtLeastTotal(n, n);
    if acc.na.n > 0 {
      VoteBelow(c, s, q, n);
      VoteOfMoved(s, s', q, acc.na, acc.va);
    }
  }

  /** The last vote of a node is below every number it has yet to promise. */
  lemma VoteBelow(c: Config, s: Sys, q: Name, n: Prop)
    requires PromisesOk(c, s) && VotesOk(s) && RunsOk(c, s) && Open(c, s, q) && !AtLeast(s.acceptors[q].nh, n)
    requires VoteOf(s, q, s.acceptors[q].na, s.acceptors[q].va)
    ensures !AtLeast(s.acceptors[q].na, n)
  {
    hide AtLeast, RunsOk, PromisesOk, VotesOk;
    var acc := s.acceptors[q];
    var k: nat :| Voted(s, k, q) && s.runs[k].n == acc.na && s.runs[k].proposed && s.runs[k].v == acc.va;
    PromisedNumber(c, s, k, q);
    if AtLeast(acc.na, n) { AtLeastTransitive(acc.nh, acc.na, n); }
  }

  /** A number that an open node voted for is at most the highest it has promised. */
  lemma PromisedNumber(c: Config, s: Sys, k: nat, q: Name)
    requires PromisesOk(c, s) && VotesOk(s) && RunsOk(c, s) && Voted(s, k, q) && Open(c, s, q)
    ensures AtLeast(s.acceptors[q].nh, s.runs[k].n)
  {
    hide AtLeast, BestOk, IsMajority;
    assert RunOk(c, s, k) && Promised(s, k, q);
    var na, va :| PromiseMsg(k, q, na, va) in s.net;
    assert PromiseOk(c, s, q, s.runs[k].n, na, va);
  }

  /** Runs are not disturbed: a node that promised in a run does not promise in it again. */
  lemma PromiseKeepsRuns(c: Config, s: Sys, s': Sys, r: nat, q: Name)
    requires PromisesOk(c, s) && RunsOk(c, s) && AfterPromise(c, s, s', r, q)
    ensures RunsOk(c, s')
  {
    hide AtLeast, Greater, IsMajority;
    GreaterIsNotAtLeast(s.runs[r].n, s.acceptors[q].nh);
    forall k: nat | k < |s'.runs| ensures RunOk(c, s', k) {
      assert RunOk(c, s, k);
      forall p | p in s.runs[k].promises ensures Promised(s', k, p) && (k == r ==> p != q) {
        assert Promised(s, k, p);
        var na, va :| PromiseMsg(k, p, na, va) in s.net;
        assert PromiseMsg(k, p, na, va) in s'.net && PromiseOk(c, s, p, s.runs[k].n, na, va);
      }
    }
  }

  lemma PromiseKeepsAcceptors(c: Config, s: Sys, s': Sys, r: nat, q: Name)
    requires AcceptorsOk(c, s) && AfterPromise(c, s, s', r, q) && forall k: nat, p :: Voted(s', k, p) ==> Voted(s, k, p)
    ensures AcceptorsOk(c, s')
  {
    hide AtLeast, Greater, Voted, Recoverable, ChosenValue, VoteOf;
    forall p | p in s'.acceptors ensures AcceptorOk(c, s', p) {
      assert AcceptorOk(c, s, p);
      if p != q {
        AcceptorOkKept(c, s, s', p);
      } else {
        var acc := s.acceptors[q];
        PrepareRecoverable(q, acc, c.instance, s.runs[r].n);
        VoteOfMoved(s, s', q, acc.na, acc.va);
      }
    }
  }

  lemma PromiseKeeps(c: Config, s: Sys, s': Sys, r: nat, q: Name)
    requires Inv(c, s) && AfterPromise(c, s, s', r, q)
    ensures Inv(c, s')
  {
    hide RunsOk, PromisesOk, PromiseOnce, AcceptsOk, VotesOk, AcceptorsOk, DecidesOk, OneMoved, Voted, Open, Greater;
    PromiseKeepsPromises(c, s, s', r, q);
    PromiseKeepsRuns(c, s, s', r, q);
    PromiseKeepsAcceptors(c, s, s', r, q);
    ReplyMessages(c, s, s');
  }

  /** A reply that tells the decided value. */
  lemma OldReplyKeeps(c: Config, s: Sys, s': Sys, r: nat, q: Name, v: string)
    requires Inv(c, s) && r < |s.runs| && ChosenValue(c, s, v) && s' == s.(net := s.net + {OldMsg(r, q, v)})
    ensures Inv(c, s')
  {
    hide PromiseOnce, AcceptsOk, VotesOk, DecidesOk, ChosenValue, RunOk, AcceptorOk, PromiseOk;
    ReplyMessages(c, s, s');
    assert forall k: nat, p :: Voted(s', k, p) ==> Voted(s, k, p);
    OldReplyPromises(c, s, s', r, q, v);
    forall k: nat | k < |s'.runs| ensures RunOk(c, s', k) { RunOkKept(c, s, s', k); }
    forall p | p in s'.acceptors ensures AcceptorOk(c, s', p) { AcceptorOkKept(c, s, s', p); }
  }

  lemma OldReplyPromises(c: Config, s: Sys, s': Sys, r: nat, q: Name, v: string)
    requires PromisesOk(c, s) && PromiseOnce(s) && s' == s.(net := s.net + {OldMsg(r, q, v)})
    ensures PromisesOk(c, s') && PromiseOnce(s')
  {
    hide AtLeast;
    forall r': nat, p, na, va | PromiseMsg(r', p, na, va) in s'.net && r' < |s'.runs|
      ensures PromiseOk(c, s', p, s'.runs[r'].n, na, va) {
      assert PromiseOk(c, s, p, s.runs[r'].n, na, va);
      VoteOfMoved(s, s', p, na, va);
    }
  }

  lemma DeliverPrepareKeeps(c: Config, s: Sys, r: nat, q: Name)
    requires Inv(c, s) && Enabled(c, s, DeliverPrepare(r, q))
    ensures Inv(c, Apply(c, s, DeliverPrepare(r, q)))
  {
    hide RunsOk, PromisesOk, PromiseOnce, AcceptsOk, VotesOk, DecidesOk, Greater, Recoverable, ChosenValue, VoteOf,
         TopsVotes;
    var acc, s' := s.acceptors[q], Apply(c, s, DeliverPrepare(r, q));
    assert AcceptorOk(c, s, q);
    if c.instance <= acc.instanceH {
      assert s.acceptors[q := acc] == s.acceptors;
      OldReplyKeeps(c, s, s', r, q, ValueOf(acc, c.instance));
    } else if Greater(s.runs[r].n, acc.nh) {
      assert AfterPromise(c, s, s', r, q);
      PromiseKeeps(c, s, s', r, q);
    } else {
      assert s.acceptors[q := acc] == s.acceptors;
      assert s' == s;
    }
  }

  // ----- steps of acceptors: votes

  /** The state after `q` accepts the proposal of run `r`. */
  ghost predicate AfterVote(c: Config, s: Sys, s': Sys, r: nat, q: Name, v: string) {
    && q in s.acceptors && r < |s.runs| && Open(c, s, q) && AcceptMsg(r, q, v) in s.net
    && AtLeast(s.runs[r].n, s.acceptors[q].nh)
    && s' == s.(acceptors := s.acceptors[q := OnAccept(s.acceptors[q], s.runs[r].n, v).0],
      net := s.net + {AcceptedMsg(r, q)})
  }

  /** An accept request that the node does not refuse has the highest number it has promised. */
  lemma AcceptAtPromise(c: Config, s: Sys, r: nat, q: Name, v: string)
    requires PromisesOk(c, s) && RunsOk(c, s) && AcceptsOk(s) && r < |s.runs| && AcceptMsg(r, q, v) in s.net
    requires Open(c, s, q)
    requires AtLeast(s.runs[r].n, s.acceptors[q].nh)
    ensures s.runs[r].n == s.acceptors[q].nh
  {
    hide AtLeast, BestOk, IsMajority;
    assert RunOk(c, s, r) && Promised(s, r, q);
    var na, va :| PromiseMsg(r, q, na, va) in s.net;
    assert PromiseOk(c, s, q, s.runs[r].n, na, va);
    AtLeastTotal(s.runs[r].n, s.acceptors[q].nh);
  }

  lemma VotesAfter(s: Sys, s': Sys, r: nat, q: Name)
    requires s'.runs == s.runs && s'.net == s.net + {AcceptedMsg(r, q)} && r < |s.runs|
    ensures forall k: nat, p :: Voted(s', k, p) <==> Voted(s, k, p) || (k == r && p == q)
  {}

  lemma VoteKeepsPromises(c: Config, s: Sys, s': Sys, r: nat, q: Name, v: string)
    requires PromisesOk(c, s) && PromiseOnce(s) && RunsOk(c, s) && AcceptsOk(s) && AfterVote(c, s, s', r, q, v)
    ensures PromisesOk(c, s') && PromiseOnce(s')
  {
    hide AtLeast, Voted, RunsOk, AcceptsOk, VoteOf;
    AcceptAtPromise(c, s, r, q, v);
    VotesAfter(s, s', r, q);
    forall r': nat, p, na, va | PromiseMsg(r', p, na, va) in s'.net && r' < |s'.runs|
      ensures PromiseOk(c, s', p, s'.runs[r'].n, na, va) {
      assert PromiseMsg(r', p, na, va) in s.net && PromiseOk(c, s, p, s.runs[r'].n, na, va);
      VoteOfMoved(s, s', p, na, va);
    }
  }

  lemma VoteKeepsRuns(c: Config, s: Sys, s': Sys, r: nat, q: Name, v: string)
    requires RunsOk(c, s) && AfterVote(c, s, s', r, q, v)
    ensures RunsOk(c, s')
  {
    hide RunOk, AtLeast;
    forall k: nat | k < |s'.runs| ensures RunOk(c, s', k) { RunOkKept(c, s, s', k); }
  }

  /** The new vote of `q` is its highest. */
  lemma NewVote(c: Config, s: Sys, s': Sys, r: nat, q: Name, v: string)
    requires PromisesOk(c, s) && RunsOk(c, s) && VotesOk(s) && AcceptsOk(s) && AfterVote(c, s, s', r, q, v)
    ensures TopsVotes(s', q, s.runs[r].n) && VoteOf(s', q, s.runs[r].n, v) && v != "" && s.runs[r].n.n > 0
  {
    hide AtLeast, PromisesOk, VotesOk, IsMajority, BestOk;
    AcceptAtPromise(c, s, r, q, v);
    assert RunOk(c, s, r) && Voted(s', r, q);
    forall k: nat | Voted(s', k, q) ensures AtLeast(s.runs[r].n, s'.runs[k].n) {
      if k == r { AtLeastTotal(s.runs[r].n, s.runs[r].n); } else { assert Voted(s, k, q); PromisedNumber(c, s, k, q); }
    }
  }

  lemma VoteKeepsAcceptors(c: Config, s: Sys, s': Sys, r: nat, q: Name, v: string)
    requires PromisesOk(c, s) && RunsOk(c, s) && VotesOk(s) && AcceptsOk(s) && AcceptorsOk(c, s)
    requires AfterVote(c, s, s', r, q, v)
    ensures AcceptorsOk(c, s')
  {
    hide AtLeast, Voted, PromisesOk, VotesOk, RunsOk, AcceptsOk, Recoverable, VoteOf, TopsVotes, ChosenValue;
    NewVote(c, s, s', r, q, v);
    VotesAfter(s, s', r, q);
    forall p | p in s'.acceptors ensures AcceptorOk(c, s', p) {
      assert AcceptorOk(c, s, p);
      if p != q {
        AcceptorOkKept(c, s, s', p);
      } else {
        AcceptRecoverable(q, s.acceptors[q], s.runs[r].n, v);
      }
    }
  }

  lemma VoteKeepsMessages(c: Config, s: Sys, s': Sys, r: nat, q: Name, v: string)
    requires AcceptsOk(s) && VotesOk(s) && DecidesOk(c, s) && AfterVote(c, s, s', r, q, v)
    ensures AcceptsOk(s') && VotesOk(s') && DecidesOk(c, s')
  {
    hide ChosenValue, IsMajority, AtLeast;
    VotesAfter(s, s', r, q);
    forall r: nat, q, v | DecideMsg(r, q, v) in s'.net
      ensures Chosen(c, s', r) && v == s'.runs[r].v && Voted(s', r, q) {
      assert DecideMsg(r, q, v) in s.net;
      ChosenGrows(c, s, s', r);
    }
    forall r: nat, q, v | OldMsg(r, q, v) in s'.net ensures ChosenValue(c, s', v) {
      assert OldMsg(r, q, v) in s.net;
      ChosenValueGrows(c, s, s', v);
    }
  }

  lemma DeliverAcceptKeeps(c: Config, s: Sys, r: nat, q: Name, v: string)
    requires c.timely && Inv(c, s) && Enabled(c, s, DeliverAccept(r, q, v))
    ensures Inv(c, Apply(c, s, DeliverAccept(r, q, v)))
  {
    hide RunsOk, PromisesOk, PromiseOnce, AcceptsOk, VotesOk, AcceptorsOk, DecidesOk, AtLeast;
    var acc, s' := s.acceptors[q], Apply(c, s, DeliverAccept(r, q, v));
    if AtLeast(s.runs[r].n, acc.nh) {
      assert AfterVote(c, s, s', r, q, v);
      VoteKeepsPromises(c, s, s', r, q, v);
      VoteKeepsRuns(c, s, s', r, q, v);
      VoteKeepsAcceptors(c, s, s', r, q, v);
      VoteKeepsMessages(c, s, s', r, q, v);
    } else {
      assert s.acceptors[q := acc] == s.acceptors;
      assert s' == s;
    }
  }

  // ----- commits

  /** The state after `q` commits a chosen value. */
  ghost predicate AfterCommit(c: Config, s: Sys, s': Sys, q: Name, v: string) {
    && q in s.acceptors && ChosenValue(c, s, v) && s'.runs == s.runs && s'.net == s.net
    && s'.acceptors == s.acceptors[q := Commit(s.acceptors[q], q, c.instance, v)]
  }

  lemma CommitKeeps(c: Config, s: Sys, s': Sys, q: Name, v: string)
    requires Inv(c, s) && AfterCommit(c, s, s', q, v)
    ensures Inv(c, s')
  {
    hide PromisesOk, PromiseOnce, AcceptsOk, VotesOk, AcceptorsOk, DecidesOk, ChosenValue, RunOk;
    CommitKeepsPromises(c, s, s', q, v);
    CommitKeepsAcceptors(c, s, s', q, v);
    forall k: nat | k < |s'.runs| ensures RunOk(c, s', k) { RunOkKept(c, s, s', k); }
    CommitKeepsMessages(c, s, s', q, v);
  }

  lemma CommitKeepsPromises(c: Config, s: Sys, s': Sys, q: Name, v: string)
    requires PromisesOk(c, s) && PromiseOnce(s) && AfterCommit(c, s, s', q, v)
    ensures PromisesOk(c, s') && PromiseOnce(s')
  {
    hide AtLeast, Voted, ChosenValue;
    VotesSame(s, s');
    forall r: nat, p, na, va | PromiseMsg(r, p, na, va) in s'.net && r < |s'.runs|
      ensures PromiseOk(c, s', p, s'.runs[r].n, na, va) {
      assert PromiseOk(c, s, p, s.runs[r].n, na, va);
    }
  }

  lemma VotesSame(s: Sys, s': Sys)
    requires s'.runs == s.runs && s'.net == s.net
    ensures forall k: nat, p :: Voted(s', k, p) <==> Voted(s, k, p)
  {}

  lemma CommitKeepsAcceptors(c: Config, s: Sys, s': Sys, q: Name, v: string)
    requires AcceptorsOk(c, s) && AfterCommit(c, s, s', q, v)
    ensures AcceptorsOk(c, s')
  {
    hide AtLeast, Voted, ChosenValue, Recoverable, VoteOf;
    VotesSame(s, s');
    ChosenValueGrows(c, s, s', v);
    forall p | p in s'.acceptors ensures AcceptorOk(c, s', p) {
      assert AcceptorOk(c, s, p);
      if p != q || c.instance <= s.acceptors[q].instanceH {
        AcceptorOkKept(c, s, s', p);
      } else {
        CommitRecoverable(q, s.acceptors[q], c.instance, v);
      }
    }
  }

  lemma CommitKeepsMessages(c: Config, s: Sys, s': Sys, q: Name, v: string)
    requires AcceptsOk(s) && VotesOk(s) && DecidesOk(c, s) && AfterCommit(c, s, s', q, v)
    ensures AcceptsOk(s') && VotesOk(s') && DecidesOk(c, s')
  {
    hide ChosenValue;
    ReplyMessages(c, s, s');
  }

  /** The check `v_a == a.v` in decidereq never fails, nor does it find the node behind. */
  lemma DecideCheckHolds(c: Config, s: Sys, r: nat, q: Name, v: string)
    requires Inv(c, s) && q in s.acceptors && DecideMsg(r, q, v) in s.net
    ensures OnDecide(s.acceptors[q], q, c.instance, v).Handled?
    ensures ChosenValue(c, s, v) && (Open(c, s, q) ==> s.acceptors[q].va == v)
  {
    hide PromiseOnce, RunsOk, PromisesOk, AcceptsOk, VotesOk, Recoverable, IsMajority, AtLeast;
    assert Chosen(c, s, r) && v == s.runs[r].v && Voted(s, r, q);
    assert AcceptorOk(c, s, q);
    var acc := s.acceptors[q];
    if Open(c, s, q) {
      var k: nat :| Voted(s, k, q) && s.runs[k].n == acc.na && s.runs[k].proposed && s.runs[k].v == acc.va;
      HigherRunsAgree(c, s, r, k);
    }
  }

  lemma DeliverDecideKeeps(c: Config, s: Sys, r: nat, q: Name, v: string)
    requires Inv(c, s) && Enabled(c, s, DeliverDecide(r, q, v))
    ensures Inv(c, Apply(c, s, DeliverDecide(r, q, v)))
  {
    hide Inv, ChosenValue;
    var acc, s' := s.acceptors[q], Apply(c, s, DeliverDecide(r, q, v));
    DecideCheckHolds(c, s, r, q, v);
    if c.instance == acc.instanceH + 1 {
      assert AfterCommit(c, s, s', q, v);
      CommitKeeps(c, s, s', q, v);
    } else {
      assert s.acceptors[q := acc] == s.acceptors;
      assert s' == s;
    }
  }

  lemma GotOldKeeps(c: Config, s: Sys, r: nat, v: string)
    requires Inv(c, s) && Enabled(c, s, GotOld(r, v))
    ensures Inv(c, Apply(c, s, GotOld(r, v)))
  {
    hide RunsOk, PromisesOk, PromiseOnce, AcceptsOk, VotesOk, AcceptorsOk, ChosenValue, Chosen, Voted;
    var p, run := s.runs[r].proposer, s.runs[r].(phase := Ended);
    var s1, s' := EndRun(s, r, run), Apply(c, s, GotOld(r, v));
    MoveKeeps(c, s, s1, r, run);
    if p in s.acceptors {
      ChosenValueGrows(c, s, s1, v);
      CommitKeeps(c, s1, s', p, v);
    }
  }

  // ----- crashes

  /** A run of a node that crashed is over. */
  lemma KilledRunOk(c: Config, s: Sys, s': Sys, k: nat)
    requires k < |s.runs| && k < |s'.runs| && RunOk(c, s, k) && s'.net == s.net && |s'.runs| == |s.runs|
    requires s'.runs[k] == s.runs[k] || s'.runs[k] == s.runs[k].(phase := Ended)
    ensures RunOk(c, s', k)
  {
    hide AtLeast, IsMajority;
    forall q | q in s.runs[k].promises ensures Promised(s', k, q) { assert Promised(s, k, q); }
  }

  lemma KillKeeps(c: Config, s: Sys, s': Sys, q: Name)
    requires Inv(c, s) && s'.runs == Killed(s.runs, q) && s'.acceptors == s.acceptors && s'.net == s.net
    ensures Inv(c, s')
  {
    hide PromisesOk, PromiseOnce, AcceptsOk, VotesOk, AcceptorsOk, DecidesOk, RunOk, Chosen, Voted;
    assert Quiet(s, s');
    QuietPromises(c, s, s');
    QuietAcceptors(c, s, s');
    QuietMessages(c, s, s');
    forall k: nat | k < |s'.runs| ensures RunOk(c, s', k) { KilledRunOk(c, s, s', k); }
  }

  /** The state after `q` has read its log again. */
  ghost predicate AfterRestart(s: Sys, s': Sys, q: Name) {
    && q in s.acceptors && s'.runs == s.runs && s'.net == s.net
    && s'.acceptors == s.acceptors[q := Replay(q, s.acceptors[q].log)]
  }

  lemma RestartKeepsPromises(c: Config, s: Sys, s': Sys, q: Name)
    requires PromisesOk(c, s) && PromiseOnce(s) && RunsOk(c, s) && AcceptorsOk(c, s) && AfterRestart(s, s', q)
    ensures PromisesOk(c, s') && PromiseOnce(s')
  {
    hide AtLeast, Voted, Replay, ChosenValue, VoteOf, TopsVotes, BestOk, IsMajority;
    VotesSame(s, s');
    assert AcceptorOk(c, s, q);
    forall r: nat, p, na, va | PromiseMsg(r, p, na, va) in s'.net && r < |s'.runs|
      ensures PromiseOk(c, s', p, s'.runs[r].n, na, va) {
      assert PromiseOk(c, s, p, s.runs[r].n, na, va) && RunOk(c, s, r);
      ZeroIsLow(s.acceptors[p].nh, s.runs[r].n);
      VoteOfMoved(s, s', p, na, va);
    }
  }

  lemma RestartKeepsAcceptors(c: Config, s: Sys, s': Sys, q: Name)
    requires AcceptorsOk(c, s) && AfterRestart(s, s', q)
    ensures AcceptorsOk(c, s')
  {
    hide AtLeast, Voted, Replay, ChosenValue, VoteOf;
    VotesSame(s, s');
    forall p | p in s'.acceptors ensures AcceptorOk(c, s', p) {
      assert AcceptorOk(c, s, p);
      if p != q {
        AcceptorOkKept(c, s, s', p);
      } else {
        var acc := s.acceptors[q];
        RestartRecoverable(q, acc);
        VoteOfMoved(s, s', q, acc.na, acc.va);
        if c.instance in acc.values { ChosenValueGrows(c, s, s', acc.values[c.instance]); }
      }
    }
  }

  lemma RestartKeeps(c: Config, s: Sys, s': Sys, q: Name)
    requires Inv(c, s) && AfterRestart(s, s', q)
    ensures Inv(c, s')
  {
    hide PromisesOk, PromiseOnce, AcceptsOk, VotesOk, AcceptorsOk, DecidesOk, RunOk, Replay;
    RestartKeepsPromises(c, s, s', q);
    RestartKeepsAcceptors(c, s, s', q);
    ReplyMessages(c, s, s');
    forall k: nat | k < |s'.runs| ensures RunOk(c, s', k) { RunOkKept(c, s, s', k); }
  }

  lemma CrashKeeps(c: Config, s: Sys, q: Name)
    requires Inv(c, s) && Enabled(c, s, Crash(q))
    ensures Inv(c, Apply(c, s, Crash(q)))
  {
    hide Inv, Replay, Killed;
    var s1 := s.(runs := Killed(s.runs, q));
    KillKeeps(c, s, s1, q);
    RestartKeeps(c, s1, Apply(c, s, Crash(q)), q);
  }

  // ----- every step, every run

  lemma InitInv(c: Config, s: Sys)
    requires Init(c, s)
    ensures Inv(c, s)
  {
    hide Recoverable, IsMajority;
    assert forall k: nat, q :: !Voted(s, k, q);
    forall q | q in s.acceptors ensures AcceptorOk(c, s, q) {}
  }

  lemma StepKeeps(c: Config, s: Sys, step: Step)
    requires c.timely && Inv(c, s) && Enabled(c, s, step)
    ensures Inv(c, Apply(c, s, step))
  {
    hide Inv;
    match step {
      case Start(p, newv) => StartKeeps(c, s, p, newv);
      case SendPrepare(r) => SendPrepareKeeps(c, s, r);
      case GotPromise(r, na, va) => GotPromiseKeeps(c, s, r, na, va);
      case GotOld(r, v) => GotOldKeeps(c, s, r, v);
      case SkipPrepare(r) => MoveKeeps(c, s, Apply(c, s, step), r, s.runs[r].(next := s.runs[r].next + 1));
      case FinishPrepare(r) => FinishPrepareKeeps(c, s, r);
      case SendAccept(r) => SendAcceptKeeps(c, s, r);
      case GotAccepted(r) => GotAcceptedKeeps(c, s, r);
      case SkipAccept(r) => MoveKeeps(c, s, Apply(c, s, step), r, s.runs[r].(next := s.runs[r].next + 1));
      case FinishAccept(r) => FinishAcceptKeeps(c, s, r);
      case SendDecide(r) => SendDecideKeeps(c, s, r);
      case FinishDecide(r) => MoveKeeps(c, s, Apply(c, s, step), r, s.runs[r].(phase := Ended));
      case DeliverPrepare(r, q) => DeliverPrepareKeeps(c, s, r, q);
      case DeliverAccept(r, q, v) => DeliverAcceptKeeps(c, s, r, q, v);
      case DeliverDecide(r, q, v) => DeliverDecideKeeps(c, s, r, q, v);
      case Crash(q) => CrashKeeps(c, s, q);
    }
  }

  ghost predicate Next(c: Config, s: Sys, s': Sys) {
    exists step :: Enabled(c, s, step) && s' == Apply(c, s, step)
  }

  /** A run of the system: any number of steps of any kind, in any order. */
  ghost predicate IsRun(c: Config, states: seq<Sys>) {
    |states| > 0 && Init(c, states[0]) && forall i :: 0 < i < |states| ==> Next(c, states[i - 1], states[i])
  }

  lemma {:induction false} RunKeepsInv(c: Config, states: seq<Sys>)
    requires c.timely && IsRun(c, states)
    ensures Inv(c, states[|states| - 1])
  {
    hide Inv, Init, Enabled, Apply;
    var last := |states| - 1;
    if last == 0 {
      InitInv(c, states[0]);
    } else {
      RunKeepsInv(c, states[..last]);
      assert Next(c, states[last - 1], states[last]);
      var step :| Enabled(c, states[last - 1], step) && states[last] == Apply(c, states[last - 1], step);
      StepKeeps(c, states[last - 1], step);
    }
  }

  /** Paxos agreement: whatever is lost, delayed, repeated or crashes, no two nodes ever commit
      different values for the instance, and no decide request makes a node fail its check. */
  lemma PaxosAgreement(c: Config, states: seq<Sys>)
    requires c.timely && IsRun(c, states)
    ensures Agreement(c, states[|states| - 1])
    ensures forall r: nat, q, v ::
              var s := states[|states| - 1];
              q in s.acceptors && DecideMsg(r, q, v) in s.net ==> OnDecide(s.acceptors[q], q, c.instance, v).Handled?
  {
    hide Inv, Init, Next, OnDecide;
    RunKeepsInv(c, states);
    var s := states[|states| - 1];
    InvGivesAgreement(c, s);
    forall r: nat, q, v | q in s.acceptors && DecideMsg(r, q, v) in s.net
      ensures OnDecide(s.acceptors[q], q, c.instance, v).Handled? {
      DecideCheckHolds(c, s, r, q, v);
    }
  }

  /** The promise invariant, n_a <= n_h, in every state of every run. A node that has accepted
      something keeps it; one that has not keeps it exactly if it has promised a number since, or
      the node names left over from an earlier instance happen to be in order. */
  lemma PromiseInvariant(c: Config, states: seq<Sys>, q: Name)
    requires c.timely && IsRun(c, states) && q in states[|states| - 1].acceptors
    ensures var acc := states[|states| - 1].acceptors[q];
            && (acc.na.n > 0 ==> AtLeast(acc.nh, acc.na))
            && (AtLeast(acc.nh, acc.na) <==> acc.na.n > 0 || acc.nh.n > 0 || !Before(acc.nh.m.text, acc.na.m.text))
  {
    hide Init, Next, Before, PromisesOk, RunsOk, VotesOk, PromiseOnce, AcceptsOk, DecidesOk, MsgsKnown, Recoverable,
         TopsVotes;
    RunKeepsInv(c, states);
    var s := states[|states| - 1];
    var acc := s.acceptors[q];
    assert AcceptorOk(c, s, q);
    if acc.na.n > 0 {
      var k: nat :| Voted(s, k, q) && s.runs[k].n == acc.na && s.runs[k].proposed && s.runs[k].v == acc.va;
      PromisedNumber(c, s, k, q);
    }
  }

  /** In every state of every run, the accept requests that succeed are those with exactly the
      highest number the node has promised; n_a and n_h are then the same. */
  lemma AcceptsMatchPromise(c: Config, states: seq<Sys>, r: nat, q: Name, v: string)
    requires c.timely && IsRun(c, states) && Enabled(c, states[|states| - 1], DeliverAccept(r, q, v))
    ensures var s := states[|states| - 1];
            var (acc, ok) := OnAccept(s.acceptors[q], s.runs[r].n, v);
            && (ok <==> s.runs[r].n == s.acceptors[q].nh) && (ok ==> acc.na == acc.nh)
  {
    hide Init, Next, AtLeast, PromisesOk, RunsOk, VotesOk, PromiseOnce, AcceptsOk, DecidesOk, MsgsKnown, AcceptorsOk;
    RunKeepsInv(c, states);
    var s := states[|states| - 1];
    AtLeastTotal(s.acceptors[q].nh, s.acceptors[q].nh);
    if AtLeast(s.runs[r].n, s.acceptors[q].nh) { AcceptAtPromise(c, s, r, q, v); }
  }

  const LEFT_OVER := [PropSeen(Prop(1, Name("b"))), Accepted(Prop(1, Name("b")), "x"), PropSeen(Prop(2, Name("a"))),
    Done(1, "x")]

  /** The log of a node that promised and accepted 1 of b, promised 2 of a, and then learned the
      decision. */
  lemma LeftOverLog(me: Name)
    ensures var a1 := OnPrepare(NewAcceptor(me), 1, Prop(1, Name("b"))).0;
            var a2 := OnAccept(a1, Prop(1, Name("b")), "x").0;
            var a3 := OnPrepare(a2, 1, Prop(2, Name("a"))).0;
            var a4 := Commit(a3, me, 1, "x");
            a4.log == LEFT_OVER && a4.nh == a4.na == Prop(0, me)
  {
    assert !Before("b", "b") by { BeforeTotal("b", "b"); }
  }

  lemma LeftOverReplayed(me: Name)
    ensures Replay(me, LEFT_OVER) == Acceptor(Prop(0, Name("a")), Prop(0, Name("b")), "", 1, map[1 := "x"], LEFT_OVER)
  {
    hide Replay;
    var l := LEFT_OVER;
    assert l[..1] == [] + [l[0]] && l[..2] == l[..1] + [l[1]] && l[..3] == l[..2] + [l[2]] && l == l[..3] + [l[3]];
    ReplayNil(me);
    ReplaySnoc(me, [], l[0]);
    ReplaySnoc(me, l[..1], l[1]);
    ReplaySnoc(me, l[..2], l[2]);
    ReplaySnoc(me, l[..3], l[3]);
    ReplayLog(me, l);
  }

  /** A restart after that leaves n_h = (0, a) and n_a = (0, b), so the next instance starts with
      a node for which n_a <= n_h fails. */
  lemma RestartMisorders(me: Name)
    ensures var acc := Replay(me, LEFT_OVER);
            var c, s := Config([me], 2, true), Sys(map[me := acc], map[me := Proposer(0, true)], [], {});
            IsRun(c, [s]) && acc.nh == Prop(0, Name("a")) && acc.na == Prop(0, Name("b")) && !AtLeast(acc.nh, acc.na)
  {
    hide Replay;
    LeftOverReplayed(me);
    assert Before("a", "b");
  }

  /** What a step can do to an acceptor. */
  ghost predicate Handles(c: Config, q: Name, a: Acceptor, b: Acceptor) {
    || b == a || b == Replay(q, a.log)
    || (exists n :: b == OnPrepare(a, c.instance, n).0)
    || (exists n, v :: b == OnAccept(a, n, v).0)
    || (exists v :: b == Commit(a, q, c.instance, v))
  }

  ghost predicate TouchesAcceptor(step: Step) {
    step.GotOld? || step.DeliverPrepare? || step.DeliverAccept? || step.DeliverDecide? || step.Crash?
  }

  lemma ProposerLeavesAcceptors(c: Config, s: Sys, step: Step)
    requires Enabled(c, s, step) && !TouchesAcceptor(step)
    ensures Apply(c, s, step).acceptors == s.acceptors
  {}

  lemma StepHandles(c: Config, s: Sys, step: Step, q: Name)
    requires Enabled(c, s, step) && q in s.acceptors
    ensures q in Apply(c, s, step).acceptors && Handles(c, q, s.acceptors[q], Apply(c, s, step).acceptors[q])
  {
    hide Replay, Greater, AtLeast, Killed, AfterPrepare, AfterAccept, TakePromise, NewRun, Commit, OnAccept, IsMajority;
    if !TouchesAcceptor(step) { ProposerLeavesAcceptors(c, s, step); }
  }

  /** A value that a node has committed stays committed there. */
  lemma CommittedStays(c: Config, s: Sys, s': Sys, q: Name)
    requires AcceptorsOk(c, s) && Next(c, s, s') && Committed(c, s, q)
    ensures Committed(c, s', q) && s'.acceptors[q].values[c.instance] == s.acceptors[q].values[c.instance]
  {
    hide Replay, Greater, AtLeast, Enabled, Apply, VoteOf, TopsVotes, NoVotes, ChosenValue;
    assert AcceptorOk(c, s, q);
    var step :| Enabled(c, s, step) && s' == Apply(c, s, step);
    StepHandles(c, s, step, q);
  }
}
