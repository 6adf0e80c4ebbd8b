/** acceptreq accepts without looking at the instance of the request, and committing an instance
    resets the promise. An accept that arrives after its node has committed can therefore undo
    the promise, and agreement is lost: the assumption `timely` of module Paxos is needed. */
module PaxosLateAccept {
  import opened PaxosAcceptor
  import opened Paxos
  import opened PaxosSafety

  const A := Name("a")
  const B := Name("b")
  const C := Name("c")

  /** Three nodes agree on their first instance. */
  const LATE := Config([A, B, C], 1, false)

  const START := Sys(map[A := NewAcceptor(A), B := NewAcceptor(B), C := NewAcceptor(C)],
                     map[A := Proposer(0, true), B := Proposer(0, true), C := Proposer(0, true)], [], {})

  ghost predicate Reached(c: Config, s: Sys) {
    exists states :: IsRun(c, states) && states[|states| - 1] == s
  }

  lemma ReachedStep(c: Config, s: Sys, step: Step)
    requires Reached(c, s) && Enabled(c, s, step)
    ensures Reached(c, Apply(c, s, step))
  {
    hide Enabled, Apply, Init;
    var states :| IsRun(c, states) && states[|states| - 1] == s;
    var more := states + [Apply(c, s, step)];
    assert Next(c, s, Apply(c, s, step));
    assert IsRun(c, more);
  }

  // ----- one turn of each loop of a run, with the message delivered and answered

  lemma PrepareTurn(c: Config, s: Sys, r: nat) returns (s': Sys)
    requires Reached(c, s) && InLoop(s, r, Preparing, c.nodes) && c.nodes[s.runs[r].next] in s.acceptors
    requires var acc := s.acceptors[c.nodes[s.runs[r].next]]; acc.instanceH < c.instance && Greater(s.runs[r].n, acc.nh)
    ensures Reached(c, s') && s'.proposers == s.proposers
    ensures var q, run := c.nodes[s.runs[r].next], s.runs[r];
            && s'.runs == s.runs[r := TakePromise(run, q, s.acceptors[q].na, s.acceptors[q].va)]
            && s'.acceptors == s.acceptors[q := s.acceptors[q].(nh := run.n,
              log := s.acceptors[q].log + [PropSeen(run.n)])]
  {
    hide Reached, TakePromise, Greater;
    var q := c.nodes[s.runs[r].next];
    var na, va := s.acceptors[q].na, s.acceptors[q].va;
    var s1 := Apply(c, s, SendPrepare(r));
    ReachedStep(c, s, SendPrepare(r));
    var s2 := Apply(c, s1, DeliverPrepare(r, q));
    ReachedStep(c, s1, DeliverPrepare(r, q));
    ReachedStep(c, s2, GotPromise(r, na, va));
    s' := Apply(c, s2, GotPromise(r, na, va));
  }

  lemma AcceptTurn(c: Config, s: Sys, r: nat) returns (s': Sys)
    requires Reached(c, s) && !c.timely && r < |s.runs| && InLoop(s, r, Accepting, s.runs[r].promises)
    requires var q := s.runs[r].promises[s.runs[r].next]; q in s.acceptors && AtLeast(s.runs[r].n, s.acceptors[q].nh)
    ensures Reached(c, s') && s'.proposers == s.proposers
    ensures var q, run := s.runs[r].promises[s.runs[r].next], s.runs[r];
            && s'.runs == s.runs[r := run.(accepts := run.accepts + [q], next := run.next + 1)]
            && s'.acceptors == s.acceptors[q := s.acceptors[q].(na := run.n, va := run.v,
              log := s.acceptors[q].log + [Accepted(run.n, run.v)])]
  {
    hide Reached, AtLeast;
    var q, v := s.runs[r].promises[s.runs[r].next], s.runs[r].v;
    var s1 := Apply(c, s, SendAccept(r));
    ReachedStep(c, s, SendAccept(r));
    var s2 := Apply(c, s1, DeliverAccept(r, q, v));
    ReachedStep(c, s1, DeliverAccept(r, q, v));
    ReachedStep(c, s2, GotAccepted(r));
    s' := Apply(c, s2, GotAccepted(r));
  }

  lemma DecideTurn(c: Config, s: Sys, r: nat) returns (s': Sys)
    requires Reached(c, s) && r < |s.runs| && InLoop(s, r, Deciding, s.runs[r].accepts)
    requires var q := s.runs[r].accepts[s.runs[r].next];
             q in s.acceptors && OnDecide(s.acceptors[q], q, c.instance, s.runs[r].v).Handled?
    ensures Reached(c, s') && s'.proposers == s.proposers
    ensures var q, run := s.runs[r].accepts[s.runs[r].next], s.runs[r];
            && s'.runs == s.runs[r := run.(next := run.next + 1)]
            && s'.acceptors == s.acceptors[q := OnDecide(s.acceptors[q], q, c.instance, run.v).acc]
  {
    hide Reached, OnDecide;
    var q, v := s.runs[r].accepts[s.runs[r].next], s.runs[r].v;
    var s1 := Apply(c, s, SendDecide(r));
    ReachedStep(c, s, SendDecide(r));
    ReachedStep(c, s1, DeliverDecide(r, q, v));
    s' := Apply(c, s1, DeliverDecide(r, q, v));
  }

  lemma StartTurn(c: Config, s: Sys, p: Name, newv: string) returns (s': Sys)
    requires Reached(c, s) && p in s.acceptors && p in s.proposers && s.proposers[p].stable && newv != ""
    ensures Reached(c, s') && s'.acceptors == s.acceptors
    ensures var n := Max(s.acceptors[p].nh.n + 1, s.proposers[p].myN + 1);
            s'.runs == s.runs + [NewRun(p, Prop(n, p), newv)] && s'.proposers == s.proposers[p := Proposer(n, false)]
  {
    hide Reached;
    ReachedStep(c, s, Start(p, newv));
    s' := Apply(c, s, Start(p, newv));
  }

  lemma SkipTurn(c: Config, s: Sys, r: nat) returns (s': Sys)
    requires Reached(c, s) && InLoop(s, r, Preparing, c.nodes)
    ensures Reached(c, s') && s'.runs == s.runs[r := s.runs[r].(next := s.runs[r].next + 1)]
    ensures s'.acceptors == s.acceptors && s'.proposers == s.proposers
  {
    hide Reached;
    ReachedStep(c, s, SkipPrepare(r));
    s' := Apply(c, s, SkipPrepare(r));
  }

  lemma PrepareEnd(c: Config, s: Sys, r: nat) returns (s': Sys)
    requires Reached(c, s) && LoopOver(s, r, Preparing, c.nodes) && IsMajority(c.nodes, s.runs[r].promises)
    ensures Reached(c, s') && s'.runs == s.runs[r := AfterPrepare(c.nodes, s.runs[r])]
    ensures s'.acceptors == s.acceptors && s'.proposers == s.proposers
  {
    hide Reached, IsMajority;
    ReachedStep(c, s, FinishPrepare(r));
    s' := Apply(c, s, FinishPrepare(r));
  }

  lemma AcceptEnd(c: Config, s: Sys, r: nat) returns (s': Sys)
    requires Reached(c, s) && r < |s.runs| && LoopOver(s, r, Accepting, s.runs[r].promises)
    requires IsMajority(c.nodes, s.runs[r].accepts)
    ensures Reached(c, s') && s'.runs == s.runs[r := s.runs[r].(phase := Deciding, next := 0)]
    ensures s'.acceptors == s.acceptors && s'.proposers == s.proposers
  {
    hide Reached, IsMajority;
    ReachedStep(c, s, FinishAccept(r));
    s' := Apply(c, s, FinishAccept(r));
  }

  // ----- the schedule

  /** Run 0, of node c, has the promises of a and c for number 1 and is about to propose "w". */
  const SLOW := Run(C, Prop(1, C), "w", Accepting, 0, [A, C], Prop(0, C), "w", true, [])

  /** What run 1, of node a, becomes: number 2, value "v", decided by a and b. */
  const FAST := Run(A, Prop(2, A), "v", Deciding, 0, [A, B], Prop(0, B), "v", true, [A, B])

  const PROMISED_C := NewAcceptor(C).(nh := Prop(1, C), log := [PropSeen(Prop(1, C))])

  lemma Spelling()
    ensures Before("", A.text) && Before(A.text, B.text) && Before(A.text, C.text)
  {}

  lemma Begin()
    ensures Init(LATE, START) && Reached(LATE, START)
  {
    hide Recoverable;
    NewRecoverable(A);
    NewRecoverable(B);
    NewRecoverable(C);
    assert IsRun(LATE, [START]);
  }

  lemma SlowRun() returns (s: Sys)
    ensures Reached(LATE, s) && s.runs == [SLOW] && s.proposers == START.proposers[C := Proposer(1, false)]
    ensures s.acceptors == map[A := NewAcceptor(A).(nh := Prop(1, C), log := [PropSeen(Prop(1, C))]),
      B := NewAcceptor(B), C := PROMISED_C]
  {
    hide Reached, Init, Before, IsMajority;
    Spelling();
    Begin();
    var fresh0 := NewRun(C, Prop(1, C), "w");
    s := StartTurn(LATE, START, C, "w");
    assert s.runs == [fresh0];
    s := PrepareTurn(LATE, s, 0);
    assert s.runs[0].promises == [A];
    assert s.runs == [fresh0.(promises := [A], best := Prop(0, A), next := 1)];
    s := SkipTurn(LATE, s, 0);
    assert s.runs[0].promises == [A];
    assert s.runs == [fresh0.(promises := [A], best := Prop(0, A), next := 2)];
    s := PrepareTurn(LATE, s, 0);
    assert s.runs[0].promises == [A, C];
    assert s.runs == [fresh0.(promises := [A, C], best := Prop(0, C), next := 3)];
    MajorityOf([A, C]);
    s := PrepareEnd(LATE, s, 0);
    assert s.runs == [SLOW];
    assert s.acceptors[A].log == [PropSeen(Prop(1, C))] && s.acceptors[C].log == [PropSeen(Prop(1, C))];
  }

  lemma MajorityOf(some: seq<Name>)
    requires A in some && (B in some || C in some)
    ensures IsMajority(LATE.nodes, some)
  {
    assert LATE.nodes[..2] == [A, B] && [A, B][..1] == [A] && [A][..0] == [];
    assert CountIn([A], some) == 1;
    assert CountIn([A, B], some) == 1 + if B in some then 1 else 0;
  }

  /** Run 1 gets its votes from a and b. */
  lemma FastRun() returns (s: Sys)
    ensures Reached(LATE, s) && s.runs == [SLOW, FAST]
    ensures A in s.acceptors && s.acceptors[A].instanceH == 0 && s.acceptors[A].va == "v"
    ensures C in s.acceptors && s.acceptors[C] == PROMISED_C
  {
    hide Reached, Init, Before, IsMajority;
    Spelling();
    s := SlowRun();
    var fresh1 := NewRun(A, Prop(2, A), "v");
    s := StartTurn(LATE, s, A, "v");
    assert s.runs == [SLOW, fresh1];
    s := PrepareTurn(LATE, s, 1);
    assert s.runs[1].promises == [A];
    assert s.runs == [SLOW, fresh1.(promises := [A], best := Prop(0, A), next := 1)];
    s := PrepareTurn(LATE, s, 1);
    assert s.runs[1].promises == [A, B];
    assert s.runs == [SLOW, fresh1.(promises := [A, B], best := Prop(0, B), next := 2)];
    s := SkipTurn(LATE, s, 1);
    assert s.runs[1].promises == [A, B];
    assert s.runs == [SLOW, fresh1.(promises := [A, B], best := Prop(0, B), next := 3)];
    MajorityOf([A, B]);
    s := PrepareEnd(LATE, s, 1);
    assert s.runs == [SLOW, FAST.(phase := Accepting, accepts := [])];
    AtLeastTotal(Prop(2, A), Prop(2, A));
    s := AcceptTurn(LATE, s, 1);
    assert s.runs[1].accepts == [A];
    assert s.runs == [SLOW, FAST.(phase := Accepting, next := 1, accepts := [A])];
    s := AcceptTurn(LATE, s, 1);
    assert s.runs[1].accepts == [A, B];
    assert s.runs == [SLOW, FAST.(phase := Accepting, next := 2)];
    s := AcceptEnd(LATE, s, 1);
    assert s.runs == [SLOW, FAST];
  }

  /** Node a commits "v"; then run 0 goes on, and its accept reaches a. */
  lemma LateAccept() returns (s: Sys)
    ensures Reached(LATE, s) && !Agreement(LATE, s)
  {
    hide Reached, Init, Before, IsMajority;
    Spelling();
    s := FastRun();
    s := DecideTurn(LATE, s, 1);
    assert Committed(LATE, s, A) && s.acceptors[A].values[1] == "v" && s.acceptors[A].nh == Prop(0, A);
    var fast := s.runs[1];
    s := AcceptTurn(LATE, s, 0);
    assert s.runs[0].accepts == [A];
    assert s.runs == [SLOW.(accepts := [A], next := 1), fast];
    AtLeastTotal(Prop(1, C), Prop(1, C));
    s := AcceptTurn(LATE, s, 0);
    assert s.runs[0].accepts == [A, C];
    assert s.runs == [SLOW.(accepts := [A, C], next := 2), fast];
    MajorityOf([A, C]);
    s := AcceptEnd(LATE, s, 0);
    assert s.runs[0].accepts == [A, C];
    assert s.runs == [SLOW.(phase := Deciding, accepts := [A, C], next := 0), fast];
    s := DecideTurn(LATE, s, 0);
    assert s.runs[0].accepts == [A, C];
    assert s.runs == [SLOW.(phase := Deciding, accepts := [A, C], next := 1), fast];
    s := DecideTurn(LATE, s, 0);
    assert Committed(LATE, s, C) && s.acceptors[C].values[1] == "w";
    assert Committed(LATE, s, A) && s.acceptors[A].values[1] == "v";
    assert "v"[0] != "w"[0];
  }

  /** Every run keeps agreement exactly if accepts never reach a node that has committed. */
  lemma AgreementNeedsTimelyAccepts(timely: bool)
    ensures timely <==> forall c: Config, s: Sys :: c.timely == timely && Reached(c, s) ==> Agreement(c, s)
  {
    hide Agreement, Init, Next;
    if timely {
      forall c: Config, s: Sys | c.timely == timely && Reached(c, s) ensures Agreement(c, s) {
        var states :| IsRun(c, states) && states[|states| - 1] == s;
        PaxosAgreement(c, states);
      }
    } else {
      var s := LateAccept();
      assert LATE.timely == timely && Reached(LATE, s);
    }
  }
}
