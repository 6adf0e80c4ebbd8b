/** One instance of Paxos, as a step system (mit_6.824/paxos.cc, proposer and acceptor).

    A run is one call of proposer::run. Its loops send one request after the other; each may be
    answered, refused or time out. Messages that were sent stay in the network: they can be
    delivered late, several times or never. An acceptor may crash at any point and restarts
    from its log. An accept request only raises `na`, not `nh`; that this is safe rests on runs
    sending accepts only to nodes that promised. */
module Paxos {
  import opened PaxosAcceptor

  datatype Phase = Preparing | Accepting | Deciding | Ended

  datatype Run = Run(
    proposer: Name,
    n: Prop,                  // my_n
    newv: string,
    phase: Phase,
    next: nat,                // position of the loop of the current phase
    promises: seq<Name>,      // accepts, as filled by prepare
    best: Prop,               // currn_a
    v: string,
    proposed: bool,           // the accept phase was entered
    accepts: seq<Name>)       // accepts, as filled by accept

  datatype Msg =
    | PrepareMsg(run: nat, dst: Name)
    | OldMsg(run: nat, src: Name, v: string)
    | PromiseMsg(run: nat, src: Name, na: Prop, va: string)
    | AcceptMsg(run: nat, dst: Name, v: string)
    | AcceptedMsg(run: nat, src: Name)
    | DecideMsg(run: nat, dst: Name, v: string)

  datatype Proposer = Proposer(myN: nat, stable: bool)

  /** `timely`: an accept request reaches a node only before that node commits the instance.
      Nothing in the program ensures it, since acceptreq does not look at the instance. */
  datatype Config = Config(nodes: seq<Name>, instance: nat, timely: bool)

  datatype Sys = Sys(acceptors: map<Name, Acceptor>, proposers: map<Name, Proposer>, runs: seq<Run>, net: set<Msg>)

  // ----- majorities

  /** How many entries of `nodes` occur in `some`. */
  function CountIn(nodes: seq<Name>, some: seq<Name>): nat {
    if nodes == [] then 0
    else (if nodes[|nodes| - 1] in some then 1 else 0) + CountIn(nodes[..|nodes| - 1], some)
  }

  predicate IsMajority(nodes: seq<Name>, some: seq<Name>) {
    CountIn(nodes, some) >= |nodes| / 2 + 1
  }

  method Majority(l1: seq<Name>, l2: seq<Name>) returns (r: bool)
    ensures r == IsMajority(l1, l2)
  {
    var n := 0;
    for i := 0 to |l1|
      invariant n == CountIn(l1[..i], l2)
    {
      assert l1[..i + 1][..i] == l1[..i];
      if l1[i] in l2 { n := n + 1; }
    }
    assert l1[..|l1|] == l1;
    r := n >= |l1| / 2 + 1;
  }

  lemma {:induction false} DisjointCounts(nodes: seq<Name>, a: seq<Name>, b: seq<Name>)
    requires forall q :: q in a ==> q !in b
    ensures CountIn(nodes, a) + CountIn(nodes, b) <= |nodes|
  {
    if nodes != [] { DisjointCounts(nodes[..|nodes| - 1], a, b); }
  }

  /** Two majorities of the same list have a node in common. */
  lemma MajoritiesMeet(nodes: seq<Name>, a: seq<Name>, b: seq<Name>) returns (q: Name)
    requires IsMajority(nodes, a) && IsMajority(nodes, b)
    ensures q in a && q in b
  {
    if forall p :: p in a ==> p !in b {
      DisjointCounts(nodes, a, b);
      assert false;
    }
    q :| q in a && q in b;
  }

  // ----- the loop bodies of the proposer

  /** prepare: a promise from `node` has arrived. */
  function TakePromise(run: Run, node: Name, na: Prop, va: string): Run {
    var more := run.(promises := run.promises + [node], next := run.next + 1);
    if Greater(na, run.best) then more.(v := va, best := na) else more
  }

  function NewRun(p: Name, n: Prop, newv: string): Run {
    Run(p, n, newv, Preparing, 0, [], Prop(0, Name("")), "", false, [])
  }

  /** run: what follows the prepare loop. */
  function AfterPrepare(nodes: seq<Name>, run: Run): Run {
    if IsMajority(nodes, run.promises)
    then run.(phase := Accepting, next := 0, proposed := true, v := if run.v == "" then run.newv else run.v)
    else run.(phase := Ended)
  }

  function AfterAccept(nodes: seq<Name>, run: Run): Run {
    if IsMajority(nodes, run.accepts) then run.(phase := Deciding, next := 0) else run.(phase := Ended)
  }

  // ----- steps

  datatype Step =
    | Start(p: Name, newv: string)
    | SendPrepare(r: nat)
    | GotPromise(r: nat, na: Prop, va: string)
    | GotOld(r: nat, v: string)
    | SkipPrepare(r: nat)
    | FinishPrepare(r: nat)
    | SendAccept(r: nat)
    | GotAccepted(r: nat)
    | SkipAccept(r: nat)
    | FinishAccept(r: nat)
    | SendDecide(r: nat)
    | FinishDecide(r: nat)
    | DeliverPrepare(r: nat, q: Name)
    | DeliverAccept(r: nat, q: Name, v: string)
    | DeliverDecide(r: nat, q: Name, v: string)
    | Crash(q: Name)

  ghost predicate InLoop(s: Sys, r: nat, phase: Phase, list: seq<Name>) {
    r < |s.runs| && s.runs[r].phase == phase && s.runs[r].next < |list|
  }

  ghost predicate LoopOver(s: Sys, r: nat, phase: Phase, list: seq<Name>) {
    r < |s.runs| && s.runs[r].phase == phase && s.runs[r].next >= |list|
  }

  ghost predicate Enabled(c: Config, s: Sys, step: Step) {
    match step
    case Start(p, newv) => p in s.acceptors && p in s.proposers && s.proposers[p].stable && newv != ""
    case SendPrepare(r) => InLoop(s, r, Preparing, c.nodes)
    case GotPromise(r, na, va) => InLoop(s, r, Preparing, c.nodes)
      && PromiseMsg(r, c.nodes[s.runs[r].next], na, va) in s.net
    case GotOld(r, v) => InLoop(s, r, Preparing, c.nodes) && OldMsg(r, c.nodes[s.runs[r].next], v) in s.net
    case SkipPrepare(r) => InLoop(s, r, Preparing, c.nodes)
    case FinishPrepare(r) => LoopOver(s, r, Preparing, c.nodes)
    case SendAccept(r) => r < |s.runs| && InLoop(s, r, Accepting, s.runs[r].promises)
    case GotAccepted(r) =>
      r < |s.runs| && InLoop(s, r, Accepting, s.runs[r].promises)
        && AcceptedMsg(r, s.runs[r].promises[s.runs[r].next]) in s.net
    case SkipAccept(r) => r < |s.runs| && InLoop(s, r, Accepting, s.runs[r].promises)
    case FinishAccept(r) => r < |s.runs| && LoopOver(s, r, Accepting, s.runs[r].promises)
    case SendDecide(r) => r < |s.runs| && InLoop(s, r, Deciding, s.runs[r].accepts)
    case FinishDecide(r) => r < |s.runs| && LoopOver(s, r, Deciding, s.runs[r].accepts)
    case DeliverPrepare(r, q) => r < |s.runs| && q in s.acceptors && PrepareMsg(r, q) in s.net
    case DeliverAccept(r, q, v) =>
      r < |s.runs| && q in s.acceptors && AcceptMsg(r, q, v) in s.net && (c.timely ==> Open(c, s, q))
    case DeliverDecide(r, q, v) => r < |s.runs| && q in s.acceptors && DecideMsg(r, q, v) in s.net
    case Crash(q) => q in s.acceptors && q in s.proposers
  }

  ghost function SetRun(s: Sys, r: nat, run: Run): Sys
    requires r < |s.runs|
  {
    s.(runs := s.runs[r := run])
  }

  /** As SetRun, for a run that ends: its proposer becomes stable again. */
  ghost function EndRun(s: Sys, r: nat, run: Run): Sys
    requires r < |s.runs|
  {
    var p := s.runs[r].proposer;
    var s' := s.(runs := s.runs[r := run]);
    if p in s.proposers then s'.(proposers := s.proposers[p := s.proposers[p].(stable := true)]) else s'
  }

  ghost function Max(a: nat, b: nat): nat {
    if a > b then a else b
  }

  ghost function Killed(runs: seq<Run>, q: Name): seq<Run> {
    seq(|runs|, k requires 0 <= k < |runs| => if runs[k].proposer == q then runs[k].(phase := Ended) else runs[k])
  }

  ghost function Apply(c: Config, s: Sys, step: Step): Sys
    requires Enabled(c, s, step)
  {
    match step
    case Start(p, newv) =>
      var n := Max(s.acceptors[p].nh.n + 1, s.proposers[p].myN + 1);
      s.(runs := s.runs + [NewRun(p, Prop(n, p), newv)], proposers := s.proposers[p := Proposer(n, false)])
    case SendPrepare(r) => s.(net := s.net + {PrepareMsg(r, c.nodes[s.runs[r].next])})
    case GotPromise(r, na, va) => SetRun(s, r, TakePromise(s.runs[r], c.nodes[s.runs[r].next], na, va))
    case GotOld(r, v) =>
      var p := s.runs[r].proposer;
      var s' := EndRun(s, r, s.runs[r].(phase := Ended));
      if p in s.acceptors then s'.(acceptors := s.acceptors[p := Commit(s.acceptors[p], p, c.instance, v)]) else s'
    case SkipPrepare(r) => SetRun(s, r, s.runs[r].(next := s.runs[r].next + 1))
    case FinishPrepare(r) =>
      var run := AfterPrepare(c.nodes, s.runs[r]);
      if run.phase == Ended then EndRun(s, r, run) else SetRun(s, r, run)
    case SendAccept(r) => s.(net := s.net + {AcceptMsg(r, s.runs[r].promises[s.runs[r].next], s.runs[r].v)})
    case GotAccepted(r) =>
      var run := s.runs[r];
      SetRun(s, r, run.(accepts := run.accepts + [run.promises[run.next]], next := run.next + 1))
    case SkipAccept(r) => SetRun(s, r, s.runs[r].(next := s.runs[r].next + 1))
    case FinishAccept(r) =>
      var run := AfterAccept(c.nodes, s.runs[r]);
      if run.phase == Ended then EndRun(s, r, run) else SetRun(s, r, run)
    case SendDecide(r) =>
      var run := s.runs[r];
      s.(runs := s.runs[r := run.(next := run.next + 1)], net := s.net + {DecideMsg(r, run.accepts[run.next], run.v)})
    case FinishDecide(r) => EndRun(s, r, s.runs[r].(phase := Ended))
    case DeliverPrepare(r, q) =>
      var (acc, reply) := OnPrepare(s.acceptors[q], c.instance, s.runs[r].n);
      var s' := s.(acceptors := s.acceptors[q := acc]);
      match reply {
        case OldInstance(v) => s'.(net := s.net + {OldMsg(r, q, v)})
        case Promise(na, va) => s'.(net := s.net + {PromiseMsg(r, q, na, va)})
        case Refuse => s'
      }
    case DeliverAccept(r, q, v) =>
      var (acc, ok) := OnAccept(s.acceptors[q], s.runs[r].n, v);
      var s' := s.(acceptors := s.acceptors[q := acc]);
      if ok then s'.(net := s.net + {AcceptedMsg(r, q)}) else s'
    case DeliverDecide(r, q, v) =>
      match OnDecide(s.acceptors[q], q, c.instance, v) {
        case Handled(acc) => s.(acceptors := s.acceptors[q := acc])
        case CheckFailed => s
      }
    case Crash(q) =>
      s.(acceptors := s.acceptors[q := Replay(q, s.acceptors[q].log)], proposers := s.proposers[q := Proposer(0, true)],
         runs := Killed(s.runs, q))
  }

  /** Every acceptor has decided exactly the instances before this one. */
  ghost predicate Init(c: Config, s: Sys) {
    && c.instance > 0 && s.runs == [] && s.net == {}
    && forall q :: q in s.acceptors ==>
         && Recoverable(q, s.acceptors[q]) && s.acceptors[q].instanceH == c.instance - 1
         && s.acceptors[q].nh.n == 0 && s.acceptors[q].na.n == 0 && s.acceptors[q].va == ""
         && c.instance !in s.acceptors[q].values
  }

  // ----- the invariant

  ghost predicate Open(c: Config, s: Sys, q: Name) {
    q in s.acceptors && s.acceptors[q].instanceH < c.instance
  }

  /** Node `q` has accepted in run `k`. */
  ghost predicate Voted(s: Sys, k: nat, q: Name) {
    k < |s.runs| && AcceptedMsg(k, q) in s.net
  }

  /** Some run with number `n` and value `v` got the vote of `q`. */
  ghost predicate VoteOf(s: Sys, q: Name, n: Prop, v: string) {
    exists k: nat :: Voted(s, k, q) && s.runs[k].n == n && s.runs[k].proposed && s.runs[k].v == v
  }

  ghost predicate NoVotes(s: Sys, q: Name) {
    forall k: nat :: !Voted(s, k, q)
  }

  /** `n` is at least as high as every number that `q` has voted for. */
  ghost predicate TopsVotes(s: Sys, q: Name, n: Prop) {
    forall k: nat :: Voted(s, k, q) ==> AtLeast(n, s.runs[k].n)
  }

  ghost predicate MsgsKnown(s: Sys) {
    forall m :: m in s.net ==> m.run < |s.runs|
  }

  /** A promise for number `n` that reported (na, va): votes below `n` are at most `na`. */
  ghost predicate PromiseOk(c: Config, s: Sys, q: Name, n: Prop, na: Prop, va: string) {
    && q in s.acceptors
    && (Open(c, s, q) ==> AtLeast(s.acceptors[q].nh, n))
    && (if na.n == 0 then va == "" else va != "" && !AtLeast(na, n) && VoteOf(s, q, na, va))
    && (forall k: nat :: Voted(s, k, q) && !AtLeast(s.runs[k].n, n) ==> na.n > 0 && AtLeast(na, s.runs[k].n))
  }

  ghost predicate PromisesOk(c: Config, s: Sys) {
    forall r: nat, q, na, va :: PromiseMsg(r, q, na, va) in s.net && r < |s.runs| ==>
      PromiseOk(c, s, q, s.runs[r].n, na, va)
  }

  /** A node promises a number only once. */
  ghost predicate PromiseOnce(s: Sys) {
    forall r: nat, r': nat, q, na, na', va, va' ::
      && PromiseMsg(r, q, na, va) in s.net && PromiseMsg(r', q, na', va') in s.net
      && r < |s.runs| && r' < |s.runs| && s.runs[r].n == s.runs[r'].n ==>
        r == r' && na == na' && va == va'
  }

  ghost predicate Promised(s: Sys, r: nat, q: Name) {
    exists na, va :: PromiseMsg(r, q, na, va) in s.net
  }

  /** The value kept by the prepare loop is that of the highest reported vote. */
  ghost predicate BestOk(s: Sys, r: nat)
    requires r < |s.runs|
  {
    var run := s.runs[r];
    if run.best.n == 0 then
      && (!run.proposed ==> run.v == "")
      && (forall q, na, va :: q in run.promises && PromiseMsg(r, q, na, va) in s.net ==> na.n == 0)
    else
      && run.v != "" && (exists q :: q in run.promises && PromiseMsg(r, q, run.best, run.v) in s.net)
      && (forall q, na, va :: q in run.promises && PromiseMsg(r, q, na, va) in s.net ==>
        na.n == 0 || AtLeast(run.best, na))
  }

  ghost predicate RunOk(c: Config, s: Sys, r: nat)
    requires r < |s.runs|
  {
    var run := s.runs[r];
    && run.n.n >= 1 && run.newv != ""
    && (run.phase == Preparing ==> !run.proposed) && (run.phase == Accepting || run.phase == Deciding ==> run.proposed)
    && (forall q :: q in run.promises ==> Promised(s, r, q))
    && BestOk(s, r)
    && (run.proposed ==> IsMajority(c.nodes, run.promises) && run.v != "")
    && (forall q :: q in run.accepts ==> Voted(s, r, q))
    && (run.phase == Deciding ==> IsMajority(c.nodes, run.accepts))
  }

  ghost predicate RunsOk(c: Config, s: Sys) {
    forall r: nat :: r < |s.runs| ==> RunOk(c, s, r)
  }

  ghost predicate AcceptsOk(s: Sys) {
    forall r: nat, q, v :: AcceptMsg(r, q, v) in s.net && r < |s.runs| ==>
      s.runs[r].proposed && v == s.runs[r].v && q in s.runs[r].promises
  }

  ghost predicate VotesOk(s: Sys) {
    forall k: nat, q :: Voted(s, k, q) ==> s.runs[k].proposed && q in s.runs[k].promises
  }

  /** A majority has voted in run `r`. */
  ghost predicate Chosen(c: Config, s: Sys, r: nat) {
    && r < |s.runs| && s.runs[r].proposed
    && exists some :: IsMajority(c.nodes, some) && forall q :: q in some ==> Voted(s, r, q)
  }

  ghost predicate ChosenValue(c: Config, s: Sys, v: string) {
    exists r: nat :: Chosen(c, s, r) && s.runs[r].v == v
  }

  ghost predicate AcceptorOk(c: Config, s: Sys, q: Name)
    requires q in s.acceptors
  {
    var acc := s.acceptors[q];
    && Recoverable(q, acc) && acc.instanceH <= c.instance
    && (Open(c, s, q) ==> acc.instanceH == c.instance - 1)
    && (Open(c, s, q) ==>
          if acc.na.n == 0 then acc.va == "" && NoVotes(s, q)
          else acc.va != "" && VoteOf(s, q, acc.na, acc.va) && TopsVotes(s, q, acc.na))
    && (!Open(c, s, q) ==> acc.nh.n == 0 && acc.na.n == 0)
    && (c.instance in acc.values <==> !Open(c, s, q))
    && (c.instance in acc.values ==> ChosenValue(c, s, acc.values[c.instance]))
  }

  ghost predicate AcceptorsOk(c: Config, s: Sys) {
    forall q :: q in s.acceptors ==> AcceptorOk(c, s, q)
  }

  ghost predicate DecidesOk(c: Config, s: Sys) {
    && (forall r: nat, q, v :: DecideMsg(r, q, v) in s.net ==> Chosen(c, s, r) && v == s.runs[r].v && Voted(s, r, q))
    && (forall r: nat, q, v :: OldMsg(r, q, v) in s.net ==> ChosenValue(c, s, v))
  }

  ghost predicate Inv(c: Config, s: Sys) {
    && MsgsKnown(s) && RunsOk(c, s) && PromisesOk(c, s) && PromiseOnce(s) && AcceptsOk(s) && VotesOk(s)
    && AcceptorsOk(c, s) && DecidesOk(c, s)
  }

  // ----- agreement, from the invariant

  /** At most one run with a given number gets to its accept phase. */
  lemma NumbersProposeOnce(c: Config, s: Sys, r: nat, k: nat)
    requires RunsOk(c, s) && PromiseOnce(s) && r < |s.runs| && k < |s.runs|
    requires s.runs[r].proposed && s.runs[k].proposed && s.runs[r].n == s.runs[k].n
    ensures r == k
  {
    hide BestOk, IsMajority;
    assert RunOk(c, s, r) && RunOk(c, s, k);
    var q := MajoritiesMeet(c.nodes, s.runs[r].promises, s.runs[k].promises);
    assert Promised(s, r, q) && Promised(s, k, q);
  }

  /** A run proposed above a chosen one takes its value from a vote at or above the chosen one. */
  lemma ValueComesFromVote(c: Config, s: Sys, r: nat, k: nat) returns (j: nat)
    requires Inv(c, s) && Chosen(c, s, r) && k < |s.runs| && s.runs[k].proposed && !AtLeast(s.runs[r].n, s.runs[k].n)
    ensures j < |s.runs| && s.runs[j].proposed && s.runs[j].v == s.runs[k].v
    ensures AtLeast(s.runs[j].n, s.runs[r].n) && !AtLeast(s.runs[j].n, s.runs[k].n)
  {
    hide AtLeast, IsMajority, AcceptorsOk, DecidesOk, AcceptsOk;
    assert RunOk(c, s, k);
    var some :| IsMajority(c.nodes, some) && forall q :: q in some ==> Voted(s, r, q);
    var q := MajoritiesMeet(c.nodes, some, s.runs[k].promises);
    assert Promised(s, k, q);
    var na, va :| PromiseMsg(k, q, na, va) in s.net;
    assert PromiseOk(c, s, q, s.runs[k].n, na, va);
    assert na.n > 0 && AtLeast(na, s.runs[r].n);
    var best := s.runs[k].best;
    var q' :| q' in s.runs[k].promises && PromiseMsg(k, q', best, s.runs[k].v) in s.net;
    assert PromiseOk(c, s, q', s.runs[k].n, best, s.runs[k].v);
    AtLeastTransitive(best, na, s.runs[r].n);
    j :| Voted(s, j, q') && s.runs[j].n == best && s.runs[j].proposed && s.runs[j].v == s.runs[k].v;
  }

  /** The runs with numbers between two given ones. */
  ghost function Between(s: Sys, low: Prop, high: Prop): set<nat> {
    set k: nat | k < |s.runs| && AtLeast(s.runs[k].n, low) && !AtLeast(s.runs[k].n, high)
  }

  /** Once a value is chosen, every run that proposes with a higher number proposes that value. */
  lemma {:induction false} HigherRunsAgree(c: Config, s: Sys, r: nat, k: nat)
    requires Inv(c, s) && Chosen(c, s, r) && k < |s.runs| && s.runs[k].proposed && AtLeast(s.runs[k].n, s.runs[r].n)
    ensures s.runs[k].v == s.runs[r].v
    decreases |Between(s, s.runs[r].n, s.runs[k].n)|
  {
    hide Inv, AtLeast, IsMajority;
    AtLeastTotal(s.runs[k].n, s.runs[r].n);
    if s.runs[k].n == s.runs[r].n {
      SameNumberSameRun(c, s, r, k);
    } else {
      var j := ValueComesFromVote(c, s, r, k);
      BetweenShrinks(s, s.runs[r].n, j, s.runs[k].n);
      HigherRunsAgree(c, s, r, j);
    }
  }

  lemma SameNumberSameRun(c: Config, s: Sys, r: nat, k: nat)
    requires Inv(c, s) && Chosen(c, s, r) && k < |s.runs| && s.runs[k].proposed && s.runs[r].n == s.runs[k].n
    ensures k == r
  {
    hide RunsOk, PromiseOnce;
    NumbersProposeOnce(c, s, r, k);
  }

  lemma BetweenShrinks(s: Sys, low: Prop, j: nat, high: Prop)
    requires j < |s.runs| && AtLeast(s.runs[j].n, low) && !AtLeast(s.runs[j].n, high)
    ensures |Between(s, low, s.runs[j].n)| < |Between(s, low, high)|
  {
    hide AtLeast;
    var a, b := Between(s, low, s.runs[j].n), Between(s, low, high);
    AtLeastTotal(s.runs[j].n, s.runs[j].n);
    forall k | k in a ensures k in b {
      AtLeastTotal(s.runs[j].n, s.runs[k].n);
      if AtLeast(s.runs[k].n, high) { AtLeastTransitive(s.runs[j].n, s.runs[k].n, high); }
    }
    assert j in b && j !in a;
    assert a < b;
    SubsetSize(a, b);
  }

  lemma {:induction false} SubsetSize(a: set<nat>, b: set<nat>)
    requires a < b
    ensures |a| < |b|
  {
    assert b == a + (b - a);
    assert b - a != {};
    assert |b| == |a| + |b - a|;
  }

  /** No two different values are chosen. */
  lemma ChosenAgree(c: Config, s: Sys, r: nat, k: nat)
    requires Inv(c, s) && Chosen(c, s, r) && Chosen(c, s, k)
    ensures s.runs[r].v == s.runs[k].v
  {
    hide Inv, AtLeast;
    AtLeastTotal(s.runs[r].n, s.runs[k].n);
    if AtLeast(s.runs[k].n, s.runs[r].n) {
      HigherRunsAgree(c, s, r, k);
    } else {
      HigherRunsAgree(c, s, k, r);
    }
  }

  ghost predicate Committed(c: Config, s: Sys, q: Name) {
    q in s.acceptors && c.instance in s.acceptors[q].values
  }

  /** No two nodes have committed different values. */
  ghost predicate Agreement(c: Config, s: Sys) {
    forall p, q :: Committed(c, s, p) && Committed(c, s, q) ==>
      s.acceptors[p].values[c.instance] == s.acceptors[q].values[c.instance]
  }

  lemma InvGivesAgreement(c: Config, s: Sys)
    requires Inv(c, s)
    ensures Agreement(c, s)
  {
    hide IsMajority, RunsOk, PromisesOk, PromiseOnce, AcceptsOk, VotesOk, DecidesOk, MsgsKnown, Recoverable;
    forall p, q | Committed(c, s, p) && Committed(c, s, q)
      ensures s.acceptors[p].values[c.instance] == s.acceptors[q].values[c.instance]
    {
      assert AcceptorOk(c, s, p) && AcceptorOk(c, s, q);
      var r: nat :| Chosen(c, s, r) && s.runs[r].v == s.acceptors[p].values[c.instance];
      var k: nat :| Chosen(c, s, k) && s.runs[k].v == s.acceptors[q].values[c.instance];
      ChosenAgree(c, s, r, k);
    }
  }
}
