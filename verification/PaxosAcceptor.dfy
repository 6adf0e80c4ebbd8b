/** The acceptor of the Paxos implementation and its durable log (mit_6.824/paxos.cc, lines
    18-28 and 240-358; mit_6.824/log.cc). The log is a list of records here; how records are
    printed and parsed is the subject of module PaxosLogText. */
module PaxosAcceptor {

  /** The name of a node. */
  datatype Name = Name(text: string)

  // ----- proposal numbers

  datatype Prop = Prop(n: nat, m: Name)

  /** std::string comparison. */
  predicate Before(a: string, b: string) {
    |b| > 0 && (|a| == 0 || a[0] < b[0] || (a[0] == b[0] && Before(a[1..], b[1..])))
  }

  predicate Greater(a: Prop, b: Prop) {
    a.n > b.n || (a.n == b.n && Before(b.m.text, a.m.text))
  }

  predicate AtLeast(a: Prop, b: Prop) {
    a.n > b.n || (a.n == b.n && !Before(a.m.text, b.m.text))
  }

  lemma {:induction false} BeforeTotal(a: string, b: string)
    ensures Before(a, b) || a == b || Before(b, a)
    ensures !(Before(a, b) && Before(b, a)) && !Before(a, a)
  {
    if |a| > 0 && |b| > 0 {
      assert a == [a[0]] + a[1..] && b == [b[0]] + b[1..];
      BeforeTotal(a[1..], b[1..]);
    }
    if |a| > 0 { BeforeTotal(a[1..], a[1..]); }
  }

  lemma {:induction false} BeforeTransitive(a: string, b: string, c: string)
    requires Before(a, b) && Before(b, c)
    ensures Before(a, c)
  {
    if |a| > 0 && a[0] == b[0] && b[0] == c[0] { BeforeTransitive(a[1..], b[1..], c[1..]); }
  }

  lemma GreaterIsNotAtLeast(a: Prop, b: Prop)
    ensures Greater(a, b) <==> !AtLeast(b, a)
  {}

  lemma AtLeastTotal(a: Prop, b: Prop)
    ensures AtLeast(a, b) || AtLeast(b, a)
    ensures AtLeast(a, b) && AtLeast(b, a) ==> a == b
    ensures AtLeast(a, a)
  {
    BeforeTotal(a.m.text, b.m.text);
    BeforeTotal(a.m.text, a.m.text);
  }

  lemma AtLeastTransitive(a: Prop, b: Prop, c: Prop)
    requires AtLeast(a, b) && AtLeast(b, c)
    ensures AtLeast(a, c)
  {
    hide Before;
    BeforeTotal(a.m.text, b.m.text);
    BeforeTotal(b.m.text, c.m.text);
    BeforeTotal(a.m.text, c.m.text);
    if a.n == b.n == c.n && Before(a.m.text, c.m.text) {
      if Before(b.m.text, a.m.text) { BeforeTransitive(b.m.text, a.m.text, c.m.text); }
    }
  }

  // ----- durable log

  datatype Record =
    | Done(instance: nat, value: string)
    | PropSeen(n: Prop)
    | Accepted(n: Prop, value: string)

  // ----- the state of an acceptor and its handlers

  datatype Acceptor = Acceptor(
    nh: Prop,                      // highest proposal seen in a prepare
    na: Prop,                      // highest proposal accepted
    va: string,                    // its value
    instanceH: nat,                // highest instance decided
    values: map<nat, string>,      // the value of each decided instance
    log: seq<Record>)

  function NewAcceptor(me: Name): Acceptor {
    Acceptor(Prop(0, me), Prop(0, me), "", 0, map[], [])
  }

  datatype PrepareReply =
    | OldInstance(v: string)
    | Promise(na: Prop, va: string)
    | Refuse

  /** The value of a decided instance; std::map yields "" for one it does not hold. */
  function ValueOf(acc: Acceptor, instance: nat): string {
    if instance in acc.values then acc.values[instance] else ""
  }

  function OnPrepare(acc: Acceptor, instance: nat, n: Prop): (Acceptor, PrepareReply) {
    if instance <= acc.instanceH then (acc, OldInstance(ValueOf(acc, instance)))
    else if Greater(n, acc.nh) then (acc.(nh := n, log := acc.log + [PropSeen(n)]), Promise(acc.na, acc.va))
    else (acc, Refuse)
  }

  /** The instance of the request is not looked at. */
  function OnAccept(acc: Acceptor, n: Prop, v: string): (Acceptor, bool) {
    if AtLeast(n, acc.nh) then (acc.(na := n, va := v, log := acc.log + [Accepted(n, v)]), true)
    else (acc, false)
  }

  function Commit(acc: Acceptor, me: Name, instance: nat, value: string): Acceptor {
    if instance > acc.instanceH then
      Acceptor(Prop(0, me), Prop(0, me), "", instance, acc.values[instance := value], acc.log + [Done(instance, value)])
    else acc
  }

  datatype DecideOutcome = Handled(acc: Acceptor) | CheckFailed

  function OnDecide(acc: Acceptor, me: Name, instance: nat, v: string): DecideOutcome {
    if instance == acc.instanceH + 1 then
      if acc.va == v then Handled(Commit(acc, me, instance, acc.va)) else CheckFailed
    else if instance <= acc.instanceH then Handled(acc)
    else CheckFailed
  }

  // ----- recovery

  /** The effect of one record while the log is read; `m` fields are left alone by Done. */
  function Redo(acc: Acceptor, r: Record): Acceptor {
    match r
    case Done(instance, v) =>
      acc.(values := acc.values[instance := v], instanceH := instance, va := "",
           nh := acc.nh.(n := 0), na := acc.na.(n := 0), log := acc.log + [r])
    case PropSeen(n) => acc.(nh := n, log := acc.log + [r])
    case Accepted(n, v) => acc.(na := n, va := v, log := acc.log + [r])
  }

  function Replay(me: Name, log: seq<Record>): (acc: Acceptor) {
    if log == [] then NewAcceptor(me) else Redo(Replay(me, log[..|log| - 1]), log[|log| - 1])
  }

  /** Equal, except that the node component of a proposal number with n = 0 may differ. */
  ghost predicate SameProp(a: Prop, b: Prop) {
    a.n == b.n && (a.n > 0 ==> a.m == b.m)
  }

  ghost predicate Same(a: Acceptor, b: Acceptor) {
    && SameProp(a.nh, b.nh) && SameProp(a.na, b.na)
    && a.va == b.va && a.instanceH == b.instanceH && a.values == b.values && a.log == b.log
  }

  /** What a crash and a restart leave is what the acceptor had. */
  ghost predicate Recoverable(me: Name, acc: Acceptor) {
    Same(Replay(me, acc.log), acc)
  }

  lemma ReplaySnoc(me: Name, log: seq<Record>, r: Record)
    ensures Replay(me, log + [r]) == Redo(Replay(me, log), r)
  {
    assert (log + [r])[..|log|] == log;
  }

  lemma NewRecoverable(me: Name)
    ensures Recoverable(me, NewAcceptor(me))
  {}

  /** Every handler logs what it changes: each one keeps the acceptor recoverable. */
  lemma PrepareRecoverable(me: Name, acc: Acceptor, instance: nat, n: Prop)
    requires Recoverable(me, acc)
    ensures Recoverable(me, OnPrepare(acc, instance, n).0)
  {
    hide Replay, Greater;
    ReplaySnoc(me, acc.log, PropSeen(n));
  }

  lemma AcceptRecoverable(me: Name, acc: Acceptor, n: Prop, v: string)
    requires Recoverable(me, acc)
    ensures Recoverable(me, OnAccept(acc, n, v).0)
  {
    hide Replay, AtLeast;
    ReplaySnoc(me, acc.log, Accepted(n, v));
  }

  lemma CommitRecoverable(me: Name, acc: Acceptor, instance: nat, v: string)
    requires Recoverable(me, acc)
    ensures Recoverable(me, Commit(acc, me, instance, v))
  {
    hide Replay;
    ReplaySnoc(me, acc.log, Done(instance, v));
  }

  lemma {:induction false} ReplayLog(me: Name, log: seq<Record>)
    ensures Replay(me, log).log == log
  {
    hide Replay;
    if log == [] {
      ReplayNil(me);
    } else {
      var front, last := log[..|log| - 1], log[|log| - 1];
      assert log == front + [last];
      ReplaySnoc(me, front, last);
      ReplayLog(me, front);
    }
  }

  lemma ReplayNil(me: Name)
    ensures Replay(me, []) == NewAcceptor(me)
  {}

  /** Recovering is idempotent: a recovered acceptor is recoverable. */
  lemma RestartRecoverable(me: Name, acc: Acceptor)
    ensures Recoverable(me, Replay(me, acc.log))
  {
    hide Replay;
    ReplayLog(me, acc.log);
  }

  // ----- the program

  class AcceptorServer {
    const me: Name
    var nh: Prop
    var na: Prop
    var va: string
    var instanceH: nat
    var values: map<nat, string>
    var log: seq<Record>

    ghost function State(): Acceptor
      reads this
    {
      Acceptor(nh, na, va, instanceH, values, log)
    }

    /** Starts from the log on disk; the first node of a new system decides instance 1. */
    constructor (me: Name, disk: seq<Record>, first: bool, value: string)
      ensures this.me == me
      ensures State() == if Replay(me, disk).instanceH == 0 && first
                         then Replay(me, disk).(values := Replay(me, disk).values[1 := value], instanceH := 1,
                           log := disk + [Done(1, value)])
                         else Replay(me, disk)
    {
      this.me := me;
      nh, na, va := Prop(0, me), Prop(0, me), "";
      instanceH, values, log := 0, map[], [];
      new;
      LogRead(disk);
      ReplayLog(me, disk);
      if instanceH == 0 && first {
        values := values[1 := value];
        log := log + [Done(1, value)];
        instanceH := 1;
      }
    }

    /** Replays the records in order. */
    method LogRead(disk: seq<Record>)
      requires State() == NewAcceptor(me)
      modifies this
      ensures State() == Replay(me, disk)
    {
      for k := 0 to |disk|
        invariant State() == Replay(me, disk[..k])
      {
        assert disk[..k + 1] == disk[..k] + [disk[k]];
        ReplaySnoc(me, disk[..k], disk[k]);
        RedoRecord(disk[k]);
      }
      assert disk[..|disk|] == disk;
    }

    method RedoRecord(r: Record)
      modifies this
      ensures State() == Redo(old(State()), r)
    {
      match r {
        case Done(instance, v) =>
          values := values[instance := v];
          instanceH := instance;
          va := "";
          nh := nh.(n := 0);
          na := na.(n := 0);
        case PropSeen(n) =>
          nh := n;
        case Accepted(n, v) =>
          na := n;
          va := v;
      }
      log := log + [r];
    }

    method PrepareReq(instance: nat, n: Prop) returns (r: PrepareReply)
      modifies this
      ensures (State(), r) == OnPrepare(old(State()), instance, n)
      ensures old(Recoverable(me, State())) ==> Recoverable(me, State())
    {
      ghost var before := State();
      if instance <= instanceH {
        r := OldInstance(if instance in values then values[instance] else "");
      } else if Greater(n, nh) {
        nh := n;
        r := Promise(na, va);
        log := log + [PropSeen(nh)];
      } else {
        r := Refuse;
      }
      if Recoverable(me, before) { PrepareRecoverable(me, before, instance, n); }
    }

    method AcceptReq(instance: nat, n: Prop, v: string) returns (r: bool)
      modifies this
      ensures (State(), r) == OnAccept(old(State()), n, v)
      ensures old(Recoverable(me, State())) ==> Recoverable(me, State())
    {
      ghost var before := State();
      if AtLeast(n, nh) {
        na := n;
        va := v;
        r := true;
        log := log + [Accepted(na, va)];
      } else {
        r := false;
      }
      if Recoverable(me, before) { AcceptRecoverable(me, before, n, v); }
    }

    method CommitWo(instance: nat, value: string)
      modifies this
      ensures State() == Commit(old(State()), me, instance, value)
      ensures old(Recoverable(me, State())) ==> Recoverable(me, State())
    {
      ghost var before := State();
      if instance > instanceH {
        values := values[instance := value];
        log := log + [Done(instance, value)];
        instanceH := instance;
        nh := Prop(0, me);
        na := Prop(0, me);
        va := "";
      }
      if Recoverable(me, before) { CommitRecoverable(me, before, instance, value); }
    }

    /** `ok` is false where the program's VERIFY would stop the process. */
    method DecideReq(instance: nat, v: string) returns (ok: bool)
      modifies this
      ensures ok ==> OnDecide(old(State()), me, instance, v) == Handled(State())
      ensures !ok ==> OnDecide(old(State()), me, instance, v) == CheckFailed && State() == old(State())
    {
      if instance == instanceH + 1 {
        if va != v { return false; }
        CommitWo(instance, va);
        ok := true;
      } else if instance <= instanceH {
        ok := true;
      } else {
        ok := false;
      }
    }
  }
}
