/** The lock protocol when requests may also be executed after their calls have returned, as requests
    that the replicated server kept would be. The server's release looks at the client only, not at
    the transaction (mit_6.824/lock_server_cache_rsm.cc, lines 112-211). */
module LockLate {
  import opened LockTransfer
  import opened LockServer
  import opened LockProtocol

  datatype Request = Request(k: Key, xid: nat)

  /** The system, and the acquire and release requests that were ever sent. */
  datatype Late = Late(sys: Sys, asked: set<Request>, sent: set<Key>)

  ghost function After(x: Late, step: Step): Late
    requires Enabled(x.sys, step)
  {
    Late(Apply(x.sys, step), if step.SendAcquire? then x.asked + {Request(step.k, x.sys.xids[step.k.c])} else x.asked,
      if step.SendRelease? then x.sent + {step.k} else x.sent)
  }

  /** An acquire is executed, and nobody waits for its reply. */
  ghost function AfterAcquire(x: Late, q: Request): Late {
    x.(sys := x.sys.(table := OnAcquire(x.sys.table, q.k.l, q.k.c, q.xid).table))
  }

  ghost function AfterRelease(x: Late, k: Key): Late {
    x.(sys := x.sys.(table := OnRelease(x.sys.table, k.l, k.c)))
  }

  /** The client does not have the lock, and the server has not granted it to the call that the
      client waits for or is about to make. */
  ghost predicate Harmless(s: Sys, k: Key) {
    !Holds(At(s, k)) && !(At(s, k).stat == ACQUIRING && Granted(s, k))
  }

  /** Acquires may be executed at any later time; releases may too, if `late` or if harmless. */
  ghost predicate LateNext(late: bool, x: Late, y: Late) {
    || (exists step :: Enabled(x.sys, step) && y == After(x, step))
    || (exists q :: q in x.asked && y == AfterAcquire(x, q))
    || (exists k :: k in x.sent && (late || Harmless(x.sys, k)) && y == AfterRelease(x, k))
  }

  ghost predicate Goes(late: bool, xs: seq<Late>) {
    |xs| > 0 && forall i :: 0 < i < |xs| ==> LateNext(late, xs[i - 1], xs[i])
  }

  ghost predicate LateRun(late: bool, xs: seq<Late>) {
    Goes(late, xs) && Init(xs[0].sys) && xs[0].asked == {} && xs[0].sent == {}
  }

  ghost function Last(xs: seq<Late>): Late
    requires |xs| > 0
  {
    xs[|xs| - 1]
  }

  ghost predicate BothHold(x: Late, c: Name, d: Name, l: Lock) {
    c != d && Holds(At(x.sys, Key(c, l))) && Holds(At(x.sys, Key(d, l)))
  }

  // ----- late acquires, and late releases that are harmless

  /** Requests of a client carry ids up to that of its call in flight, or up to its counter. */
  ghost predicate AskedOk(x: Late, q: Request) {
    && q.k.c in x.sys.xids && q.xid <= x.sys.xids[q.k.c]
    && (At(x.sys, q.k).pending.AcquireSent? ==> q.xid <= At(x.sys, q.k).pending.xid)
  }

  ghost predicate LateInv(x: Late) {
    Inv(x.sys) && forall q :: q in x.asked ==> AskedOk(x, q)
  }

  lemma StepKeepsAsked(x: Late, step: Step)
    requires LateInv(x) && Enabled(x.sys, step)
    ensures LateInv(After(x, step))
  {
    hide Inv, OnAcquire, OnRelease;
    StepKeeps(x.sys, step);
    var y := After(x, step);
    forall q | q in y.asked ensures AskedOk(y, q) {
      if q in x.asked { assert AskedOk(x, q); }
    }
  }

  lemma LateAcquireKey(x: Late, q: Request, j: Key)
    requires LateInv(x) && q in x.asked
    ensures KeyOk(AfterAcquire(x, q).sys, j)
  {
    hide OnAcquire;
    var t, k := x.sys.table, q.k;
    assert KeyOk(x.sys, j) && AskedOk(x, q);
    AcquireTable(t, k, q.xid);
    match OnAcquire(t, k.l, k.c, q.xid).reply
    case OK => GrantMeans(t, k.l, k.c, q.xid);
    case RETRY => RefusalMeans(t, k.l, k.c, q.xid);
  }

  lemma LateAcquireKeeps(x: Late, q: Request)
    requires LateInv(x) && q in x.asked
    ensures LateInv(AfterAcquire(x, q))
  {
    hide OnAcquire, KeyOk;
    var y, t, k := AfterAcquire(x, q), x.sys.table, q.k;
    forall j: Key ensures KeyOk(y.sys, j) { LateAcquireKey(x, q, j); }
    assert AskedOk(x, q);
    match OnAcquire(t, k.l, k.c, q.xid).reply {
      case OK => GrantMeans(t, k.l, k.c, q.xid);
      case RETRY => RefusalMeans(t, k.l, k.c, q.xid);
    }
    forall p | p in y.asked ensures AskedOk(y, p) { assert AskedOk(x, p); }
  }

  lemma LateReleaseKeeps(x: Late, k: Key)
    requires LateInv(x) && Harmless(x.sys, k)
    ensures LateInv(AfterRelease(x, k))
  {
    var y := AfterRelease(x, k);
    forall j: Key ensures KeyOk(y.sys, j) { assert KeyOk(x.sys, j); }
    forall p | p in y.asked ensures AskedOk(y, p) { assert AskedOk(x, p); }
  }

  lemma {:induction false} GoesKeeps(xs: seq<Late>)
    requires Goes(false, xs) && LateInv(xs[0])
    ensures LateInv(Last(xs))
  {
    hide LateInv, Enabled, After, AfterAcquire, AfterRelease, Harmless;
    var last := |xs| - 1;
    if last > 0 {
      GoesKeeps(xs[..last]);
      var x, y := xs[last - 1], xs[last];
      assert LateNext(false, x, y);
      if step :| Enabled(x.sys, step) && y == After(x, step) {
        StepKeepsAsked(x, step);
      } else if q :| q in x.asked && y == AfterAcquire(x, q) {
        LateAcquireKeeps(x, q);
      } else {
        var k :| k in x.sent && Harmless(x.sys, k) && y == AfterRelease(x, k);
        LateReleaseKeeps(x, k);
      }
    }
  }

  lemma RunKeeps(xs: seq<Late>)
    requires LateRun(false, xs)
    ensures LateInv(Last(xs))
  {
    InitInv(xs[0].sys);
    GoesKeeps(xs);
  }

  lemma InvExcludes(x: Late, c: Name, d: Name, l: Lock)
    requires LateInv(x)
    ensures !BothHold(x, c, d, l)
  {
    hide Holds, SessionOk;
    assert KeyOk(x.sys, Key(c, l)) && KeyOk(x.sys, Key(d, l));
  }

  // ----- late releases that are not harmless

  /** Only the record of `k` has changed. */
  ghost predicate Same(x: Late, y: Late, k: Key) {
    forall j: Key :: j != k ==> At(y.sys, j) == At(x.sys, j)
  }

  /** Lock `l` is recorded for `c` and up for grabs. */
  ghost predicate Open(x: Late, c: Name, l: Lock) {
    l in x.sys.table && x.sys.table[l].cid == c && x.sys.table[l].available
  }

  lemma Extend(late: bool, xs: seq<Late>, step: Step) returns (ys: seq<Late>)
    requires Goes(late, xs) && Enabled(Last(xs).sys, step)
    ensures |ys| > 0 && Goes(late, ys) && ys[0] == xs[0] && Last(ys) == After(Last(xs), step)
  {
    hide Enabled, Apply, Init;
    ys := xs + [After(Last(xs), step)];
    assert LateNext(late, Last(xs), After(Last(xs), step));
  }

  /** A call that the server takes for one it has granted is answered OK, although the lock is open. */
  lemma GetsOk(late: bool, xs: seq<Late>, k: Key) returns (ys: seq<Late>)
    requires |xs| > 0 && Goes(late, xs) && LocalOk(At(Last(xs).sys, k)) && At(Last(xs).sys, k).stat == ACQUIRING
    requires Granted(Last(xs).sys, k) && Open(Last(xs), k.c, k.l)
    ensures |ys| > 0 && Goes(late, ys) && ys[0] == xs[0] && Same(Last(xs), Last(ys), k)
    ensures Holds(At(Last(ys).sys, k)) && Open(Last(ys), k.c, k.l) && Last(ys).sys.xids == Last(xs).sys.xids
  {
    hide Goes;
    ys := xs;
    if !At(Last(xs).sys, k).pending.AcquireSent? { ys := Extend(late, ys, SendAcquire(k)); }
    ys := Extend(late, ys, ExecAcquire(k));
  }

  /** A client that does not have the lock comes to a call for it. */
  lemma Calls(late: bool, xs: seq<Late>, k: Key) returns (ys: seq<Late>)
    requires |xs| > 0 && Goes(late, xs) && LocalOk(At(Last(xs).sys, k)) && !Holds(At(Last(xs).sys, k))
    requires k.c in Last(xs).sys.xids
    ensures |ys| > 0 && Goes(late, ys) && ys[0] == xs[0] && Same(Last(xs), Last(ys), k)
    ensures Last(ys).sys.table == Last(xs).sys.table
    ensures At(Last(ys).sys, k).pending.AcquireSent?
  {
    hide Goes;
    ys := xs;
    if At(Last(ys).sys, k).stat == RELEASING { ys := Extend(late, ys, ReleaseReturns(k)); }
    if At(Last(ys).sys, k).stat == NONE { ys := Extend(late, ys, Begin(k)); }
    if !At(Last(ys).sys, k).pending.AcquireSent? { ys := Extend(late, ys, SendAcquire(k)); }
  }

  /** An open lock that is recorded for another client is granted at the first or second try. */
  lemma Gets(late: bool, xs: seq<Late>, k: Key, c: Name) returns (ys: seq<Late>)
    requires Goes(late, xs) && At(Last(xs).sys, k).pending.AcquireSent? && Open(Last(xs), c, k.l) && c != k.c
    ensures |ys| > 0 && Goes(late, ys) && ys[0] == xs[0] && Same(Last(xs), Last(ys), k) && Holds(At(Last(ys).sys, k))
  {
    hide Goes;
    ys := Extend(late, xs, ExecAcquire(k));
    if !Holds(At(Last(ys).sys, k)) { ys := Extend(late, ys, ExecAcquire(k)); }
  }

  /** A release that is executed late and is not harmless can end with two clients having the lock. */
  lemma HarmfulBreaks(late: bool, x: Late, k: Key, d: Name) returns (ys: seq<Late>)
    requires LateInv(x) && !Harmless(x.sys, k) && d != k.c && d in x.sys.xids
    ensures |ys| > 0 && Goes(late, ys) && ys[0] == AfterRelease(x, k) && BothHold(Last(ys), k.c, d, k.l)
  {
    hide Goes, Inv;
    var j := Key(d, k.l);
    assert KeyOk(x.sys, k) && KeyOk(x.sys, j) by { KeysOk(x, k, j); }
    ys := Single(late, AfterRelease(x, k));
    if !Holds(At(x.sys, k)) { ys := GetsOk(late, ys, k); }
    assert At(Last(ys).sys, j) == At(x.sys, j);
    if !Holds(At(x.sys, j)) {
      ys := Calls(late, ys, j);
      ys := Gets(late, ys, j, k.c);
    }
  }

  lemma KeysOk(x: Late, k: Key, j: Key)
    requires LateInv(x)
    ensures KeyOk(x.sys, k) && KeyOk(x.sys, j)
  {}

  lemma Single(late: bool, x: Late) returns (xs: seq<Late>)
    ensures xs == [x] && Goes(late, xs)
  {
    xs := [x];
  }

  // ----- when a late release is harmless

  ghost predicate Excludes(xs: seq<Late>)
    requires |xs| > 0
  {
    forall c, d, l :: !BothHold(Last(xs), c, d, l)
  }

  /** Wherever a run has got to, executing an old release once more can lead to two clients having
      the lock if and only if its client has the lock or has been granted it for its call. Acquires
      may be executed late as well, before and after. */
  lemma LateReleaseHarmlessWhen(xs: seq<Late>, k: Key, d: Name)
    requires |xs| > 0 && LateRun(false, xs) && d != k.c && d in Last(xs).sys.xids
    ensures Harmless(Last(xs).sys, k) <==>
            forall ys :: Goes(false, ys) && ys[0] == AfterRelease(Last(xs), k) ==> Excludes(ys)
  {
    hide LateRun, Harmless, LateInv, LateNext, AfterRelease, BothHold;
    var x := Last(xs);
    RunKeeps(xs);
    if Harmless(x.sys, k) {
      LateReleaseKeeps(x, k);
      forall ys | Goes(false, ys) && ys[0] == AfterRelease(x, k) ensures Excludes(ys) {
        GoesKeeps(ys);
        forall c, d, l ensures !BothHold(Last(ys), c, d, l) { InvExcludes(Last(ys), c, d, l); }
      }
    } else {
      var ys := HarmfulBreaks(false, x, k, d);
      assert !Excludes(ys);
    }
  }

  // ----- such a release in a run

  /** A client that has nothing asks for the lock, is granted it, and has it. */
  lemma Grab(late: bool, xs: seq<Late>, k: Key) returns (ys: seq<Late>)
    requires Goes(late, xs) && k.c in Last(xs).sys.xids && At(Last(xs).sys, k) == FRESH
    requires OnAcquire(Last(xs).sys.table, k.l, k.c, Last(xs).sys.xids[k.c] + 1).reply == OK
    ensures |ys| > 0 && Goes(late, ys) && ys[0] == xs[0] && Last(ys).sent == Last(xs).sent
    ensures At(Last(ys).sys, k) == FRESH.(stat := LOCKED)
    ensures Last(ys).sys.table == OnAcquire(Last(xs).sys.table, k.l, k.c, Last(xs).sys.xids[k.c] + 1).table
    ensures Last(ys).sys.xids == Last(xs).sys.xids[k.c := Last(xs).sys.xids[k.c] + 1]
  {
    hide OnAcquire, Goes;
    ys := Extend(late, xs, Begin(k));
    ys := Extend(late, ys, SendAcquire(k));
    ys := Extend(late, ys, ExecAcquire(k));
    ys := Extend(late, ys, AcquireReturns(k, OK));
  }

  /** It is told to give the lock back, and lets go of it. */
  lemma GiveUp(late: bool, xs: seq<Late>, k: Key) returns (ys: seq<Late>)
    requires Goes(late, xs) && At(Last(xs).sys, k) == FRESH.(stat := LOCKED) && IsHolder(Last(xs).sys.table, k)
    ensures |ys| > 0 && Goes(late, ys) && ys[0] == xs[0] && Last(ys).sent == Last(xs).sent
    ensures At(Last(ys).sys, k) == Local(RELEASING, true, false, FlushPending)
    ensures Last(ys).sys.table == Last(xs).sys.table && Last(ys).sys.xids == Last(xs).sys.xids
  {
    hide Goes;
    ys := Extend(late, xs, SendRevoke(k.l));
    ys := Extend(late, ys, DeliverRevoke(Revoke(k.c, k.l)));
    ys := Extend(late, ys, Step.Release(k));
  }

  /** It gives the lock back. */
  lemma GiveBack(late: bool, xs: seq<Late>, k: Key) returns (ys: seq<Late>)
    requires Goes(late, xs) && At(Last(xs).sys, k) == FRESH.(stat := LOCKED) && IsHolder(Last(xs).sys.table, k)
    ensures |ys| > 0 && Goes(late, ys) && ys[0] == xs[0] && Last(ys).sent == Last(xs).sent + {k}
    ensures At(Last(ys).sys, k) == FRESH
    ensures Last(ys).sys.table == OnRelease(Last(xs).sys.table, k.l, k.c) && Last(ys).sys.xids == Last(xs).sys.xids
  {
    hide OnRelease, Goes;
    ys := GiveUp(late, xs, k);
    ys := Extend(late, ys, Flush(k));
    ys := Extend(late, ys, SendRelease(k));
    ys := Extend(late, ys, ExecRelease(k));
    ys := Extend(late, ys, ReleaseReturns(k));
  }

  /** One client gets the lock, gives it back and gets it again: now its first release is not
      harmless any more. */
  lemma HarmfulRelease(c: Name, d: Name, l: Lock) returns (xs: seq<Late>)
    requires c != d
    ensures |xs| > 0 && LateRun(false, xs) && Key(c, l) in Last(xs).sent && d in Last(xs).sys.xids
    ensures !Harmless(Last(xs).sys, Key(c, l))
  {
    hide Goes;
    var k := Key(c, l);
    xs := Single(false, Late(Sys(map[c := 0, d := 0], map[], map[], {}), {}, {}));
    xs := Grab(false, xs, k);
    xs := GiveBack(false, xs, k);
    xs := Grab(false, xs, k);
  }

  lemma RunsOn(xs: seq<Late>, k: Key, ys: seq<Late>)
    requires |xs| > 0 && LateRun(false, xs) && k in Last(xs).sent
    requires |ys| > 0 && Goes(true, ys) && ys[0] == AfterRelease(Last(xs), k)
    ensures LateRun(true, xs + ys)
  {
    hide Enabled, After, AfterAcquire, AfterRelease, Harmless, Init;
    var zs := xs + ys;
    forall i | 0 < i < |zs| ensures LateNext(true, zs[i - 1], zs[i]) {
      if i < |xs| {
        assert LateNext(false, xs[i - 1], xs[i]);
      } else if i > |xs| {
        assert LateNext(true, ys[i - |xs| - 1], ys[i - |xs|]);
      }
    }
  }

  /** After which another client gets the lock too. */
  lemma LateReleaseBreaks(c: Name, d: Name, l: Lock) returns (zs: seq<Late>)
    requires c != d
    ensures |zs| > 0 && LateRun(true, zs) && BothHold(Last(zs), c, d, l)
  {
    hide LateRun, Harmless, Goes, AfterRelease;
    var xs := HarmfulRelease(c, d, l);
    RunKeeps(xs);
    var ys := HarmfulBreaks(true, Last(xs), Key(c, l), d);
    RunsOn(xs, Key(c, l), ys);
    zs := xs + ys;
  }

  /** Mutual exclusion holds in every run if and only if releases are executed late only where they
      are harmless, whether or not acquires are executed late. */
  lemma ExclusionNeedsPromptReleases(late: bool)
    ensures !late <==> forall xs :: LateRun(late, xs) ==> Excludes(xs)
  {
    hide LateRun, LateInv;
    if late {
      var c, d, l := Name([1]), Name([2]), Lock(0);
      var xs := LateReleaseBreaks(c, d, l);
      assert !Excludes(xs);
    } else {
      forall xs | LateRun(late, xs) ensures |xs| > 0 && Excludes(xs) {
        RunSome(xs);
        RunKeeps(xs);
        forall c, d, l ensures !BothHold(Last(xs), c, d, l) { InvExcludes(Last(xs), c, d, l); }
      }
    }
  }

  lemma RunSome(xs: seq<Late>)
    requires LateRun(false, xs)
    ensures |xs| > 0
  {}
}
