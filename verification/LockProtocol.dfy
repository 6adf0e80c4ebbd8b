/** The cached lock protocol: any number of clients and locks, the replicated server taken as one
    atomic service that may execute a request several times before its call returns, revoke and
    retry messages that may come late or repeatedly (mit_6.824/lock_client_cache_rsm.cc and
    lock_server_cache_rsm.cc). */
module LockProtocol {
  import opened LockTransfer
  import opened LockServer

  datatype Stat = NONE | ACQUIRING | LOCKED | RELEASING | FREE

  /** Where the thread is that acquires or gives back a lock. */
  datatype Pending =
    | Idle
    | Waiting                                       // told to retry
    | AcquireSent(xid: nat, replies: set<Reply>)    // in flight, with the replies of its executions
    | FlushPending                                  // dorelease has yet to run
    | Flushed
    | ReleaseSent(executed: bool)

  /** A client's record of one lock. */
  datatype Local = Local(stat: Stat, revoked: bool, retry: bool, pending: Pending)

  const FRESH := Local(NONE, false, false, Idle)

  // ----- what the client's methods do to the record between calls

  function BeginAcquire(loc: Local): Local {
    loc.(stat := ACQUIRING)
  }

  /** The reply of the acquire call. */
  function EndAcquire(loc: Local, r: Reply): Local {
    if r == OK then loc.(stat := LOCKED, pending := Idle) else loc.(pending := Waiting)
  }

  /** The acquire call, again after a retry message or a timeout. */
  function CallAcquire(loc: Local, xid: nat): Local {
    loc.(retry := loc.pending != Waiting && loc.retry, pending := AcquireSent(xid, {}))
  }

  function LetGo(loc: Local): Local {
    if loc.revoked then loc.(stat := RELEASING, pending := FlushPending) else loc.(stat := FREE)
  }

  function OnRevoke(loc: Local): Local {
    if loc.stat == FREE then loc.(revoked := true, stat := RELEASING, pending := FlushPending)
    else loc.(revoked := true)
  }

  function EndRelease(loc: Local): Local {
    loc.(stat := NONE, revoked := false, pending := Idle)
  }

  /** lock_client_cache_rsm. Each method is one stretch of a source method between acquiring and
      giving up the client's mutex; a true result means that a call to the server follows. */
  class Client {
    var xid: nat
    var locks: map<Lock, Local>

    ghost function Get(l: Lock): Local
      reads this
    {
      if l in locks then locks[l] else FRESH
    }

    method Touch(l: Lock)
      modifies this`locks
      ensures l in locks && locks == old(locks)[l := old(Get(l))]
    {
      if l !in locks { locks := locks[l := FRESH]; }
    }

    /** acquire, up to its first call or up to the wait; `wait` if another thread is at it. */
    method Acquire(l: Lock) returns (call: bool, wait: bool)
      modifies this
      ensures var loc := old(Get(l));
              && call == (loc.stat == NONE) && wait == (loc.stat in {ACQUIRING, LOCKED, RELEASING})
              && xid == old(xid) + (if call then 1 else 0)
              && locks == old(locks)[l := if call then BeginAcquire(loc)
                                          else if wait then loc else loc.(stat := LOCKED)]
    {
      Touch(l);
      call, wait := false, false;
      match locks[l].stat {
        case NONE =>
          xid := xid + 1;
          locks := locks[l := locks[l].(stat := ACQUIRING)];
          call := true;
        case FREE =>
          locks := locks[l := locks[l].(stat := LOCKED)];
        case _ =>
          wait := true;
      }
    }

    /** The next acquire call takes the counter as it is now. */
    method CallServer(l: Lock) returns (arg: nat)
      modifies this`locks
      ensures arg == xid && locks == old(locks)[l := CallAcquire(old(Get(l)), xid)]
    {
      Touch(l);
      if locks[l].pending == Waiting { locks := locks[l := locks[l].(retry := false)]; }
      arg := xid;
      locks := locks[l := locks[l].(pending := AcquireSent(arg, {}))];
    }

    method AcquireReply(l: Lock, r: Reply)
      modifies this`locks
      ensures locks == old(locks)[l := EndAcquire(old(Get(l)), r)]
    {
      Touch(l);
      match r {
        case OK => locks := locks[l := locks[l].(stat := LOCKED, pending := Idle)];
        case RETRY => locks := locks[l := locks[l].(pending := Waiting)];
      }
    }

    method ReleaseReply(l: Lock)
      modifies this`locks
      ensures locks == old(locks)[l := EndRelease(old(Get(l)))]
    {
      Touch(l);
      locks := locks[l := locks[l].(stat := NONE)];
      locks := locks[l := locks[l].(revoked := false, pending := Idle)];
    }

    /** release; the program asserts that the lock is held, unless there is nothing to do. */
    method Release(l: Lock) returns (call: bool)
      requires Get(l).stat in {NONE, LOCKED, FREE}
      modifies this`locks
      ensures call == (old(Get(l)).stat != NONE && old(Get(l)).revoked)
      ensures locks == old(locks)[l := if old(Get(l)).stat == NONE then old(Get(l)) else LetGo(old(Get(l)))]
    {
      Touch(l);
      if locks[l].stat == NONE { return false; }
      call := locks[l].revoked;
      if !call {
        locks := locks[l := locks[l].(stat := FREE)];
      } else {
        locks := locks[l := locks[l].(stat := RELEASING, pending := FlushPending)];
      }
    }

    method RevokeHandler(l: Lock) returns (call: bool)
      modifies this`locks
      ensures call == (old(Get(l)).stat == FREE) && locks == old(locks)[l := OnRevoke(old(Get(l)))]
    {
      Touch(l);
      locks := locks[l := locks[l].(revoked := true)];
      call := locks[l].stat == FREE;
      if call { locks := locks[l := locks[l].(stat := RELEASING, pending := FlushPending)]; }
    }

    method RetryHandler(l: Lock)
      modifies this`locks
      ensures locks == old(locks)[l := old(Get(l)).(retry := true)]
    {
      Touch(l);
      locks := locks[l := locks[l].(retry := true)];
    }
  }

  // ----- the system

  datatype Key = Key(c: Name, l: Lock)

  datatype Revoke = Revoke(c: Name, l: Lock)

  datatype Sys = Sys(xids: map<Name, nat>, locals: map<Key, Local>, table: Table, revokes: set<Revoke>)

  ghost function At(s: Sys, k: Key): Local {
    if k in s.locals then s.locals[k] else FRESH
  }

  datatype Step =
    | Begin(k: Key)                       // acquire of a lock that the client does not have
    | SendAcquire(k: Key)                 // first call, or again after a retry message or a timeout
    | ExecAcquire(k: Key)
    | AcquireReturns(k: Key, r: Reply)
    | AcquireCached(k: Key)
    | Release(k: Key)
    | SendRevoke(l: Lock)
    | DeliverRevoke(m: Revoke)
    | DeliverRetry(k: Key)
    | Flush(k: Key)                       // dorelease
    | SendRelease(k: Key)
    | ExecRelease(k: Key)
    | ReleaseReturns(k: Key)

  ghost predicate Enabled(s: Sys, step: Step) {
    match step
    case Begin(k) => k.c in s.xids && At(s, k).stat == NONE
    case SendAcquire(k) => k.c in s.xids && At(s, k).stat == ACQUIRING && !At(s, k).pending.AcquireSent?
    case ExecAcquire(k) => At(s, k).pending.AcquireSent?
    case AcquireReturns(k, r) => At(s, k).pending.AcquireSent? && r in At(s, k).pending.replies
    case AcquireCached(k) => At(s, k).stat == FREE
    case Release(k) => At(s, k).stat == LOCKED || At(s, k).stat == FREE
    case SendRevoke(l) => l in s.table
    case DeliverRevoke(m) => m in s.revokes
    case DeliverRetry(k) => true
    case Flush(k) => At(s, k).pending == FlushPending
    case SendRelease(k) => At(s, k).pending == Flushed
    case ExecRelease(k) => At(s, k).pending.ReleaseSent?
    case ReleaseReturns(k) => At(s, k).pending == ReleaseSent(true)
  }

  ghost function Set(s: Sys, k: Key, loc: Local): Sys {
    s.(locals := s.locals[k := loc])
  }

  ghost function Apply(s: Sys, step: Step): Sys
    requires Enabled(s, step)
  {
    match step
    case Begin(k) =>
      Set(s.(xids := s.xids[k.c := s.xids[k.c] + 1]), k, BeginAcquire(At(s, k)))
    case SendAcquire(k) =>
      // the counter is shared by all locks of the client and is read when the call is made
      Set(s, k, CallAcquire(At(s, k), s.xids[k.c]))
    case ExecAcquire(k) =>
      var p := At(s, k).pending;
      var o := OnAcquire(s.table, k.l, k.c, p.xid);
      Set(s.(table := o.table), k, At(s, k).(pending := AcquireSent(p.xid, p.replies + {o.reply})))
    case AcquireReturns(k, r) => Set(s, k, EndAcquire(At(s, k), r))
    case AcquireCached(k) => Set(s, k, At(s, k).(stat := LOCKED))
    case Release(k) => Set(s, k, LetGo(At(s, k)))
    case SendRevoke(l) => s.(revokes := s.revokes + {Revoke(s.table[l].cid, l)})
    case DeliverRevoke(m) => Set(s, Key(m.c, m.l), OnRevoke(At(s, Key(m.c, m.l))))
    case DeliverRetry(k) => Set(s, k, At(s, k).(retry := true))
    case Flush(k) => Set(s, k, At(s, k).(pending := Flushed))
    case SendRelease(k) => Set(s, k, At(s, k).(pending := ReleaseSent(false)))
    case ExecRelease(k) => Set(s.(table := OnRelease(s.table, k.l, k.c)), k, At(s, k).(pending := ReleaseSent(true)))
    case ReleaseReturns(k) => Set(s, k, EndRelease(At(s, k)))
  }

  ghost predicate Init(s: Sys) {
    s.locals == map[] && s.table == map[] && s.revokes == {}
  }

  // ----- the invariant

  /** The client has the lock, or has been granted it, or has not given it back yet. */
  ghost predicate Holds(loc: Local) {
    || loc.stat == LOCKED || loc.stat == FREE
    || loc.pending == FlushPending || loc.pending == Flushed || loc.pending == ReleaseSent(false)
    || (loc.pending.AcquireSent? && OK in loc.pending.replies)
  }

  /** Status and pending call go together. */
  ghost predicate LocalOk(loc: Local) {
    match loc.stat
    case ACQUIRING => loc.pending == Idle || loc.pending == Waiting || loc.pending.AcquireSent?
    case RELEASING => loc.pending == FlushPending || loc.pending == Flushed || loc.pending.ReleaseSent?
    case _ => loc.pending == Idle
  }

  ghost predicate IsHolder(t: Table, k: Key) {
    k.l in t && t[k.l].cid == k.c && !t[k.l].available
  }

  /** The id of the acquire call in flight, or of the next one. */
  ghost function CallXid(s: Sys, k: Key): nat
    requires k.c in s.xids
  {
    var loc := At(s, k);
    if loc.pending.AcquireSent? then loc.pending.xid else s.xids[k.c]
  }

  /** The server has recorded a grant for the call in flight or the next one. */
  ghost predicate Granted(s: Sys, k: Key) {
    k.c in s.xids && k.l in s.table && s.table[k.l].cid == k.c && s.table[k.l].xid == CallXid(s, k)
  }

  /** A lock granted to a call that is still to be answered has not been given back. */
  ghost predicate SessionOk(s: Sys, k: Key) {
    var loc := At(s, k);
    loc.stat == ACQUIRING ==>
      && k.c in s.xids && CallXid(s, k) <= s.xids[k.c]
      && (loc.pending.AcquireSent? && k.l in s.table && s.table[k.l].cid == k.c ==>
            s.table[k.l].xid <= loc.pending.xid)
      && (Granted(s, k) ==> !s.table[k.l].available)
  }

  ghost predicate KeyOk(s: Sys, k: Key) {
    LocalOk(At(s, k)) && SessionOk(s, k) && (Holds(At(s, k)) ==> IsHolder(s.table, k))
  }

  ghost predicate TableOk(s: Sys) {
    forall l :: l in s.table ==> s.table[l].cid in s.xids && s.table[l].xid <= s.xids[s.table[l].cid]
  }

  ghost predicate Inv(s: Sys) {
    TableOk(s) && forall k: Key :: KeyOk(s, k)
  }

  lemma InitInv(s: Sys)
    requires Init(s)
    ensures Inv(s)
  {}

  /** Steps that touch one record and not the table. */
  lemma LocalStepKeeps(s: Sys, s': Sys, k: Key)
    requires Inv(s) && s'.table == s.table && s'.xids == s.xids && s'.locals == s.locals[k := At(s', k)]
    requires KeyOk(s', k)
    ensures Inv(s')
  {
    forall j: Key ensures KeyOk(s', j) {
      assert KeyOk(s, j);
    }
  }

  lemma BeginKeeps(s: Sys, k: Key)
    requires Inv(s) && Enabled(s, Begin(k))
    ensures Inv(Apply(s, Begin(k)))
  {
    var s' := Apply(s, Begin(k));
    forall j: Key ensures KeyOk(s', j) {
      assert KeyOk(s, j) && KeyOk(s, k);
    }
  }

  /** An execution of an acquire changes only its own lock, never takes it from a holder, and
      answers OK only to the client that then is the holder. */
  lemma ExecAcquireTable(s: Sys, k: Key)
    requires Inv(s) && Enabled(s, ExecAcquire(k))
    ensures var o := OnAcquire(s.table, k.l, k.c, At(s, k).pending.xid);
            && (o.reply == OK ==> IsHolder(o.table, k))
            && (forall j: Key :: IsHolder(s.table, j) ==> IsHolder(o.table, j))
            && (forall l :: l != k.l ==>
                  (l in o.table <==> l in s.table) && (l in s.table ==> o.table[l] == s.table[l]))
  {
    hide OnAcquire;
    assert KeyOk(s, k);
    AcquireTable(s.table, k, At(s, k).pending.xid);
  }

  /** An acquire that is executed at any time takes the lock from no holder. */
  lemma AcquireTable(t: Table, k: Key, xid: nat)
    ensures var o := OnAcquire(t, k.l, k.c, xid);
            && (o.reply == OK && (k.l in t && t[k.l].cid == k.c && t[k.l].xid == xid ==> !t[k.l].available) ==>
                  IsHolder(o.table, k))
            && (forall j: Key :: IsHolder(t, j) ==> IsHolder(o.table, j))
            && (forall l :: l != k.l ==> (l in o.table <==> l in t) && (l in t ==> o.table[l] == t[l]))
  {
    hide OnAcquire;
    match OnAcquire(t, k.l, k.c, xid).reply
    case OK => GrantMeans(t, k.l, k.c, xid);
    case RETRY => RefusalMeans(t, k.l, k.c, xid);
  }

  lemma ExecAcquireSessions(s: Sys, s': Sys, k: Key, j: Key)
    requires Inv(s) && Enabled(s, ExecAcquire(k)) && s' == Apply(s, ExecAcquire(k))
    ensures SessionOk(s', j)
  {
    assert KeyOk(s, k) && KeyOk(s, j);
  }

  lemma ExecAcquireKeeps(s: Sys, k: Key)
    requires Inv(s) && Enabled(s, ExecAcquire(k))
    ensures Inv(Apply(s, ExecAcquire(k)))
  {
    hide OnAcquire, SessionOk, IsHolder;
    var s' := Apply(s, ExecAcquire(k));
    ExecAcquireTable(s, k);
    forall j: Key ensures KeyOk(s', j) {
      assert KeyOk(s, j) && KeyOk(s, k);
      ExecAcquireSessions(s, s', k, j);
    }
    ExecAcquireXids(s, s', k);
  }

  lemma ExecAcquireXids(s: Sys, s': Sys, k: Key)
    requires Inv(s) && Enabled(s, ExecAcquire(k)) && s' == Apply(s, ExecAcquire(k))
    ensures TableOk(s')
  {
    assert KeyOk(s, k);
  }

  lemma ExecReleaseKeeps(s: Sys, k: Key)
    requires Inv(s) && Enabled(s, ExecRelease(k))
    ensures Inv(Apply(s, ExecRelease(k)))
  {
    var s' := Apply(s, ExecRelease(k));
    forall j: Key ensures KeyOk(s', j) {
      assert KeyOk(s, j) && KeyOk(s, k);
    }
  }

  lemma StepKeeps(s: Sys, step: Step)
    requires Inv(s) && Enabled(s, step)
    ensures Inv(Apply(s, step))
  {
    hide OnAcquire, OnRelease;
    match step {
      case Begin(k) => BeginKeeps(s, k);
      case ExecAcquire(k) => ExecAcquireKeeps(s, k);
      case ExecRelease(k) => ExecReleaseKeeps(s, k);
      case SendRevoke(l) =>
        forall j: Key ensures KeyOk(Apply(s, step), j) { assert KeyOk(s, j); }
      case DeliverRevoke(m) => SimpleKeeps(s, step, Key(m.c, m.l));
      case SendAcquire(k) => SimpleKeeps(s, step, k);
      case AcquireReturns(k, r) => SimpleKeeps(s, step, k);
      case AcquireCached(k) => SimpleKeeps(s, step, k);
      case Release(k) => SimpleKeeps(s, step, k);
      case DeliverRetry(k) => SimpleKeeps(s, step, k);
      case Flush(k) => SimpleKeeps(s, step, k);
      case SendRelease(k) => SimpleKeeps(s, step, k);
      case ReleaseReturns(k) => SimpleKeeps(s, step, k);
    }
  }

  lemma SimpleKeeps(s: Sys, step: Step, k: Key)
    requires Inv(s) && Enabled(s, step) && !step.Begin? && !step.ExecAcquire? && !step.ExecRelease? && !step.SendRevoke?
    requires k == if step.DeliverRevoke? then Key(step.m.c, step.m.l) else step.k
    ensures Inv(Apply(s, step))
  {
    hide OnAcquire, OnRelease;
    assert KeyOk(s, k);
    LocalStepKeeps(s, Apply(s, step), k);
  }

  // ----- every run

  ghost predicate Next(s: Sys, s': Sys) {
    exists step :: Enabled(s, step) && s' == Apply(s, step)
  }

  ghost predicate IsRun(states: seq<Sys>) {
    |states| > 0 && Init(states[0]) && forall i :: 0 < i < |states| ==> Next(states[i - 1], states[i])
  }

  lemma {:induction false} RunKeepsInv(states: seq<Sys>)
    requires IsRun(states)
    ensures Inv(states[|states| - 1])
  {
    hide Inv, Init, Enabled, Apply;
    var last := |states| - 1;
    if last == 0 {
      InitInv(states[0]);
    } else {
      RunKeepsInv(states[..last]);
      assert Next(states[last - 1], states[last]);
      var step :| Enabled(states[last - 1], step) && states[last] == Apply(states[last - 1], step);
      StepKeeps(states[last - 1], step);
    }
  }

  /** Mutual exclusion: in every interleaving at most one client has a lock, and it is the
      unavailable holder that the server has recorded. */
  lemma MutualExclusion(states: seq<Sys>, c: Name, d: Name, l: Lock)
    requires IsRun(states)
    ensures var s := states[|states| - 1];
            && (Holds(At(s, Key(c, l))) ==> IsHolder(s.table, Key(c, l)))
            && (Holds(At(s, Key(c, l))) && Holds(At(s, Key(d, l))) ==> c == d)
  {
    hide Init, Next;
    RunKeepsInv(states);
    var s := states[|states| - 1];
    assert KeyOk(s, Key(c, l)) && KeyOk(s, Key(d, l));
  }

  /** What a client may have cached under a lock: dorelease has not run since it got the lock. */
  ghost predicate MayBeDirty(loc: Local) {
    loc.stat == LOCKED || loc.stat == FREE || loc.pending == FlushPending
  }

  /** When a client is granted a lock, dorelease has run at every client that had it before. */
  lemma FlushedBeforeGrant(states: seq<Sys>, k: Key, d: Name)
    requires IsRun(states) && Enabled(states[|states| - 1], ExecAcquire(k)) && d != k.c
    ensures var s := states[|states| - 1];
            OnAcquire(s.table, k.l, k.c, At(s, k).pending.xid).reply == OK ==> !MayBeDirty(At(s, Key(d, k.l)))
  {
    hide Init, Next;
    RunKeepsInv(states);
    var s := states[|states| - 1];
    assert KeyOk(s, k) && KeyOk(s, Key(d, k.l));
  }
}
