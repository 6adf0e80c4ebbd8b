/** The lock server's handlers (mit_6.824/lock_server_cache_rsm.cc, lines 112-211). In the branch
    for a repeated request the waiters are those of the lock itself; the program jumps there
    past the assignment of the pointer it uses. */
module LockServer {
  import opened LockTransfer

  datatype Reply = OK | RETRY

  /** The table after an acquire, the reply, and whether the holder is to be revoked. */
  datatype Outcome = Outcome(table: Table, reply: Reply, revoke: bool)

  function WithoutWaiter(info: Info, c: Name): Info {
    info.(waiters := info.waiters - {c})
  }

  function OnAcquire(t: Table, l: Lock, c: Name, xid: nat): Outcome {
    if l !in t then Outcome(t[l := Info(c, xid, false, {})], OK, false)
    else
      var info := t[l];
      if info.cid == c && info.xid == xid then
        var info' := WithoutWaiter(info, c);
        Outcome(t[l := info'], OK, info'.waiters != {})
      else if info.waiters != {} && c !in info.waiters then
        Outcome(t[l := info.(waiters := info.waiters + {c})], RETRY, false)
      else if !info.available then Outcome(t[l := info.(waiters := info.waiters + {c})], RETRY, c !in info.waiters)
      else
        var info' := WithoutWaiter(Info(c, xid, false, info.waiters), c);
        Outcome(t[l := info'], OK, info'.waiters != {})
  }

  function OnRelease(t: Table, l: Lock, c: Name): Table {
    if l in t && t[l].cid == c then t[l := t[l].(available := true)] else t
  }

  /** The tables agree on all other locks. */
  ghost predicate OnlyAt(t: Table, t': Table, l: Lock) {
    forall m :: m != l ==> (m in t' <==> m in t) && (m in t ==> t'[m] == t[m])
  }

  /** What a grant means: the caller becomes or is the holder. A request that repeats the one
      recorded is answered OK without looking at whether the lock is available. */
  lemma GrantMeans(t: Table, l: Lock, c: Name, xid: nat)
    requires OnAcquire(t, l, c, xid).reply == OK
    ensures var t' := OnAcquire(t, l, c, xid).table;
            && OnlyAt(t, t', l) && l in t' && t'[l].cid == c && t'[l].xid == xid && c !in t'[l].waiters
            && (if l in t && t[l].cid == c && t[l].xid == xid then t'[l].available == t[l].available
                else !t'[l].available && (l in t ==> t[l].available))
  {}

  /** A refusal leaves the holder alone and remembers the caller. */
  lemma RefusalMeans(t: Table, l: Lock, c: Name, xid: nat)
    requires OnAcquire(t, l, c, xid).reply == RETRY
    ensures var t' := OnAcquire(t, l, c, xid).table;
            && OnlyAt(t, t', l) && l in t && l in t' && c in t'[l].waiters
            && t'[l] == t[l].(waiters := t'[l].waiters) && t'[l].waiters == t[l].waiters + {c}
  {}

  class Server {
    var lockClients: Table
    var revokerQueue: seq<Lock>
    const primary: bool

    method Acquire(l: Lock, c: Name, xid: nat) returns (r: Reply)
      modifies this
      ensures var o := OnAcquire(old(lockClients), l, c, xid);
              && lockClients == o.table && r == o.reply
              && revokerQueue == old(revokerQueue) + if primary && o.revoke then [l] else []
    {
      if l in lockClients && c == lockClients[l].cid && xid == lockClients[l].xid {
        ClearAndNotify(l, c);
        return OK;
      }
      if l !in lockClients {
        lockClients := lockClients[l := Info(c, xid, false, {})];
        return OK;
      }
      var waited := lockClients[l].waiters;
      if waited != {} && c !in waited {
        lockClients := lockClients[l := lockClients[l].(waiters := waited + {c})];
        return RETRY;
      }
      if !lockClients[l].available {
        if c !in waited {
          lockClients := lockClients[l := lockClients[l].(waiters := waited + {c})];
          if primary { revokerQueue := revokerQueue + [l]; }
        } else {
          assert waited + {c} == waited;
        }
        return RETRY;
      }
      lockClients := lockClients[l := Info(c, xid, false, waited)];
      ClearAndNotify(l, c);
      r := OK;
    }

    method ClearAndNotify(l: Lock, c: Name)
      requires l in lockClients
      modifies this
      ensures lockClients == old(lockClients)[l := WithoutWaiter(old(lockClients)[l], c)]
      ensures revokerQueue == old(revokerQueue) + if primary && lockClients[l].waiters != {} then [l] else []
    {
      lockClients := lockClients[l := WithoutWaiter(lockClients[l], c)];
      if lockClients[l].waiters != {} && primary { revokerQueue := revokerQueue + [l]; }
    }

    method Release(l: Lock, c: Name)
      modifies this`lockClients
      ensures lockClients == OnRelease(old(lockClients), l, c)
    {
      if l in lockClients && lockClients[l].cid == c {
        lockClients := lockClients[l := lockClients[l].(available := true)];
      }
    }
  }
}
