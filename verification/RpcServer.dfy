/** The reply window of the RPC server (mit_6.824/rpc/rpc.cc, lines 551-566 and 664-750). */
module RpcServer {
  import opened Options

  /** A request seen from a client; `reply` is what add_reply stored. */
  datatype Slot = Slot(xid: nat, reply: Option<string>)

  datatype Status = NEW | INPROGRESS | DONE(reply: string) | FORGOTTEN

  /** One client's window and the highest acknowledgement received from it. */
  datatype Window = Window(slots: seq<Slot>, maxRep: nat)

  // ----- lookups

  predicate Seen(slots: seq<Slot>, xid: nat) {
    exists i :: 0 <= i < |slots| && slots[i].xid == xid
  }

  /** The index of the first slot of `xid`, or |slots|. */
  function IndexOf(slots: seq<Slot>, xid: nat): (i: nat)
    ensures i <= |slots| && (forall j :: 0 <= j < i ==> slots[j].xid != xid) && (i < |slots| ==> slots[i].xid == xid)
  {
    if slots == [] || slots[0].xid == xid then 0 else 1 + IndexOf(slots[1..], xid)
  }

  lemma SeenIndex(slots: seq<Slot>, xid: nat)
    ensures Seen(slots, xid) <==> IndexOf(slots, xid) < |slots|
  {
    hide IndexOf;
    var i := IndexOf(slots, xid);
    if i < |slots| { assert slots[i].xid == xid; }
  }

  /** The slots above an acknowledged id. */
  function Prune(slots: seq<Slot>, xidRep: nat): (r: seq<Slot>)
    ensures forall i :: 0 <= i < |r| ==> r[i].xid > xidRep && r[i] in slots
    ensures forall i :: 0 <= i < |slots| && slots[i].xid > xidRep ==> slots[i] in r
    ensures |r| <= |slots|
  {
    if slots == [] then []
    else
      var rest := Prune(slots[..|slots| - 1], xidRep);
      var last := slots[|slots| - 1];
      if last.xid <= xidRep then rest else rest + [last]
  }

  // ----- classification

  function Check(w: Window, xid: nat, xidRep: nat): (Window, Status) {
    var max := if xidRep > w.maxRep then xidRep else w.maxRep;
    if xid <= max then (w.(maxRep := max), FORGOTTEN)
    else
      var slots := Prune(w.slots, xidRep);
      var i := IndexOf(slots, xid);
      if i < |slots| then (Window(slots, max), if slots[i].reply.Some? then DONE(slots[i].reply.value) else INPROGRESS)
      else (Window(slots + [Slot(xid, None)], max), NEW)
  }

  /** Stores the reply in the slot of `xid`; None if there is no such slot, where the program
      goes past the end of its list. */
  function AddReply(w: Window, xid: nat, b: string): Option<Window> {
    var i := IndexOf(w.slots, xid);
    if i < |w.slots| then Some(w.(slots := w.slots[i := Slot(xid, Some(b))])) else None
  }

  // ----- invariants of one window

  ghost predicate NoDuplicates(slots: seq<Slot>) {
    forall i, j :: 0 <= i < j < |slots| ==> slots[i].xid != slots[j].xid
  }

  /** No id twice, and none that was acknowledged. */
  ghost predicate WindowOk(w: Window) {
    NoDuplicates(w.slots) && forall i :: 0 <= i < |w.slots| ==> w.slots[i].xid > w.maxRep
  }

  lemma {:induction false} PruneDistinct(slots: seq<Slot>, xidRep: nat)
    requires NoDuplicates(slots)
    ensures NoDuplicates(Prune(slots, xidRep))
  {
    if slots != [] {
      var front, last := slots[..|slots| - 1], slots[|slots| - 1];
      PruneDistinct(front, xidRep);
      var rest := Prune(front, xidRep);
      forall i | 0 <= i < |rest| ensures rest[i].xid != last.xid { assert rest[i] in front; }
    }
  }

  lemma PruneSeen(slots: seq<Slot>, xidRep: nat, xid: nat)
    ensures Seen(Prune(slots, xidRep), xid) <==> Seen(slots, xid) && xid > xidRep
  {
    hide Prune;
    var r := Prune(slots, xidRep);
    if Seen(r, xid) {
      var i :| 0 <= i < |r| && r[i].xid == xid;
      assert r[i] in slots;
    }
    if Seen(slots, xid) && xid > xidRep {
      var i :| 0 <= i < |slots| && slots[i].xid == xid;
      assert slots[i] in r;
    }
  }

  /** What the classification means, given that a request acknowledges only earlier ones. */
  lemma CheckMeans(w: Window, xid: nat, xidRep: nat)
    requires WindowOk(w) && xid > xidRep
    ensures var (w', st) := Check(w, xid, xidRep);
            && WindowOk(w') && w'.maxRep >= w.maxRep && w'.maxRep >= xidRep
            && (st == FORGOTTEN <==> xid <= w.maxRep)
            && (st == NEW <==> xid > w.maxRep && !Seen(w.slots, xid))
            && (st == FORGOTTEN || Seen(w'.slots, xid))
  {
    hide Prune, IndexOf;
    var slots := Prune(w.slots, xidRep);
    PruneDistinct(w.slots, xidRep);
    PruneSeen(w.slots, xidRep, xid);
    SeenIndex(slots, xid);
    forall i | 0 <= i < |slots| ensures slots[i].xid > w.maxRep { assert slots[i] in w.slots; }
    if xid > w.maxRep && IndexOf(slots, xid) == |slots| {
      var more := slots + [Slot(xid, None)];
      assert more[|slots|].xid == xid;
    }
  }

  /** Nothing above the acknowledged ids is lost, and nothing else appears. */
  lemma CheckKeeps(w: Window, xid: nat, xidRep: nat, s: Slot)
    requires WindowOk(w) && xid > xidRep
    ensures var (w', st) := Check(w, xid, xidRep);
            s in w'.slots <==> (s in w.slots && s.xid > w'.maxRep) || (st == NEW && s == Slot(xid, None))
  {
    hide Prune, IndexOf;
    var slots := Prune(w.slots, xidRep);
    if s in w.slots { var i :| 0 <= i < |w.slots| && w.slots[i] == s; }
    if s in slots { var i :| 0 <= i < |slots| && slots[i] == s; assert slots[i] in w.slots; }
  }

  lemma AddReplyKeeps(w: Window, xid: nat, b: string)
    requires WindowOk(w)
    ensures AddReply(w, xid, b).Some? <==> Seen(w.slots, xid)
    ensures AddReply(w, xid, b).Some? ==>
              var w' := AddReply(w, xid, b).value;
              && WindowOk(w') && w'.maxRep == w.maxRep
              && forall s: Slot :: s in w'.slots <==> (s in w.slots && s.xid != xid) || s == Slot(xid, Some(b))
  {
    hide IndexOf;
    SeenIndex(w.slots, xid);
    var i := IndexOf(w.slots, xid);
    if i < |w.slots| {
      var slots := w.slots[i := Slot(xid, Some(b))];
      forall s: Slot ensures s in slots <==> (s in w.slots && s.xid != xid) || s == Slot(xid, Some(b)) {
        if s in slots { var j :| 0 <= j < |slots| && slots[j] == s; }
        if s in w.slots { var j :| 0 <= j < |w.slots| && w.slots[j] == s; assert j != i ==> slots[j] == s; }
        if s == Slot(xid, Some(b)) { assert slots[i] == s; }
      }
    }
  }

  // ----- the program

  class ReplyCache {
    var replyWindow: map<nat, seq<Slot>>
    var maxXidRepSofar: map<nat, nat>

    /** The window of a client; std::map yields 0 for an id it does not hold. */
    ghost function WindowOf(clt: nat): Window
      reads this
      requires clt in replyWindow
    {
      Window(replyWindow[clt], if clt in maxXidRepSofar then maxXidRepSofar[clt] else 0)
    }

    constructor ()
      ensures replyWindow == map[] && maxXidRepSofar == map[]
    {
      replyWindow, maxXidRepSofar := map[], map[];
    }

    /** dispatch creates the window of a client that it has not seen before. */
    method SeeClient(clt: nat)
      modifies this`replyWindow
      ensures clt in replyWindow
      ensures replyWindow == if clt in old(replyWindow) then old(replyWindow) else old(replyWindow)[clt := []]
    {
      if clt !in replyWindow { replyWindow := replyWindow[clt := []]; }
    }

    /** dispatch, up to its decision; a client with nonce 0 does without the windows. */
    method Decide(clt: nat, xid: nat, xidRep: nat) returns (st: Status)
      requires xid > xidRep
      modifies this
      ensures clt == 0 ==> st == NEW && replyWindow == old(replyWindow) && maxXidRepSofar == old(maxXidRepSofar)
      ensures clt != 0 ==>
                var slots := if clt in old(replyWindow) then old(replyWindow)[clt] else [];
                var max := if clt in old(maxXidRepSofar) then old(maxXidRepSofar)[clt] else 0;
                var (w, status) := Check(Window(slots, max), xid, xidRep);
                && st == status && replyWindow == old(replyWindow)[clt := w.slots]
                && maxXidRepSofar == old(maxXidRepSofar)[clt := w.maxRep]
    {
      hide Check;
      st := NEW;
      if clt != 0 {
        SeeClient(clt);
        st := CheckDuplicateAndUpdate(clt, xid, xidRep);
      }
    }

    method CheckDuplicateAndUpdate(clt: nat, xid: nat, xidRep: nat) returns (st: Status)
      requires clt in replyWindow && xid > xidRep
      modifies this
      ensures var (w, status) := Check(old(WindowOf(clt)), xid, xidRep);
              st == status && replyWindow == old(replyWindow)[clt := w.slots]
                && maxXidRepSofar == old(maxXidRepSofar)[clt := w.maxRep]
    {
      hide Prune, IndexOf;
      var max := if clt in maxXidRepSofar then maxXidRepSofar[clt] else 0;
      if xidRep > max { max := xidRep; }
      maxXidRepSofar := maxXidRepSofar[clt := max];
      if xid <= max { return FORGOTTEN; }
      var slots;
      slots, st := Classify(replyWindow[clt], xid, xidRep, old(WindowOf(clt)).maxRep);
      replyWindow := replyWindow[clt := slots];
    }

    /** `found` is false where the program's assertion reads past the end of the list. */
    method StoreReply(clt: nat, xid: nat, b: string) returns (found: bool)
      requires clt in replyWindow
      modifies this`replyWindow
      ensures found <==> AddReply(old(WindowOf(clt)), xid, b).Some?
      ensures found ==> replyWindow == old(replyWindow)[clt := AddReply(old(WindowOf(clt)), xid, b).value.slots]
      ensures !found ==> replyWindow == old(replyWindow)
    {
      hide IndexOf;
      var slots := replyWindow[clt];
      var i := Locate(slots, xid);
      found := i < |slots|;
      if found { replyWindow := replyWindow[clt := slots[i := Slot(xid, Some(b))]]; }
    }
  }

  /** A request that was not acknowledged is a duplicate, or gets a slot of its own. */
  method Classify(slots: seq<Slot>, xid: nat, xidRep: nat, ghost maxRep: nat) returns (kept: seq<Slot>, st: Status)
    requires xid > xidRep && xid > maxRep
    ensures Check(Window(slots, maxRep), xid, xidRep) == (Window(kept, if xidRep > maxRep then xidRep else maxRep), st)
  {
    hide Prune, IndexOf;
    kept := Erase(slots, xidRep);
    var i := Locate(kept, xid);
    if i < |kept| {
      st := if kept[i].reply.Some? then DONE(kept[i].reply.value) else INPROGRESS;
    } else {
      kept, st := kept + [Slot(xid, None)], NEW;
    }
  }

  /** The loop that erases acknowledged entries. */
  method Erase(slots: seq<Slot>, xidRep: nat) returns (r: seq<Slot>)
    ensures r == Prune(slots, xidRep)
  {
    hide Prune, Follows;
    r := slots;
    var i := 0;
    ghost var k, kept := 0, [];
    PruneNone(slots, xidRep);
    NothingErased(slots);
    while i < |r|
      invariant k <= |slots| && kept == Prune(slots[..k], xidRep) && Follows(r, kept, slots, k) && i == |kept|
      decreases |r| - i
    {
      EraseStep(r, kept, slots, k);
      PruneStep(slots, k, xidRep);
      if r[i].xid <= xidRep {
        r := r[..i] + r[i + 1..];
      } else {
        kept := kept + [r[i]];
        i := i + 1;
      }
      k := k + 1;
    }
    AllErased(r, kept, slots, k);
  }

  /** `r` is `a` followed by what is left of `s`. */
  ghost predicate Follows<T>(r: seq<T>, a: seq<T>, s: seq<T>, k: nat) {
    k <= |s| && r == a + s[k..]
  }

  lemma NothingErased<T>(s: seq<T>)
    ensures Follows(s, [], s, 0)
  {}

  lemma AllErased<T>(r: seq<T>, a: seq<T>, s: seq<T>, k: nat)
    requires Follows(r, a, s, k) && |r| <= |a|
    ensures r == a && k == |s| && s[..k] == s
  {}

  lemma EraseStep<T>(r: seq<T>, a: seq<T>, s: seq<T>, k: nat)
    requires Follows(r, a, s, k) && |a| < |r|
    ensures k < |s| && r[|a|] == s[k] && |a| + 1 <= |r|
    ensures Follows(r[..|a|] + r[|a| + 1..], a, s, k + 1) && Follows(r, a + [s[k]], s, k + 1)
  {
    assert s[k..] == [s[k]] + s[k + 1..];
  }

  lemma PruneNone(slots: seq<Slot>, xidRep: nat)
    ensures Prune(slots[..0], xidRep) == []
  {}

  lemma PruneStep(slots: seq<Slot>, k: nat, xidRep: nat)
    requires k < |slots|
    ensures Prune(slots[..k + 1], xidRep) == Prune(slots[..k],
      xidRep) + if slots[k].xid <= xidRep then [] else [slots[k]]
  {
    assert slots[..k + 1][..k] == slots[..k];
  }

  method Locate(slots: seq<Slot>, xid: nat) returns (i: nat)
    ensures i == IndexOf(slots, xid)
  {
    i := 0;
    while i < |slots| && slots[i].xid != xid
      invariant i <= |slots| && forall j :: 0 <= j < i ==> slots[j].xid != xid
    {
      i := i + 1;
    }
    IndexUnique(slots, xid, i);
  }

  lemma IndexUnique(slots: seq<Slot>, xid: nat, i: nat)
    requires i <= |slots| && (forall j :: 0 <= j < i ==> slots[j].xid != xid) && (i < |slots| ==> slots[i].xid == xid)
    ensures IndexOf(slots, xid) == i
  {}
}
