/** The acknowledgement window of an RPC client (mit_6.824/rpc/rpc.cc, lines 208-214, 286-293 and
    360-408). Transaction ids do not wrap around. */
module RpcClient {

  predicate Sorted(w: seq<nat>) {
    forall i, j :: 0 <= i < j < |w| ==> w[i] <= w[j]
  }

  /** `n` ends the largest prefix of transaction ids that are all finished. */
  ghost predicate PrefixEnd(finished: set<nat>, n: nat) {
    (forall x: nat :: x <= n ==> x in finished) && n + 1 !in finished
  }

  /** The list stands for the finished ids: all up to its front, and the ones in it. Ids that
      were reported twice may occur twice. */
  ghost predicate Represents(w: seq<nat>, finished: set<nat>) {
    |w| > 0 && Sorted(w) && forall x: nat :: x in finished <==> x <= w[0] || x in w
  }

  /** As Represents, with the front at the end of the finished prefix. */
  ghost predicate WindowOk(w: seq<nat>, finished: set<nat>) {
    Represents(w, finished) && w[0] + 1 !in w
  }

  lemma FrontIsPrefixEnd(w: seq<nat>, finished: set<nat>)
    requires WindowOk(w, finished)
    ensures PrefixEnd(finished, w[0])
  {}

  // ----- update_xid_rep

  /** The first place with an id above `xid`. */
  function PlaceFor(w: seq<nat>, xid: nat): (at: nat)
    ensures at <= |w| && (forall j :: 0 <= j < at ==> w[j] <= xid) && (at < |w| ==> w[at] > xid)
  {
    if w == [] || w[0] > xid then 0 else 1 + PlaceFor(w[1..], xid)
  }

  /** Drops the front as long as its successor follows, looking from place `i` on: 2, 3, 4, 7
      becomes 4, 7. */
  function Compressed(w: seq<nat>, i: nat): seq<nat>
    requires w != []
    decreases if i < |w| then |w| - i else 0, |w|
  {
    if i >= |w| then w
    else if i > 0 && w[0] + 1 == w[i] then Compressed(w[1..], i - 1)
    else Compressed(w, i + 1)
  }

  /** The window after `xid` has been reported. */
  function Report(w: seq<nat>, xid: nat): seq<nat>
    requires w != []
  {
    if xid <= w[0] then w
    else var at := PlaceFor(w, xid); Compressed(w[..at] + [xid] + w[at..], 1)
  }

  lemma {:induction false} CompressedOk(w: seq<nat>, i: nat, finished: set<nat>)
    requires Represents(w, finished) && forall j :: 0 <= j < i && j < |w| ==> w[j] != w[0] + 1
    ensures Compressed(w, i) != [] && WindowOk(Compressed(w, i), finished) && Compressed(w, i)[0] >= w[0]
    decreases if i < |w| then |w| - i else 0, |w|
  {
    if i < |w| {
      if i > 0 && w[0] + 1 == w[i] {
        DropFront(w, finished, i);
        CompressedOk(w[1..], i - 1, finished);
      } else {
        CompressedOk(w, i + 1, finished);
      }
    }
  }

  lemma InsertRepresents(w: seq<nat>, at: nat, xid: nat, finished: set<nat>)
    requires Represents(w, finished) && xid > w[0] && at == PlaceFor(w, xid)
    ensures Represents(w[..at] + [xid] + w[at..], finished + {xid}) && (w[..at] + [xid] + w[at..])[0] == w[0]
  {
    hide PlaceFor;
    InsertSorted(w, at, xid);
    var w' := w[..at] + [xid] + w[at..];
    assert w == w[..at] + w[at..];
  }

  /** Reporting an id, possibly again, keeps the front at the end of the finished prefix. */
  lemma ReportKeeps(w: seq<nat>, xid: nat, finished: set<nat>)
    requires WindowOk(w, finished)
    ensures var w' := Report(w, xid);
            w' != [] && WindowOk(w', finished + {xid}) && PrefixEnd(finished + {xid}, w'[0]) && w'[0] >= w[0]
  {
    hide PlaceFor, Compressed;
    if xid <= w[0] {
      assert finished + {xid} == finished;
    } else {
      var at := PlaceFor(w, xid);
      InsertRepresents(w, at, xid, finished);
      CompressedOk(w[..at] + [xid] + w[at..], 1, finished + {xid});
    }
    FrontIsPrefixEnd(Report(w, xid), finished + {xid});
  }

  class AckWindow {
    var window: seq<nat>
    ghost var finished: set<nat>

    ghost predicate Valid()
      reads this
    {
      WindowOk(window, finished)
    }

    constructor ()
      ensures Valid() && finished == {0} && window == [0]
    {
      window, finished := [0], {0};
    }

    method UpdateXidRep(xid: nat)
      requires Valid()
      modifies this
      ensures Valid() && finished == old(finished) + {xid} && PrefixEnd(finished, window[0])
      ensures window == Report(old(window), xid)
    {
      hide PrefixEnd;
      ReportKeeps(window, xid, finished);
      finished := finished + {xid};
      if xid <= window[0] { return; }
      var at := 0;
      while at < |window| && window[at] <= xid
        invariant at <= |window| && forall j :: 0 <= j < at ==> window[j] <= xid
      {
        at := at + 1;
      }
      PlaceUnique(window, xid, at);
      window := window[..at] + [xid] + window[at..];
      Compress();
    }

    method Compress()
      requires window != []
      modifies this`window
      ensures window == Compressed(old(window), 1)
    {
      var i := 1;
      while i < |window|
        invariant i >= 1 && window != [] && Compressed(window, i) == Compressed(old(window), 1)
        decreases |window| - i
      {
        ghost var size := |window| - i;
        while window[0] + 1 == window[i]
          invariant 0 <= i < |window| && |window| - i == size && Compressed(window, i) == Compressed(old(window), 1)
          decreases |window|
        {
          window := window[1..];
          i := i - 1;
        }
        i := i + 1;
      }
    }
  }

  lemma PlaceUnique(w: seq<nat>, xid: nat, at: nat)
    requires Sorted(w) && at <= |w| && (forall j :: 0 <= j < at ==> w[j] <= xid) && (at < |w| ==> w[at] > xid)
    ensures PlaceFor(w, xid) == at
  {}

  lemma InsertSorted(w: seq<nat>, at: nat, xid: nat)
    requires Sorted(w) && at <= |w| && (forall j :: 0 <= j < at ==> w[j] <= xid) && (at < |w| ==> w[at] > xid)
    ensures Sorted(w[..at] + [xid] + w[at..])
  {}

  /** Everything before the element that continues the front equals the front. */
  lemma DropFront(w: seq<nat>, finished: set<nat>, i: nat)
    requires Represents(w, finished) && 0 < i < |w| && w[0] + 1 == w[i] && forall j :: 0 <= j < i ==> w[j] != w[0] + 1
    ensures Represents(w[1..], finished) && w[1] >= w[0]
    ensures forall j :: 0 <= j < i - 1 ==> w[1..][j] != w[1] + 1
  {
    assert forall j :: 0 <= j < i ==> w[j] == w[0];
    forall x: nat ensures (x <= w[0] || x in w) <==> (x <= w[1] || x in w[1..]) {
      if x in w { var j :| 0 <= j < |w| && w[j] == x; if j > 0 { assert w[1..][j - 1] == x; } }
      if x in w[1..] { var j :| 0 <= j < |w| - 1 && w[1..][j] == x; assert w[j + 1] == x; }
    }
  }
}
