/** What a range scan over the leaves yields (b+tree.go, lines 518-535 and 586-615). */
module BTreeScan {
  import opened Options
  import opened BTree
  import opened BTreeBody
  import opened BTreeInsert
  import opened BTreeDelete
  import opened BTreeMeaning
  import opened BTreeMap

  // ----- what a range scan should yield

  /** The entries with low <= key < high, in order. */
  function InRange<V>(es: seq<Entry<V>>, low: Bound, high: Bound): seq<Entry<V>> {
    if es == [] then []
    else if Above(low, es[0].key) && Below(es[0].key, high) then [es[0]] + InRange(es[1..], low, high)
    else InRange(es[1..], low, high)
  }

  /** What the cursor yields: entries up to the first key that is not below the bound. */
  function UpTo<V>(es: seq<Entry<V>>, high: Bound): seq<Entry<V>> {
    if es == [] || !Below(es[0].key, high) then [] else [es[0]] + UpTo(es[1..], high)
  }

  lemma {:induction false} InRangeConcat<V>(a: seq<Entry<V>>, b: seq<Entry<V>>, low: Bound, high: Bound)
    ensures InRange(a + b, low, high) == InRange(a, low, high) + InRange(b, low, high)
  {
    if a == [] {
      assert a + b == b;
    } else {
      assert (a + b)[1..] == a[1..] + b;
      InRangeConcat(a[1..], b, low, high);
    }
  }

  lemma {:induction false} NothingInRange<V>(es: seq<Entry<V>>, low: Bound, high: Bound)
    requires forall i :: 0 <= i < |es| ==> !Above(low, es[i].key) || !Below(es[i].key, high)
    ensures InRange(es, low, high) == []
  {
    if es != [] { NothingInRange(es[1..], low, high); }
  }

  /** From the first key at least `low` on, stopping at the bound is filtering. */
  lemma {:induction false} UpToIsRange<V>(es: seq<Entry<V>>, low: Bound, high: Bound)
    requires SortedEntries(es) && Within(low, es, Unbounded)
    ensures UpTo(es, high) == InRange(es, low, high)
  {
    if es != [] {
      if Below(es[0].key, high) {
        UpToIsRange(es[1..], low, high);
      } else {
        NothingInRange(es, low, high);
      }
    }
  }

  lemma RangeFrom<V>(es: seq<Entry<V>>, i: nat, low: Bound, high: Bound)
    requires SortedEntries(es) && i <= |es| && (forall j :: 0 <= j < i ==> !Above(low, es[j].key))
    requires Within(low, es[i..], Unbounded)
    ensures UpTo(es[i..], high) == InRange(es, low, high)
  {
    hide InRange, UpTo;
    assert es == es[..i] + es[i..];
    InRangeConcat(es[..i], es[i..], low, high);
    NothingInRange(es[..i], low, high);
    UpToIsRange(es[i..], low, high);
  }

  /** Where the cursor of FindRange starts, as a list: everything from the first key at least
      `low` on, but nothing at all if the leaf that `low` is routed to has no such key. */
  ghost function StartOf<V>(t: Tree<V>, h: nat, low: Bound): seq<Entry<V>>
    requires Shaped(t, h)
  {
    var es := Items(Leaves(t));
    match low
    case Unbounded => es
    case At(k) => if FindLeaf(t, k, h).None? then [] else es[LowerBound(es, k)..]
  }

  ghost predicate Starts<V>(t: Tree<V>, h: nat, low: Bound)
    requires Shaped(t, h)
  {
    low.At? ==> FindLeaf(t, low.key, h).Some?
  }

  lemma StartGivesRange<V>(t: Tree<V>, h: nat, low: Bound, high: Bound)
    requires RootOk(t, h, 0) && Shaped(t, h) && Starts(t, h, low)
    ensures UpTo(StartOf(t, h, low), high) == InRange(Items(Leaves(t)), low, high)
  {
    hide InRange, UpTo, Items, Leaves, FindLeaf, Ok, LowerBound;
    var es := Items(Leaves(t));
    TreeSorted(t, h);
    match low {
      case Unbounded => UpToIsRange(es, low, high);
      case At(k) =>
        var i := LowerBound(es, k);
        assert forall j :: i <= j < |es| ==> es[i].key <= es[j].key;
        RangeFrom(es, i, low, high);
    }
  }

  /** A scan yields exactly the stored pairs in [low, high), in order, if and only if it has no
      lower bound, or the leaf that the bound is routed to holds a key at or above it, or there
      is no such pair. */
  lemma ScanIsExactWhen<V>(t: Tree<V>, h: nat, low: Bound, high: Bound)
    requires RootOk(t, h, 0) && Shaped(t, h)
    ensures UpTo(StartOf(t, h, low), high) == InRange(Items(Leaves(t)), low, high)
       <==> Starts(t, h, low) || InRange(Items(Leaves(t)), low, high) == []
  {
    hide InRange, Items, Leaves, FindLeaf, Ok, LowerBound;
    if Starts(t, h, low) { StartGivesRange(t, h, low, high); }
  }

  /** A lower bound that is a stored key always works. */
  lemma StoredKeyStarts<V>(t: Tree<V>, h: nat, k: int)
    requires RootOk(t, h, 0) && Shaped(t, h) && Get(Items(Leaves(t)), k).Some?
    ensures Starts(t, h, At(k))
  {
    hide Items, Leaves, FindLeaf, Ok, LowerBound;
    FindIsGet(t, k, h);
  }

  const LEFT := LeafRec(0, [Entry(1, 10)])
  const RIGHT := LeafRec(1, [Entry(3, 30), Entry(5, 50)])

  /** A tree of degree 3 with the keys 1, 3 and 5. */
  const SMALL := Node([3], [Leaf(LEFT), Leaf(RIGHT)])

  lemma SmallIsGood()
    ensures RootOk(SMALL, 1, 3) && Shaped(SMALL, 1) && Leaves(SMALL) == [LEFT, RIGHT]
  {
    assert Ok(Leaf(LEFT), 0, 3, Unbounded, At(3), 1) && Ok(Leaf(RIGHT), 0, 3, At(3), Unbounded, 1);
    NewRootOk(Leaf(LEFT), 3, Leaf(RIGHT), 0, 3);
    LeavesTwo(Leaf(LEFT), Leaf(RIGHT));
  }

  /** A scan from 2 on misses 3 and 5: 2 is routed to the leaf that holds only 1. */
  lemma ScanMisses()
    ensures RootOk(SMALL, 1, 3) && Shaped(SMALL, 1)
    ensures UpTo(StartOf(SMALL, 1, At(2)), Unbounded) == []
    ensures InRange(Items(Leaves(SMALL)), At(2), Unbounded) == [Entry(3, 30), Entry(5, 50)]
  {
    hide Ok;
    SmallIsGood();
    LeafPairItems(LEFT, RIGHT);
    var es := [Entry(1, 10), Entry(3, 30), Entry(5, 50)];
    assert Items(Leaves(SMALL)) == es;
    assert es[1..] == [Entry(3, 30), Entry(5, 50)] && es[1..][1..] == [Entry(5, 50)] && es[1..][1..][1..] == [];
    assert InRange(es[1..][1..], At(2), Unbounded) == [Entry(5, 50)];
    BoundUnique(LEFT.entries, 2, 1);
    assert SMALL.kids[Route(SMALL.keys, 2)] == Leaf(LEFT);
    assert FindLeaf(SMALL, 2, 1) == FindLeaf(Leaf(LEFT), 2, 0) == None;
  }

  // ----- walking the chain

  /** What lies at and after entry `j` of leaf `i`. */
  function From<V>(ls: seq<LeafRec<V>>, i: nat, j: nat): seq<Entry<V>>
    requires i < |ls| && j <= |ls[i].entries|
  {
    ls[i].entries[j..] + Items(ls[i + 1..])
  }

  lemma FromNextLeaf<V>(ls: seq<LeafRec<V>>, i: nat)
    requires i < |ls|
    ensures i + 1 < |ls| ==> From(ls, i, |ls[i].entries|) == From(ls, i + 1, 0)
    ensures i + 1 == |ls| ==> From(ls, i, |ls[i].entries|) == []
  {
    if i + 1 < |ls| {
      assert ls[i + 1..][1..] == ls[i + 2..];
      assert ls[i + 1].entries[0..] == ls[i + 1].entries;
    } else {
      assert ls[i + 1..] == [];
    }
  }

  lemma FromStep<V>(ls: seq<LeafRec<V>>, i: nat, j: nat)
    requires i < |ls| && j < |ls[i].entries|
    ensures From(ls, i, j) == [ls[i].entries[j]] + From(ls, i, j + 1)
  {
    var es := ls[i].entries;
    assert es[j..] == [es[j]] + es[j + 1..];
  }

  lemma FromStart<V>(ls: seq<LeafRec<V>>)
    requires |ls| >= 1
    ensures From(ls, 0, 0) == Items(ls)
  {
    assert ls[0].entries[0..] == ls[0].entries;
  }

  /** The position that find returns is where the entries at or above the key begin. */
  lemma FromFound<V>(a: seq<LeafRec<V>>, l: LeafRec<V>, b: seq<LeafRec<V>>, k: int)
    requires Place(a + [l] + b, a, l, b, k)
    ensures var es := Items(a + [l] + b); From(a + [l] + b, |a|, LowerBound(l.entries, k)) == es[LowerBound(es, k)..]
  {
    hide LowerBound, Items;
    var ls, i := a + [l] + b, LowerBound(l.entries, k);
    ItemsAround(a, [l], b);
    ItemsOne(l);
    BoundMiddle(Items(a), l.entries, Items(b), k);
    assert ls[|a| + 1..] == b && ls[|a|] == l;
    assert (Items(a) + l.entries + Items(b))[|Items(a)| + i..] == l.entries[i..] + Items(b);
  }

  lemma UpToStep<V>(out: seq<Entry<V>>, e: Entry<V>, rest: seq<Entry<V>>, high: Bound)
    requires Below(e.key, high)
    ensures out + UpTo([e] + rest, high) == (out + [e]) + UpTo(rest, high)
  {
    assert ([e] + rest)[1..] == rest;
  }

  lemma UpToEnd<V>(es: seq<Entry<V>>, high: Bound)
    requires es == [] || !Below(es[0].key, high)
    ensures UpTo(es, high) == []
  {}
}
