/** The tree object and its range cursor (b+tree.go, lines 505-567 and 586-615). */
module BTreeApi {
  import opened Options
  import opened BTree
  import opened BTreeInsert
  import opened BTreeDelete
  import opened BTreeMap
  import opened BTreeStock
  import opened BTreeScan
  import opened BTreeNodes
  import opened BTreeHeap
  import BTreeHeapDelete

  // ----- leaf objects and leaf values

  /** The objects `ls` hold the leaf values `recs`. */
  ghost predicate Records<V(0)>(ls: seq<LeafNode<V>>, recs: seq<LeafRec<V>>)
    reads ls`nkeys, set l | l in ls :: l.slots
  {
    |ls| == |recs| && forall i :: 0 <= i < |ls| ==> ls[i].Valid() && recs[i] == LeafRec(ls[i].id, ls[i].Entries())
  }

  lemma {:induction false} RowRecords<V(0)>(s: Skel<V>, t: Tree<V>, h: nat, deg: nat)
    requires Rep(s, t, h, deg)
    ensures Records(Row(s), Leaves(t))
    decreases s, 0
  {
    if s.SNode? { RowsRecords(s.kids, t.kids, h - 1, deg); }
  }

  lemma {:induction false} RowsRecords<V(0)>(kids: seq<Skel<V>>, ts: seq<Tree<V>>, h: nat, deg: nat)
    requires RepAll(kids, ts, h, deg)
    ensures Records(RowAll(kids), AllLeaves(ts))
    decreases kids, 1
  {
    hide Rep, Row, Leaves;
    if kids != [] {
      RowRecords(kids[0], ts[0], h, deg);
      RowsRecords(kids[1..], ts[1..], h, deg);
    }
  }

  /** Leaf ids tell leaf objects apart. */
  lemma SameLeaf<V(0)>(ls: seq<LeafNode<V>>, recs: seq<LeafRec<V>>, l: LeafNode<V>, j: nat)
    requires Records(ls, recs) && l in ls && j < |recs| && recs[j].id == l.id && Distinct(Ids(recs))
    ensures ls[j] == l
  {
    var i :| 0 <= i < |ls| && ls[i] == l;
    assert Ids(recs)[i] == Ids(recs)[j];
  }

  /** The next pointer of leaf object `i` is the link of its id, and so is prev. */
  lemma HeapChainIsLinks<V(0)>(s: Skel<V>, t: Tree<V>, h: nat, deg: nat, links: Links, i: nat)
    requires Stands([s], [t], h, deg, null, null) && Chained(links, Ids(Leaves(t))) && i < |Row(s)|
    ensures var l := Row(s)[i];
            && (if l.next == null then l.id !in links.next else l.id in links.next && links.next[l.id] == l.next.id)
            && (if l.prev == null then l.id !in links.prev else l.id in links.prev && links.prev[l.id] == l.prev.id)
  {
    hide Rep, Row, Leaves, Sep, Distinct;
    OneStands(s, t, h, deg, null, null);
    RowRecords(s, t, h, deg);
    var row, ids := Row(s), Ids(Leaves(t));
    assert LinkAt(row, i, null, null);
    assert NextOk(links, ids, i) && PrevOk(links, ids, i);
  }

  // ----- searching

  /** The leaf object and slot for the leaf value and slot that were found, if any. */
  ghost predicate Finds<V(0)>(s: Skel<V>, found: Option<(LeafRec<V>, nat)>, l: LeafNode?<V>, i: nat, deg: nat)
    reads Own(s), Lvs(s)`nkeys
  {
    if found.None? then l == null
    else
      && l != null && l in Lvs(s) && l.slots in Own(s)
      && i == found.value.1 < l.nkeys && LeafHolds(l, Leaf(found.value.0), deg)
  }

  lemma BottomRep<V(0)>(l: LeafNode<V>, t: Tree<V>, h: nat, deg: nat)
    requires Rep(SLeaf(l), t, h, deg)
    ensures h == 0 && LeafHolds(l, t, deg) && Own(SLeaf(l)) == {l.slots} && Lvs(SLeaf(l)) == {l}
  {}

  lemma NodeRep<V(0)>(n: InternalNode<Ref<V>>, kids: seq<Skel<V>>, t: Tree<V>, h: nat, deg: nat)
    requires Rep(SNode(n, kids), t, h, deg) && Shaped(t, h)
    ensures h > 0 && t.Node? && NodeHolds(n, t.keys, Refs(kids), deg) && RepAll(kids, t.kids, h - 1, deg)
    ensures |kids| == |t.kids| == |Refs(kids)| && forall i :: 0 <= i < |kids| ==> Refs(kids)[i] == RefOf(kids[i])
    ensures forall i :: 0 <= i < |kids| ==> Shaped(t.kids[i], h - 1)
  {}

  lemma KidRep<V(0)>(kids: seq<Skel<V>>, ts: seq<Tree<V>>, h: nat, deg: nat, i: nat)
    requires RepAll(kids, ts, h, deg) && i < |kids|
    ensures |kids| == |ts| && Rep(kids[i], ts[i], h, deg) && Own(kids[i]) <= OwnAll(kids)
    ensures Lvs(kids[i]) <= LvsAll(kids)
  {
    AllHas(kids, i);
  }

  /** find. */
  method Locate<V(0)>(node: Ref<V>, ghost s: Skel<V>, ghost t: Tree<V>, ghost h: nat, ghost deg: nat, k: int)
    returns (l: LeafNode?<V>, i: nat)
    requires node == RefOf(s) && Rep(s, t, h, deg) && Shaped(t, h)
    ensures Finds(s, BTreeMap.FindLeaf(t, k, h), l, i, deg)
    decreases h
  {
    hide LowerBound, Route, Rep, RepAll, Own, OwnAll, Lvs, LvsAll, Refs, Shaped;
    match node {
      case LeafRef(leaf) =>
        BottomRep(leaf, t, h, deg);
        i := leaf.Position(k);
        l := if i == leaf.nkeys then null else leaf;
      case InnerRef(n) =>
        NodeRep(n, s.kids, t, h, deg);
        AllAllocated(s.kids);
        SkelParts(n, s.kids);
        i := n.ChildFor(k);
        KidRep(s.kids, t.kids, h - 1, deg, i);
        l, i := Locate(n.ptrs[i], s.kids[i], t.kids[i], h - 1, deg, k);
    }
  }

  method FindMinLeaf<V(0)>(node: Ref<V>, ghost s: Skel<V>, ghost t: Tree<V>, ghost h: nat, ghost deg: nat)
    returns (l: LeafNode<V>)
    requires node == RefOf(s) && Rep(s, t, h, deg) && Shaped(t, h)
    ensures Row(s) != [] && l == Row(s)[0]
    decreases h
  {
    match node {
      case LeafRef(leaf) => l := leaf;
      case InnerRef(n) =>
        assert Rep(s.kids[0], t.kids[0], h - 1, deg);
        l := FindMinLeaf(n.ptrs[0], s.kids[0], t.kids[0], h - 1, deg);
    }
  }

  // ----- at the root

  /** An inner node whose tree value has no keys has one child, which stands for the rest. */
  lemma OnlyChild<V(0)>(s: Skel<V>, t: Tree<V>, h: nat, deg: nat)
    requires Stands([s], [t], h, deg, null, null)
    ensures s.SNode? <==> t.Node?
    ensures s.SNode? ==> s.inner.Valid() && s.inner.nkeys == |t.keys| && h > 0
    ensures s.SNode? && |t.keys| == 0 ==>
              && |s.kids| == |t.kids| == 1 && s.inner.ptrs[0] == RefOf(s.kids[0])
              && Stands([s.kids[0]], [t.kids[0]], h - 1, deg, null, null) && AllOf([s.kids[0]]) <= AllOf([s])
  {
    OneStands(s, t, h, deg, null, null);
    if s.SNode? {
      NodeStands(s.inner, s.kids, t, h, deg, null, null);
      NodeAlone(s.inner, s.kids);
      if |t.keys| == 0 {
        assert |Refs(s.kids)| == |s.kids| == 1;
        assert s.kids == [s.kids[0]] && t.kids == [t.kids[0]];
      }
    }
  }

  lemma Room<V>(s: State<V>, deg: nat, k: int, v: V)
    requires deg >= 2 && Good(s, 0) && (deg % 2 == 1 ==> Good(s, deg))
    ensures RootOk(s.t, s.h, 0) && Shaped(s.t, s.h)
    ensures deg % 2 == 1 ==> !Overflows(s.t, deg, k, v, s.nextId, s.h)
  {
    hide Ok, Chained, IdsBelow;
    if deg % 2 == 1 { OkHasRoom(s.t, deg, k, v, s.nextId, s.h, Unbounded, Unbounded, RootMin(s.h, deg)); }
  }

  /** A root above the two halves of the old one. */
  method NewRoot<V(0)>(degree: nat, left: Ref<V>, sep: int, right: Ref<V>, ghost now: seq<Skel<V>>,
                       ghost ts: seq<Tree<V>>, ghost h: nat)
    returns (top: InternalNode<Ref<V>>)
    requires degree >= 2 && |now| == 2 && left == RefOf(now[0]) && right == RefOf(now[1])
    requires Stands(now, ts, h, degree, null, null)
    ensures Stands([SNode(top, now)], [Node([sep], ts)], h + 1, degree, null, null)
    ensures AllOf([SNode(top, now)]) == Parts(top) + AllOf(now) && forall o :: o in Parts(top) ==> fresh(o)
  {
    hide Stands, OwnAll, LvsAll;
    AllAllocated(now);
    top := new InternalNode<Ref<V>>(degree);
    top.keys[0] := sep;
    top.ptrs[0], top.ptrs[1] := left, right;
    top.nkeys := 1;
    assert top.Kids() == Refs(now);
    NodeStands(top, now, Node([sep], ts), h + 1, degree, null, null);
    NodeAlone(top, now);
  }

  method InsertAtRoot<V(0)>(root: Ref<V>, ghost s: Skel<V>, degree: nat, ghost was: State<V>, k: int, v: V)
    returns (top: Ref<V>, ghost s': Skel<V>)
    requires root == RefOf(s) && Stands([s], [was.t], was.h, degree, null, null) && degree >= 2 && Shaped(was.t, was.h)
    requires !Overflows(was.t, degree, k, v, was.nextId, was.h)
    modifies OwnAll([s]), LvsAll([s])
    ensures var next := DoInsert(was, degree, k, v);
            top == RefOf(s') && Stands([s'], [next.t], next.h, degree, null, null)
    ensures forall o :: o in AllOf([s']) ==> o in AllOf([s]) || fresh(o)
  {
    hide Stands, OwnAll, LvsAll, AllOf, Own, Lvs, Overflows, BTreeInsert.InsertKV, Relink;
    AllOne(s);
    var sep, right;
    ghost var now;
    sep, right, now := BTreeHeap.InsertKV(root, s, was.t, was.h, degree, null, null, k, v, was.nextId);
    if right == Nil {
      top, s' := root, now[0];
      assert now == [s'];
    } else {
      var n := NewRoot(degree, root, sep, right, now,
        TreesOf(BTreeInsert.InsertKV(was.t, degree, k, v, was.nextId, was.h).0), was.h);
      top, s' := InnerRef(n), SNode(n, now);
    }
  }

  method DeleteAtRoot<V(0)>(root: Ref<V>, ghost s: Skel<V>, ghost degree: nat, ghost was: State<V>, k: int)
    returns (top: Ref<V>, ghost s': Skel<V>)
    requires root == RefOf(s) && Stands([s], [was.t], was.h, degree, null, null) && degree >= 2 && Shaped(was.t, was.h)
    modifies OwnAll([s]), LvsAll([s])
    ensures var next := DoDelete(was, degree, k); top == RefOf(s') && Stands([s'], [next.t], next.h, degree, null, null)
    ensures AllOf([s']) <= AllOf([s])
  {
    hide Stands, OwnAll, LvsAll, AllOf, Own, Lvs, BTreeDelete.DeleteKey, Relink;
    AllOne(s);
    ghost var now := BTreeHeapDelete.DeleteKey(root, s, was.t, was.h, degree, null, null, k);
    AllOne(now);
    OnlyChild(now, BTreeDelete.DeleteKey(was.t, degree, k, was.h).0, was.h, degree);
    if root.InnerRef? && root.inner.nkeys == 0 {
      top, s' := root.inner.ptrs[0], now.kids[0];
    } else {
      top, s' := root, now;
    }
  }

  // ----- the tree object

  class BPlusTree<V(0, !new)> {
    const degree: nat
    var root: Ref<V>
    ghost var skel: Skel<V>
    ghost var t: Tree<V>
    ghost var h: nat
    ghost var links: Links
    ghost var nextId: nat

    ghost function Abs(): State<V>
      reads this
    {
      State(t, h, links, nextId)
    }

    ghost predicate Valid()
      reads this, OwnAll([skel]), LvsAll([skel])
    {
      && degree >= 2 && root == RefOf(skel) && this !in AllOf([skel]) && Stands([skel], [t], h, degree, null, null)
      && Good(Abs(), 0) && (degree % 2 == 1 ==> Good(Abs(), degree)) && (degree >= 3 ==> RootStocked(t))
    }

    ghost function Contents(): map<int, V>
      reads this, OwnAll([skel]), LvsAll([skel])
      requires Valid()
    {
      View(Abs())
    }

    constructor (degree: nat)
      requires degree >= 2
      ensures Valid() && this.degree == degree && Contents() == map[]
      ensures forall o :: o in AllOf([skel]) ==> fresh(o)
    {
      var l := new LeafNode<V>(0, degree);
      this.degree := degree;
      root, skel := LeafRef(l), SLeaf(l);
      t, links, nextId, h := Leaf(LeafRec(0, [])), Links(map[], map[]), 1, 0;
      new;
      EmptyView<V>();
      EmptyGood<V>(degree);
      AllOne(skel);
      LeafRep(l, t, degree);
      ChainOne(l, null, null);
      OneStands(skel, t, 0, degree, null, null);
    }

    /** An odd degree always has room; with an even one the program may stop on a full node. */
    method Insert(k: int, v: V)
      requires Valid() && (degree % 2 == 0 ==> !Overflows(t, degree, k, v, nextId, h))
      modifies this, OwnAll([skel]), LvsAll([skel])
      ensures Valid() && Abs() == DoInsert(old(Abs()), degree, k, v) && Contents() == old(Contents())[k := v]
      ensures forall o :: o in AllOf([skel]) ==> o in old(AllOf([skel])) || fresh(o)
    {
      hide Good, View, Stands, OwnAll, LvsAll, AllOf, Overflows, BTreeInsert.Insert, BTreeInsert.InsertKV, Relink,
           Stocked;
      ghost var was, s := Abs(), skel;
      Room(was, degree, k, v);
      ghost var next := DoInsert(was, degree, k, v);
      InsertRefines(was, degree, k, v);
      if degree % 2 == 1 { InsertKeepsGood(was, degree, k, v, degree); }
      if degree >= 3 { InsertStocked(t, degree, k, v, nextId, h); }
      AllOfHas([skel]);
      AllAllocated([skel]);
      var top;
      top, s := InsertAtRoot(root, skel, degree, was, k, v);
      AllOfHas([s]);
      root, skel := top, s;
      t, h, links, nextId := next.t, next.h, next.links, next.nextId;
    }

    method Delete(k: int)
      requires Valid()
      modifies this, OwnAll([skel]), LvsAll([skel])
      ensures Valid() && Abs() == DoDelete(old(Abs()), degree, k) && Contents() == old(Contents()) - {k}
      ensures AllOf([skel]) <= old(AllOf([skel]))
    {
      hide Good, View, Stands, OwnAll, LvsAll, AllOf, BTreeDelete.Delete, BTreeDelete.DeleteKey, Relink, Stocked;
      ghost var was, s := Abs(), skel;
      GoodRoot(was, 0);
      ghost var next := DoDelete(was, degree, k);
      DeleteRefines(was, degree, k);
      if degree % 2 == 1 { DeleteKeepsGood(was, degree, k, degree); }
      if degree >= 3 { DeleteStocked(t, degree, k, h); }
      AllOfHas([skel]);
      AllAllocated([skel]);
      var top;
      top, s := DeleteAtRoot(root, skel, degree, was, k);
      AllOfHas([s]);
      root, skel := top, s;
      t, h, links, nextId := next.t, next.h, next.links, next.nextId;
    }

    method Find(k: int) returns (r: Option<V>)
      requires Valid()
      ensures Valid() && r == if k in Contents() then Some(Contents()[k]) else None
    {
      hide Good, View, Chain, Row, BTreeMap.FindLeaf;
      AllAllocated([skel]);
      GoodRoot(Abs(), 0);
      FindRefines(Abs(), k);
      OneStands(skel, t, h, degree, null, null);
      var l, i := Locate(root, skel, t, h, degree, k);
      r := if l != null && l.slots[i].key == k then Some(l.slots[i].val) else None;
    }
  }

  lemma TreeFacts<V(0, !new)>(tree: BPlusTree<V>)
    requires tree.Valid()
    ensures RootOk(tree.t, tree.h, 0) && Shaped(tree.t, tree.h) && Rep(tree.skel, tree.t, tree.h, tree.degree)
    ensures Records(Row(tree.skel), Leaves(tree.t)) && Linked(Row(tree.skel), null, null)
    ensures |Row(tree.skel)| == |Leaves(tree.t)| >= 1 && Distinct(Ids(Leaves(tree.t)))
    ensures tree.degree >= 3 ==> NoneEmpty(Leaves(tree.t))
  {
    hide Rep, Row, Linked, Leaves, Ok, NoneEmpty;
    var s, t, h, deg := tree.skel, tree.t, tree.h, tree.degree;
    GoodRoot(tree.Abs(), 0);
    OneStands(s, t, h, deg, null, null);
    RowRecords(s, t, h, deg);
    RowSome(s, t, h, deg);
    if deg >= 3 { StockedNoneEmpty(t); }
  }

  // ----- the range cursor

  class RangeCursor<V(0, !new)> {
    const tree: BPlusTree<V>
    const high: Bound
    var curr: LeafNode?<V>
    var currIdx: nat
    ghost var at: nat        // the position of `curr` in the chain

    ghost predicate Valid()
      reads this, tree, OwnAll([tree.skel]), LvsAll([tree.skel])
    {
      && tree.Valid() && NoneEmpty(Leaves(tree.t)) && (this as object) !in AllOf([tree.skel])
      && (curr != null ==>
            && at < |Row(tree.skel)| == |Leaves(tree.t)| && curr == Row(tree.skel)[at]
            && currIdx <= |Leaves(tree.t)[at].entries|)
    }

    /** The entries still ahead, regardless of the upper bound. */
    ghost function Rest(): seq<Entry<V>>
      reads this, tree, OwnAll([tree.skel]), LvsAll([tree.skel])
      requires Valid()
    {
      if curr == null then [] else From(Leaves(tree.t), at, currIdx)
    }

    /** FindRange. */
    constructor (tree: BPlusTree<V>, low: Bound, high: Bound)
      requires tree.Valid() && (tree.degree == 2 ==> NoneEmpty(Leaves(tree.t)))
      ensures Valid() && this.tree == tree && this.high == high
      ensures Shaped(tree.t, tree.h) && Rest() == StartOf(tree.t, tree.h, low)
    {
      hide From, LowerBound, Items, Ok, Stands, Rep, Row, OwnAll, LvsAll, Records, Good, Leaves, BTreeMap.FindLeaf,
           NoneEmpty;
      AllAllocated([tree.skel]);
      AllOfHas([tree.skel]);
      this.tree, this.high := tree, high;
      TreeFacts(tree);
      ghost var ls := Leaves(tree.t);
      match low {
        case Unbounded =>
          FromStart(ls);
          var l := FindMinLeaf(tree.root, tree.skel, tree.t, tree.h, tree.degree);
          curr, currIdx, at := l, 0, 0;
        case At(k) =>
          ghost var a, rec, b := FindPlace(tree.t, k, tree.h, 0, Unbounded, Unbounded, 0);
          FromFound(a, rec, b, k);
          at := |a|;
          var l, i := Locate(tree.root, tree.skel, tree.t, tree.h, tree.degree, k);
          curr, currIdx := l, i;
          TreeFacts(tree);
          if l != null { SameLeaf(Row(tree.skel), ls, l, |a|); }
      }
      new;
      assert tree.Valid();
    }

    /** May step to the next leaf, which does not change what is ahead. */
    method HasNext() returns (more: bool)
      requires Valid()
      modifies this
      ensures Valid() && Rest() == old(Rest())
      ensures more == (Rest() != [] && Below(Rest()[0].key, high))
      ensures more ==> curr != null && curr.Valid() && currIdx < curr.nkeys
    {
      hide From, Good, Stands, OwnAll, LvsAll, Row, Leaves;
      if curr == null { return false; }
      LeafHere(this);
      ghost var ls := Leaves(tree.t);
      if currIdx == curr.nkeys {
        FromNextLeaf(ls, at);
        curr := curr.next;
        at, currIdx := at + 1, 0;
        if curr == null { return false; }
        LeafHere(this);
      }
      FromStep(ls, at, currIdx);
      more := Below(curr.slots[currIdx].key, high);
    }

    method Next() returns (e: Entry<V>)
      requires Valid() && curr != null && curr.Valid() && currIdx < curr.nkeys
      modifies this
      ensures Valid() && old(Rest()) == [e] + Rest()
    {
      hide From, Good, Stands, OwnAll, LvsAll, Row, Leaves;
      LeafHere(this);
      FromStep(Leaves(tree.t), at, currIdx);
      e := curr.slots[currIdx];
      currIdx := currIdx + 1;
    }
  }

  /** The leaf that a cursor is at, and the one that follows. */
  lemma LeafHere<V(0, !new)>(c: RangeCursor<V>)
    requires c.Valid() && c.curr != null
    ensures c.curr.Valid() && Leaves(c.tree.t)[c.at] == LeafRec(c.curr.id, c.curr.Entries())
    ensures c.curr.next == if c.at + 1 == |Row(c.tree.skel)| then null else Row(c.tree.skel)[c.at + 1]
  {
    hide Rep, Row, Leaves, Ok, NoneEmpty;
    TreeFacts(c.tree);
    assert LinkAt(Row(c.tree.skel), c.at, null, null);
  }

  /** All that a cursor yields. */
  method Drain<V(0, !new)>(c: RangeCursor<V>) returns (out: seq<Entry<V>>)
    requires c.Valid()
    modifies c
    ensures c.Valid() && out == UpTo(old(c.Rest()), c.high)
  {
    hide UpTo, From, Good, Leaves, Stands;
    out := [];
    ghost var all := UpTo(c.Rest(), c.high);
    var more := c.HasNext();
    assert out + all == all;
    while more
      invariant c.Valid() && out + UpTo(c.Rest(), c.high) == all
      invariant more == (c.Rest() != [] && Below(c.Rest()[0].key, c.high))
      invariant more ==> c.curr != null && c.curr.Valid() && c.currIdx < c.curr.nkeys
      decreases |c.Rest()| + if more then 1 else 0
    {
      var e := c.Next();
      UpToStep(out, e, c.Rest(), c.high);
      out := out + [e];
      more := c.HasNext();
    }
    UpToEnd(c.Rest(), c.high);
    assert out + [] == out;
  }

  /** FindRange followed by the whole iteration. */
  method Scan<V(0, !new)>(tree: BPlusTree<V>, low: Bound, high: Bound) returns (out: seq<Entry<V>>)
    requires tree.Valid() && (tree.degree == 2 ==> NoneEmpty(Leaves(tree.t)))
    ensures Shaped(tree.t, tree.h)
    ensures out == InRange(Items(Leaves(tree.t)), low, high)
       <==> Starts(tree.t, tree.h, low) || InRange(Items(Leaves(tree.t)), low, high) == []
  {
    hide InRange, UpTo, StartOf, Starts, Items, Leaves, Stands, Good;
    TreeFacts(tree);
    var c := new RangeCursor(tree, low, high);
    out := Drain(c);
    ScanIsExactWhen(tree.t, tree.h, low, high);
  }
}
