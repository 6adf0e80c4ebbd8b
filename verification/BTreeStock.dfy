/** With which degrees no leaf of several is ever empty (b+tree.go, lines 319-349 and 458-463). The
    range iterator relies on it: it steps over one exhausted leaf only. */
module BTreeStock {
  import opened BTree
  import opened BTreeInsert
  import opened BTreeDelete
  import opened BTreeMap
  import BTreeDegree

  /** Every leaf has an entry and every inner node a separator. */
  ghost predicate Stocked<V>(t: Tree<V>)
    decreases t
  {
    match t
    case Leaf(l) => l.entries != []
    case Node(keys, kids) => keys != [] && forall i :: 0 <= i < |kids| ==> Stocked(kids[i])
  }

  /** As Stocked, but the node itself may have run out. */
  ghost predicate StockedBelow<V>(t: Tree<V>) {
    t.Node? ==> forall i :: 0 <= i < |t.kids| ==> Stocked(t.kids[i])
  }

  ghost predicate RootStocked<V>(t: Tree<V>) {
    t.Node? ==> Stocked(t)
  }

  ghost predicate InsertedStocked<V>(r: Inserted<V>) {
    match r
    case Same(t) => Stocked(t)
    case Split(left, _, right) => Stocked(left) && Stocked(right)
  }

  lemma LeafStocked<V>(l: LeafRec<V>, deg: nat, k: int, v: V, newId: nat)
    requires deg >= 2
    ensures InsertedStocked(LeafInsert(l, deg, k, v, newId).0)
  {
    hide LowerBound;
  }

  lemma TakeChildStocked<V>(keys: seq<int>, kids: seq<Tree<V>>, i: nat, r: Inserted<V>, deg: nat)
    requires deg >= 3 && |kids| == |keys| + 1 && i < |kids| && Stocked(Node(keys, kids)) && InsertedStocked(r)
    ensures InsertedStocked(TakeChild(keys, kids, i, r, deg))
  {}

  lemma {:induction false} InsertStocked<V>(t: Tree<V>, deg: nat, k: int, v: V, newId: nat, h: nat)
    requires deg >= 3 && Shaped(t, h) && RootStocked(t)
    ensures InsertedStocked(InsertKV(t, deg, k, v, newId, h).0) && RootStocked(Insert(t, deg, k, v, newId, h).0)
    decreases h
  {
    hide LeafInsert, TakeChild, Route;
    match t {
      case Leaf(l) => LeafStocked(l, deg, k, v, newId);
      case Node(keys, kids) =>
        var i := Route(keys, k);
        InsertStocked(kids[i], deg, k, v, newId, h - 1);
        TakeChildStocked(keys, kids, i, InsertKV(kids[i], deg, k, v, newId, h - 1).0, deg);
    }
  }

  lemma StealRightStocked<V>(p: Pair<V>, deg: nat)
    requires Alike(p) && deg >= 2 && StockedBelow(p.a) && Stocked(p.b) && Size(p.b) > deg / 2
    ensures Stocked(StealFromRight(p).a) && Stocked(StealFromRight(p).b)
  {}

  lemma StealLeftStocked<V>(p: Pair<V>, deg: nat)
    requires Alike(p) && deg >= 2 && Stocked(p.a) && StockedBelow(p.b) && Size(p.a) > deg / 2
    ensures Stocked(StealFromLeft(p).a) && Stocked(StealFromLeft(p).b)
  {
    hide LowerBound;
  }

  lemma MergeStocked<V>(p: Pair<V>)
    requires Alike(p) && StockedBelow(p.a) && StockedBelow(p.b) && (Stocked(p.a) || Stocked(p.b))
    ensures Stocked(MergeWithRight(p).0)
  {}

  /** The node after a repair next to child `i`. */
  lemma RefillStocked<V>(keys: seq<int>, kids: seq<Tree<V>>, i: nat, deg: nat)
    requires deg >= 2 && |kids| == |keys| + 1 && i < |kids| && Uniform(kids) && keys != [] && StockedBelow(kids[i])
    requires forall j :: 0 <= j < |kids| && j != i ==> Stocked(kids[j])
    ensures StockedBelow(Refill(keys, kids, i, deg).0)
  {
    hide StealFromRight, StealFromLeft, MergeWithRight;
    if i < |keys| && Size(kids[i + 1]) > deg / 2 {
      StealRightStocked(PairAt(keys, kids, i), deg);
    } else if i > 0 && Size(kids[i - 1]) > deg / 2 {
      StealLeftStocked(PairAt(keys, kids, i - 1), deg);
    } else if i < |keys| {
      MergeStocked(PairAt(keys, kids, i));
    } else {
      MergeStocked(PairAt(keys, kids, i - 1));
    }
  }

  lemma {:induction false} DeleteStocked<V>(t: Tree<V>, deg: nat, k: int, h: nat)
    requires deg >= 2 && Shaped(t, h) && RootStocked(t)
    ensures StockedBelow(DeleteKey(t, deg, k, h).0) && RootStocked(Delete(t, deg, k, h).0)
    decreases h
  {
    hide Refill, Route;
    if t.Node? {
      var i := Route(t.keys, k);
      var (c, ev) := DeleteKey(t.kids[i], deg, k, h - 1);
      DeleteStocked(t.kids[i], deg, k, h - 1);
      StillUniform(t.kids, i, c, h - 1);
      RefillStocked(t.keys, t.kids[i := c], i, deg);
    }
  }

  // ----- over all histories

  ghost predicate NoneEmpty<V>(ls: seq<LeafRec<V>>) {
    |ls| == 1 || forall i :: 0 <= i < |ls| ==> ls[i].entries != []
  }

  lemma {:induction false} LeavesStocked<V>(t: Tree<V>)
    requires Stocked(t)
    ensures forall i :: 0 <= i < |Leaves(t)| ==> Leaves(t)[i].entries != []
    decreases t, 0
  {
    if t.Node? { AllLeavesStocked(t.kids); }
  }

  lemma {:induction false} AllLeavesStocked<V>(kids: seq<Tree<V>>)
    requires forall i :: 0 <= i < |kids| ==> Stocked(kids[i])
    ensures forall i :: 0 <= i < |AllLeaves(kids)| ==> AllLeaves(kids)[i].entries != []
    decreases kids, 1
  {
    hide Leaves, Stocked;
    if kids != [] {
      LeavesStocked(kids[0]);
      AllLeavesStocked(kids[1..]);
    }
  }

  lemma StockedNoneEmpty<V>(t: Tree<V>)
    requires RootStocked(t)
    ensures NoneEmpty(Leaves(t))
  {
    hide AllLeaves;
    if t.Node? { LeavesStocked(t); }
  }

  lemma {:induction false} HistoryStocked<V(!new)>(states: seq<State<V>>, ops: seq<Op<V>>, deg: nat)
    requires History(states, ops, deg) && deg >= 3
    ensures RootStocked(states[|ops|].t)
  {
    hide Insert, InsertKV, Delete, DeleteKey, Stocked, Overflows, Relink;
    if ops != [] {
      var n := |ops| - 1;
      HistoryStocked(states[..n + 1], ops[..n], deg);
      assert Does(states[n], ops[n], states[n + 1], deg);
      match ops[n] {
        case InsertOp(k, v) => InsertStocked(states[n].t, deg, k, v, states[n].nextId, states[n].h);
        case DeleteOp(k) => DeleteStocked(states[n].t, deg, k, states[n].h);
      }
    }
  }

  // ----- degree 2

  /** Three insertions leave an inner node without separators over a leaf with one entry. */
  ghost predicate Lone<V>(t: Tree<V>, left: Tree<V>, x: int, e: Entry<V>, id: nat) {
    && t == Node([x], [left, Node([], [Leaf(LeafRec(id, [e]))])]) && x <= e.key
    && left.Node? && |left.keys| == 1 && |left.kids| == 2 && left.kids[0].Leaf? && left.kids[1].Leaf?
  }

  lemma LoneReached<V(!new)>(v: V) returns (s: State<V>, left: Tree<V>, x: int, e: Entry<V>, id: nat)
    ensures BTreeDegree.Reached(2, s, BTreeDegree.Ascend(3, v)) && s.h == 2 && Shaped(s.t, 2)
    ensures Lone(s.t, left, x, e, id)
  {
    hide BTreeDegree.Ascend, BTreeDegree.Reached, Good;
    var n;
    s, n := BTreeDegree.EvenDegreeUnderflows(2, v);
    ReachedOrdered(2, s, BTreeDegree.Ascend(3, v));
    var right := s.t.kids[1];
    left, x := s.t.kids[0], s.t.keys[0];
    e, id := right.kids[0].leaf.entries[0], right.kids[0].leaf.id;
    assert s.t.kids == [left, right] && s.t.keys == [x] && right.keys == [] && right.kids == [right.kids[0]];
    assert right.kids[0].leaf.entries == [e];
    NodeBody(s.t.keys, s.t.kids, 2, 0, Unbounded, Unbounded, 0);
    OkAt(s.t.keys, s.t.kids, 1, 0, Unbounded, Unbounded, 1);
    NodeBody(right.keys, right.kids, 1, 0, At(x), Unbounded, 0);
    OkAt(right.keys, right.kids, 0, 0, At(x), Unbounded, 0);
  }

  lemma ReachedOrdered<V(!new)>(deg: nat, s: State<V>, ops: seq<Op<V>>)
    requires BTreeDegree.Reached(deg, s, ops)
    ensures RootOk(s.t, s.h, 0)
  {
    hide Does, EmptyState, Good;
    var states :| History(states, ops, deg) && states[|ops|] == s;
    TreeRefinesMap(states, ops, deg);
    GoodRoot(s, 0);
  }

  /** Deleting that entry leaves its leaf empty beside two others. */
  lemma LoneEmptied<V>(t: Tree<V>, left: Tree<V>, x: int, e: Entry<V>, id: nat)
    requires Lone(t, left, x, e, id) && Shaped(t, 2)
    ensures Delete(t, 2, e.key, 2).0 == Node(left.keys + [x], left.kids + [Leaf(LeafRec(id, []))])
  {
    hide LowerBound;
    var right := Node([], [Leaf(LeafRec(id, [e]))]);
    var gone: Tree<V> := Leaf(LeafRec(id, []));
    assert [e][0] == e && LowerBound([e], e.key) == 0;
    assert RemoveAt([e], 0) == [];
    assert DeleteKey(right.kids[0], 2, e.key, 0) == (gone, Keep);
    assert right.kids[0 := gone] == [gone];
    assert DeleteKey(right, 2, e.key, 1) == (Node([], [gone]), Keep);
    assert Route(t.keys, e.key) == 1;
    assert t.kids[1 := Node([], [gone])] == [left, Node([], [gone])];
    assert left.keys + [x] + [] == left.keys + [x];
    assert RemoveAt([x], 0) == [];
  }

  lemma DegreeTwo<V(!new)>(v: V) returns (s: State<V>, ops: seq<Op<V>>)
    ensures BTreeDegree.Reached(2, s, ops) && !NoneEmpty(Leaves(s.t))
  {
    hide BTreeDegree.Reached, BTreeDegree.Ascend, Delete, Relink;
    var s0, left, x, e, id := LoneReached(v);
    LoneEmptied(s0.t, left, x, e, id);
    s, ops := DoDelete(s0, 2, e.key), BTreeDegree.Ascend(3, v) + [DeleteOp(e.key)];
    BTreeDegree.ReachedStep(2, s0, BTreeDegree.Ascend(3, v), DeleteOp(e.key), s);
    ThreeLeaves(left.kids, Leaf(LeafRec(id, [])));
    assert Leaves(s.t) == AllLeaves(left.kids + [Leaf(LeafRec(id, []))]);
    assert |Leaves(s.t)| == 3 && Leaves(s.t)[2].entries == [];
  }

  lemma ThreeLeaves<V>(kids: seq<Tree<V>>, last: Tree<V>)
    requires |kids| == 2 && kids[0].Leaf? && kids[1].Leaf? && last.Leaf?
    ensures AllLeaves(kids + [last]) == [kids[0].leaf, kids[1].leaf, last.leaf]
  {
    LeavesConcat(kids, [last]);
    LeavesOne(last);
    assert kids == [kids[0], kids[1]];
    LeavesTwo(kids[0], kids[1]);
  }

  /** No leaf of several is empty in any history if and only if the degree is at least 3. */
  lemma ScanNeedsDegreeThree<V(!new)>(deg: nat, v: V)
    requires deg >= 2
    ensures deg >= 3 <==>
              forall states: seq<State<V>>, ops: seq<Op<V>> :: History(states, ops, deg) ==>
                NoneEmpty(Leaves(states[|ops|].t))
  {
    hide Does, EmptyState, NoneEmpty, RootStocked;
    if deg >= 3 {
      forall states: seq<State<V>>, ops: seq<Op<V>> | History(states, ops, deg)
        ensures NoneEmpty(Leaves(states[|ops|].t))
      {
        HistoryStocked(states, ops, deg);
        StockedNoneEmpty(states[|ops|].t);
      }
    } else {
      var s, ops := DegreeTwo(v);
      var states :| History(states, ops, deg) && states[|ops|] == s;
    }
  }
}
