/** Why the degree of the B+ tree must be odd: with an even degree, ascending insertions make an
    inner node that is too small, one deletion then merges two inner nodes into one that is too
    large, and a later insertion writes past its array (b+tree.go, lines 372-388 and 449-463). */
module BTreeDegree {
  import opened BTree
  import opened BTreeBody
  import opened BTreeInsert
  import opened BTreeDelete
  import opened BTreeMap

  // ----- histories

  ghost predicate Reached<V(!new)>(deg: nat, s: State<V>, ops: seq<Op<V>>) {
    exists states :: History(states, ops, deg) && states[|ops|] == s
  }

  lemma ReachedStep<V(!new)>(deg: nat, s: State<V>, ops: seq<Op<V>>, op: Op<V>, s': State<V>)
    requires Reached(deg, s, ops) && Does(s, op, s', deg)
    ensures Reached(deg, s', ops + [op])
  {
    hide Does, EmptyState;
    var states :| History(states, ops, deg) && states[|ops|] == s;
    var more, ops' := states + [s'], ops + [op];
    forall i | 0 <= i < |ops'| ensures Does(more[i], ops'[i], more[i + 1], deg) {
      if i < |ops| { assert Does(states[i], ops[i], states[i + 1], deg); }
    }
    assert History(more, ops', deg) && more[|ops'|] == s';
  }

  /** Insertions of 0, 1, ..., n - 1. */
  function Ascend<V>(n: nat, v: V): seq<Op<V>> {
    if n == 0 then [] else Ascend(n - 1, v) + [InsertOp(n - 1, v)]
  }

  // ----- trees that grow at their right end

  ghost predicate AllUnder(keys: seq<int>, n: int) {
    forall i :: 0 <= i < |keys| ==> keys[i] < n
  }

  ghost predicate EntriesUnder<V>(es: seq<Entry<V>>, n: int) {
    forall i :: 0 <= i < |es| ==> es[i].key < n
  }

  ghost predicate AllLeaf<V>(kids: seq<Tree<V>>) {
    forall i :: 0 <= i < |kids| ==> kids[i].Leaf?
  }

  /** A node above leaves, with all separators and the last leaf's keys below `n`. */
  ghost predicate Row<V>(t: Tree<V>, n: int, m: nat, c: nat) {
    && t.Node? && |t.keys| == m && |t.kids| == m + 1 && AllUnder(t.keys, n) && AllLeaf(t.kids)
    && |t.kids[m].leaf.entries| == c && EntriesUnder(t.kids[m].leaf.entries, n)
  }

  lemma RowShaped<V>(t: Tree<V>, n: int, m: nat, c: nat)
    requires Row(t, n, m, c)
    ensures Shaped(t, 1) && Route(t.keys, n) == m
  {}

  lemma PutLast<V>(es: seq<Entry<V>>, n: int, v: V)
    requires EntriesUnder(es, n)
    ensures !Holds(es, LowerBound(es, n), n) && Put(es, n, v) == es + [Entry(n, v)] && Remove(es, n) == es
    ensures EntriesUnder(es + [Entry(n, v)], n + 1)
  {
    hide LowerBound;
    BoundUnique(es, n, |es|);
    assert es[..|es|] == es && es[|es|..] == [];
  }

  /** A leaf takes a new greatest key. */
  lemma LeafTakes<V>(l: LeafRec<V>, deg: nat, n: int, v: V, newId: nat)
    requires deg >= 2 && EntriesUnder(l.entries, n) && |l.entries| < deg
    ensures var r, es := LeafInsert(l, deg, n, v, newId).0, l.entries + [Entry(n, v)];
            && EntriesUnder(es, n + 1)
            && (|es| < deg ==> r == Same(Leaf(LeafRec(l.id, es))))
            && (|es| == deg ==> r == Split(Leaf(LeafRec(l.id, es[..deg / 2])), es[deg / 2].key,
              Leaf(LeafRec(newId, es[deg / 2..]))))
  {
    hide LowerBound, Put;
    PutLast(l.entries, n, v);
  }

  lemma InsertInRow<V>(t: Tree<V>, deg: nat, n: int, v: V, newId: nat, m: nat, c: nat)
    requires deg >= 2 && Row(t, n, m, c) && Shaped(t, 1)
    ensures InsertKV(t, deg, n, v, newId, 1).0 == TakeChild(t.keys, t.kids, m,
      LeafInsert(t.kids[m].leaf, deg, n, v, newId).0, deg)
    ensures Overflows(t, deg, n, v, newId, 1) <==>
              (c >= deg || (LeafInsert(t.kids[m].leaf, deg, n, v, newId).0.Split? && m >= deg))
  {
    hide LeafInsert, TakeChild, LowerBound;
    RowShaped(t, n, m, c);
    PutLast(t.kids[m].leaf.entries, n, v);
  }

  /** The last leaf has room. */
  lemma RowFills<V>(t: Tree<V>, deg: nat, n: int, v: V, newId: nat, m: nat, c: nat)
    requires deg >= 2 && Row(t, n, m, c) && Shaped(t, 1) && c + 1 < deg
    ensures var r := InsertKV(t, deg, n, v, newId, 1).0;
            r.Same? && Row(r.t, n + 1, m, c + 1) && !Overflows(t, deg, n, v, newId, 1)
  {
    hide LeafInsert, InsertKV, Overflows;
    InsertInRow(t, deg, n, v, newId, m, c);
    LeafTakes(t.kids[m].leaf, deg, n, v, newId);
  }

  lemma RowGrows<V>(t: Tree<V>, deg: nat, n: int, v: V, newId: nat, m: nat, c: nat)
    returns (keys: seq<int>, kids: seq<Tree<V>>)
    requires deg >= 2 && Row(t, n, m, c) && Shaped(t, 1) && c + 1 == deg
    ensures Row(Node(keys, kids), n + 1, m + 1, deg - deg / 2)
    ensures InsertKV(t, deg, n, v, newId, 1).0 == SplitNode(keys, kids, deg)
    ensures Overflows(t, deg, n, v, newId, 1) <==> m >= deg
  {
    hide LeafInsert, InsertKV, Overflows, SplitNode;
    InsertInRow(t, deg, n, v, newId, m, c);
    LeafTakes(t.kids[m].leaf, deg, n, v, newId);
    var r := LeafInsert(t.kids[m].leaf, deg, n, v, newId).0;
    keys, kids := InsertAt(t.keys, m, r.sep), t.kids[..m] + [r.left, r.right] + t.kids[m + 1..];
    assert keys == t.keys + [r.sep] && kids == t.kids[..m] + [r.left, r.right];
  }

  // ----- states

  ghost predicate InRow<V>(s: State<V>, n: int, m: nat, c: nat) {
    s.h == 1 && Row(s.t, n, m, c) && Shaped(s.t, 1)
  }

  /** Two inner nodes, the right one a key too small if the degree is even. */
  ghost predicate Tall<V>(s: State<V>, deg: nat, n: int) {
    && deg >= 2 && s.h == 2 && s.t.Node? && |s.t.keys| == 1 && |s.t.kids| == 2 && Shaped(s.t, 2)
    && AllUnder(s.t.keys, n)
    && s.t.kids[0].Node? && |s.t.kids[0].keys| == deg / 2 && |s.t.kids[0].kids| == deg / 2 + 1
    && AllUnder(s.t.kids[0].keys, n) && AllLeaf(s.t.kids[0].kids)
    && Row(s.t.kids[1], n, deg - deg / 2 - 1, deg - deg / 2)
  }

  lemma FillStep<V>(s: State<V>, deg: nat, v: V, n: int, m: nat, c: nat)
    requires deg >= 2 && InRow(s, n, m, c) && c + 1 < deg
    ensures Does(s, InsertOp(n, v), DoInsert(s, deg, n, v), deg) && InRow(DoInsert(s, deg, n, v), n + 1, m, c + 1)
  {
    hide InsertKV, Overflows, Row, Relink;
    RowFills(s.t, deg, n, v, s.nextId, m, c);
    RowShaped(DoInsert(s, deg, n, v).t, n + 1, m, c + 1);
  }

  lemma GrowStep<V>(s: State<V>, deg: nat, v: V, n: int, m: nat, c: nat)
    requires deg >= 2 && InRow(s, n, m, c) && c + 1 == deg && m + 1 < deg
    ensures Does(s, InsertOp(n, v), DoInsert(s, deg, n, v), deg)
    ensures InRow(DoInsert(s, deg, n, v), n + 1, m + 1, deg - deg / 2)
  {
    hide InsertKV, Overflows, Relink;
    var keys, kids := RowGrows(s.t, deg, n, v, s.nextId, m, c);
    RowShaped(Node(keys, kids), n + 1, m + 1, deg - deg / 2);
  }

  lemma SplitStep<V>(s: State<V>, deg: nat, v: V, n: int, m: nat, c: nat)
    requires deg >= 2 && InRow(s, n, m, c) && c + 1 == deg && m + 1 == deg
    ensures Does(s, InsertOp(n, v), DoInsert(s, deg, n, v), deg) && Tall(DoInsert(s, deg, n, v), deg, n + 1)
  {
    hide InsertKV, Overflows, Relink;
    var keys, kids := RowGrows(s.t, deg, n, v, s.nextId, m, c);
    SplitIsTall(keys, kids, deg, n + 1);
  }

  lemma SplitIsTall<V>(keys: seq<int>, kids: seq<Tree<V>>, deg: nat, n: int)
    requires deg >= 2 && Row(Node(keys, kids), n, deg, deg - deg / 2)
    ensures var r := SplitNode(keys, kids, deg);
            && r.Split? && r.sep < n
            && r.left.Node? && |r.left.keys| == deg / 2 && |r.left.kids| == deg / 2 + 1
            && AllUnder(r.left.keys, n) && AllLeaf(r.left.kids) && Row(r.right, n, deg - deg / 2 - 1, deg - deg / 2)
            && Shaped(r.left, 1) && Shaped(r.right, 1) && Shaped(Node([r.sep], [r.left, r.right]), 2)
  {
    var r := SplitNode(keys, kids, deg);
    var top := Node([r.sep], [r.left, r.right]);
    assert Shaped(r.left, 1) && Shaped(r.right, 1);
    forall i | 0 <= i < |top.kids| ensures Shaped(top.kids[i], 1) {}
  }

  lemma LeafStep<V>(s: State<V>, deg: nat, v: V, n: nat)
    requires deg >= 2 && s.h == 0 && s.t.Leaf? && |s.t.leaf.entries| == n < deg && EntriesUnder(s.t.leaf.entries, n)
    ensures var s' := DoInsert(s, deg, n, v);
            && Does(s, InsertOp(n, v), s', deg)
            && (n + 1 < deg ==>
                  && s'.h == 0 && s'.t.Leaf? && |s'.t.leaf.entries| == n + 1
                  && EntriesUnder(s'.t.leaf.entries, n + 1))
            && (n + 1 == deg ==> InRow(s', deg, 1, deg - deg / 2))
  {
    hide LeafInsert, Relink, LowerBound;
    LeafTakes(s.t.leaf, deg, n, v, s.nextId);
  }

  // ----- the climb

  lemma {:induction false} FirstLeaf<V(!new)>(deg: nat, v: V, n: nat) returns (s: State<V>)
    requires deg >= 2 && n <= deg
    ensures Reached(deg, s, Ascend(n, v))
    ensures n < deg ==> s.h == 0 && s.t.Leaf? && |s.t.leaf.entries| == n && EntriesUnder(s.t.leaf.entries, n)
    ensures n == deg ==> InRow(s, deg, 1, deg - deg / 2)
  {
    hide Does, DoInsert, InRow, Reached;
    if n == 0 {
      s := EmptyState<V>();
      Start<V>(deg);
    } else {
      s := FirstLeaf(deg, v, n - 1);
      LeafStep(s, deg, v, n - 1);
      ReachedStep(deg, s, Ascend(n - 1, v), InsertOp(n - 1, v), DoInsert(s, deg, n - 1, v));
      s := DoInsert(s, deg, n - 1, v);
    }
  }

  lemma Start<V(!new)>(deg: nat)
    requires deg >= 2
    ensures Reached<V>(deg, EmptyState<V>(), [])
  {
    assert History([EmptyState<V>()], [], deg);
  }

  /** The insertions still to come before an inner node splits, for an even degree. */
  function Left(deg: nat, m: nat, c: nat): int {
    (deg - c) + (deg - 1 - m) * (deg / 2)
  }

  lemma LeftAfterSplit(deg: nat, m: nat)
    requires deg % 2 == 0 && m + 1 < deg
    ensures Left(deg, m, deg - 1) == 1 + Left(deg, m + 1, deg - deg / 2)
  {
    var w := deg / 2;
    assert (deg - 1 - m) * w == (deg - 1 - (m + 1)) * w + w;
  }

  lemma LeftLast(deg: nat)
    requires deg >= 2
    ensures Left(deg, deg - 1, deg - 1) == 1
  {}

  lemma {:induction false} Climb<V(!new)>(s: State<V>, deg: nat, v: V, n: nat, m: nat, c: nat)
      returns (s': State<V>, n': nat)
    requires deg >= 2 && deg % 2 == 0 && InRow(s, n, m, c) && m < deg && c < deg && Reached(deg, s, Ascend(n, v))
    ensures n' == n + Left(deg, m, c) && Tall(s', deg, n') && Reached(deg, s', Ascend(n', v))
    decreases deg - m, deg - c
  {
    hide Does, DoInsert, Row, Reached, Tall, Left;
    s' := DoInsert(s, deg, n, v);
    if c + 1 < deg {
      FillStep(s, deg, v, n, m, c);
      ReachedStep(deg, s, Ascend(n, v), InsertOp(n, v), s');
      LeftFills(deg, m, c);
      s', n' := Climb(s', deg, v, n + 1, m, c + 1);
    } else if m + 1 < deg {
      GrowStep(s, deg, v, n, m, c);
      ReachedStep(deg, s, Ascend(n, v), InsertOp(n, v), s');
      LeftAfterSplit(deg, m);
      s', n' := Climb(s', deg, v, n + 1, m + 1, deg - deg / 2);
    } else {
      SplitStep(s, deg, v, n, m, c);
      ReachedStep(deg, s, Ascend(n, v), InsertOp(n, v), s');
      LeftLast(deg);
      n' := n + 1;
    }
  }

  lemma LeftFills(deg: nat, m: nat, c: nat)
    ensures Left(deg, m, c) == 1 + Left(deg, m, c + 1)
  {}

  lemma Total(deg: nat)
    requires deg >= 2 && deg % 2 == 0
    ensures deg + Left(deg, 1, deg - deg / 2) == deg + (deg - 1) * (deg / 2)
  {
    var w := deg / 2;
    assert (deg - 1) * w == (deg - 2) * w + w;
  }

  lemma TallIsNotGood<V>(s: State<V>, deg: nat, n: int)
    requires deg >= 2 && deg % 2 == 0 && Tall(s, deg, n)
    ensures !Good(s, deg)
  {
    RightSize(s.t, deg);
  }

  lemma RightSize<V>(t: Tree<V>, deg: nat)
    requires t.Node? && |t.kids| == 2
    ensures RootOk(t, 2, deg) ==> Size(t.kids[1]) >= deg / 2
  {
    if RootOk(t, 2, deg) {
      NodeBody(t.keys, t.kids, 2, deg, Unbounded, Unbounded, RootMin(2, deg));
      OkAt(t.keys, t.kids, 1, deg, Unbounded, Unbounded, 1);
    }
  }

  /** With an even degree the insertions 0, 1, ..., deg + (deg - 1) * deg / 2 - 1 end in a tree with
      an inner node that is too small. */
  lemma EvenDegreeUnderflows<V(!new)>(deg: nat, v: V) returns (s: State<V>, n: nat)
    requires deg >= 2 && deg % 2 == 0
    ensures n == deg + (deg - 1) * (deg / 2) && Reached(deg, s, Ascend(n, v)) && Tall(s, deg, n) && !Good(s, deg)
  {
    hide Reached, Tall, InRow, Good;
    s := FirstLeaf(deg, v, deg);
    s, n := Climb(s, deg, v, deg, 1, deg - deg / 2);
    Total(deg);
    TallIsNotGood(s, deg, n);
  }

  /** Ten insertions are enough for degree 4. */
  lemma DegreeFour() returns (s: State<int>)
    ensures Reached(4, s, Ascend(10, 0)) && !Good(s, 4)
  {
    hide Reached, Good, Tall;
    var n;
    s, n := EvenDegreeUnderflows(4, 0);
  }

  // ----- one deletion, and on to the end of the array

  /** Deleting a key that is not there merges the two inner nodes into one with deg keys. */
  lemma MergeStep<V>(s: State<V>, deg: nat, n: int)
    requires deg >= 2 && deg % 2 == 0 && Tall(s, deg, n)
    ensures var s' := DoDelete(s, deg, n); Does(s, DeleteOp(n), s', deg) && InRow(s', n, deg, deg / 2)
  {
    var left, right, x := s.t.kids[0], s.t.kids[1], s.t.keys[0];
    RightStays(right, deg, n);
    RootMerges(s.t, left, x, right, deg, n);
    MergedRow(left, x, right, deg, n);
  }

  lemma RightStays<V>(t: Tree<V>, deg: nat, n: int)
    requires deg >= 2 && deg % 2 == 0 && Row(t, n, deg - deg / 2 - 1, deg / 2) && Shaped(t, 1)
    ensures DeleteKey(t, deg, n, 1) == (t, Keep)
  {
    hide LowerBound, Remove;
    var m := deg - deg / 2 - 1;
    RowShaped(t, n, m, deg / 2);
    RemoveAbsent(t.kids[m].leaf.entries, n);
    assert DeleteKey(t.kids[m], deg, n, 0) == (t.kids[m], Keep);
    assert t.kids[m := t.kids[m]] == t.kids;
  }

  lemma RemoveAbsent<V>(es: seq<Entry<V>>, n: int)
    requires EntriesUnder(es, n)
    ensures Remove(es, n) == es
  {
    hide LowerBound;
  }

  lemma RootMerges<V>(t: Tree<V>, left: Tree<V>, x: int, right: Tree<V>, deg: nat, n: int)
    requires deg >= 2 && deg % 2 == 0 && t == Node([x], [left, right]) && x < n && Shaped(t, 2)
    requires left.Node? && right.Node? && Matched(left) && Matched(right) && Shaped(right, 1)
    requires |left.keys| == deg / 2 && |right.keys| == deg / 2 - 1 && DeleteKey(right, deg, n, 1) == (right, Keep)
    ensures DeleteKey(t, deg, n, 2) == (Node([], [Node(left.keys + [x] + right.keys, left.kids + right.kids)]), Keep)
  {
    hide DeleteKey;
    assert Route([x], n) == 1;
    var kids := [left, right];
    assert kids[1 := right] == kids;
    assert kids[..0] + [Node(left.keys + [x] + right.keys,
      left.kids + right.kids)] + kids[2..] == [Node(left.keys + [x] + right.keys, left.kids + right.kids)];
    assert RemoveAt([x], 0) == [];
    DeleteUnfolds(t, deg, n);
  }

  lemma DeleteUnfolds<V>(t: Tree<V>, deg: nat, n: int)
    requires deg >= 2 && Shaped(t, 2) && |t.kids| == 2 && Route(t.keys, n) == 1
    ensures var (c, ev) := DeleteKey(t.kids[1], deg, n, 1);
            Uniform(t.kids[1 := c]) && DeleteKey(t, deg, n, 2) == Settle(t.keys, t.kids[1 := c], 1, ev, deg)
  {
    var (c, ev) := DeleteKey(t.kids[1], deg, n, 1);
    StillUniform(t.kids, 1, c, 1);
  }

  lemma MergedRow<V>(left: Tree<V>, x: int, right: Tree<V>, deg: nat, n: int)
    requires deg >= 2 && deg % 2 == 0 && left.Node? && |left.keys| == deg / 2 && |left.kids| == deg / 2 + 1
    requires AllUnder(left.keys, n) && AllLeaf(left.kids) && x < n && Row(right, n, deg / 2 - 1, deg / 2)
    ensures var t := Node(left.keys + [x] + right.keys, left.kids + right.kids); Row(t, n, deg, deg / 2) && Shaped(t, 1)
  {
    var t := Node(left.keys + [x] + right.keys, left.kids + right.kids);
    assert t.kids[deg] == right.kids[deg / 2 - 1];
  }

  /** From a row that is full, insertions go on until its last leaf splits; then there is no room. */
  lemma {:induction false} RunOut<V(!new)>(s: State<V>, deg: nat, v: V, n: int, c: nat, ops: seq<Op<V>>)
    returns (s': State<V>, ops': seq<Op<V>>, k: int)
    requires deg >= 2 && InRow(s, n, deg, c) && c < deg && Reached(deg, s, ops)
    ensures Reached(deg, s', ops') && Shaped(s'.t, s'.h) && Overflows(s'.t, deg, k, v, s'.nextId, s'.h)
    decreases deg - c
  {
    hide Does, DoInsert, Reached, Overflows, Row;
    if c + 1 < deg {
      FillStep(s, deg, v, n, deg, c);
      ReachedStep(deg, s, ops, InsertOp(n, v), DoInsert(s, deg, n, v));
      s', ops', k := RunOut(DoInsert(s, deg, n, v), deg, v, n + 1, c + 1, ops + [InsertOp(n, v)]);
    } else {
      var keys, kids := RowGrows(s.t, deg, n, v, s.nextId, deg, c);
      s', ops', k := s, ops, n;
    }
  }

  /** With an even degree some insertion writes past the end of an array. */
  lemma EvenDegreeOverflows<V(!new)>(deg: nat, v: V) returns (s: State<V>, ops: seq<Op<V>>, k: int)
    requires deg >= 2 && deg % 2 == 0
    ensures Reached(deg, s, ops) && Shaped(s.t, s.h) && Overflows(s.t, deg, k, v, s.nextId, s.h)
  {
    hide Reached, Tall, InRow, Good, Does, DoDelete, Overflows;
    var n;
    s, n := EvenDegreeUnderflows(deg, v);
    MergeStep(s, deg, n);
    ReachedStep(deg, s, Ascend(n, v), DeleteOp(n), DoDelete(s, deg, n));
    s, ops, k := RunOut(DoDelete(s, deg, n), deg, v, n, deg / 2, Ascend(n, v) + [DeleteOp(n)]);
  }

  // ----- exactly the odd degrees

  /** The nodes keep their sizes in every history if and only if the degree is odd. */
  lemma ShapeNeedsOddDegree<V(!new)>(deg: nat, v: V)
    requires deg >= 2
    ensures deg % 2 == 1 <==>
              forall states: seq<State<V>>, ops: seq<Op<V>> :: History(states, ops, deg) ==> Good(states[|ops|], deg)
  {
    hide Good, Does, EmptyState, Overflows;
    if deg % 2 == 1 {
      forall states: seq<State<V>>, ops: seq<Op<V>> | History(states, ops, deg) ensures Good(states[|ops|], deg) {
        OddDegreeKeepsShape(states, ops, deg, 0, v);
      }
    } else {
      var s, n := EvenDegreeUnderflows(deg, v);
      var states :| History(states, Ascend(n, v), deg) && states[|Ascend(n, v)|] == s;
    }
  }

  ghost predicate StopsAt<V>(s: State<V>, deg: nat, k: int, v: V) {
    deg >= 2 && Shaped(s.t, s.h) && Overflows(s.t, deg, k, v, s.nextId, s.h)
  }

  /** No insertion runs out of its arrays in any history if and only if the degree is odd. */
  lemma RoomNeedsOddDegree<V(!new)>(deg: nat, v: V)
    requires deg >= 2
    ensures deg % 2 == 1 <==>
              forall states: seq<State<V>>, ops: seq<Op<V>>, k :: History(states, ops, deg) ==>
                !StopsAt(states[|ops|], deg, k, v)
  {
    hide Good, Does, EmptyState, Overflows;
    if deg % 2 == 1 {
      forall states: seq<State<V>>, ops: seq<Op<V>>, k | History(states, ops, deg)
        ensures !StopsAt(states[|ops|], deg, k, v) {
        OddDegreeKeepsShape(states, ops, deg, k, v);
      }
    } else {
      var s, ops, k := EvenDegreeOverflows(deg, v);
      var states :| History(states, ops, deg) && states[|ops|] == s;
      assert StopsAt(states[|ops|], deg, k, v);
    }
  }
}
