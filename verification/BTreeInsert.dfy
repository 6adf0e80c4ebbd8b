/** Insertion into the B+ tree, with splits (b+tree.go, lines 111-155, 436-483 and 545-556). */
module BTreeInsert {
  import opened BTree
  import opened BTreeBody

  datatype Inserted<V> =
    | Same(t: Tree<V>)
    | Split(left: Tree<V>, sep: int, right: Tree<V>)

  /** A leaf with an entry too many splits; the new right half gets the fresh id. */
  function SplitLeaf<V>(id: nat, es: seq<Entry<V>>, deg: nat, newId: nat): (Inserted<V>, Event)
    requires deg >= 2
  {
    if |es| == deg then
      (Split(Leaf(LeafRec(id, es[..deg / 2])), es[deg / 2].key, Leaf(LeafRec(newId, es[deg / 2..]))), Added(id, newId))
    else (Same(Leaf(LeafRec(id, es))), Keep)
  }

  function LeafInsert<V>(l: LeafRec<V>, deg: nat, k: int, v: V, newId: nat): (Inserted<V>, Event)
    requires deg >= 2
  {
    if Holds(l.entries, LowerBound(l.entries, k), k) then (Same(Leaf(LeafRec(l.id, Put(l.entries, k, v)))), Keep)
    else SplitLeaf(l.id, Put(l.entries, k, v), deg, newId)
  }

  function SplitNode<V>(keys: seq<int>, kids: seq<Tree<V>>, deg: nat): Inserted<V>
    requires deg >= 2 && |kids| == |keys| + 1
  {
    if |keys| == deg then
      Split(Node(keys[..deg / 2], kids[..deg / 2 + 1]), keys[deg / 2], Node(keys[deg / 2 + 1..], kids[deg / 2 + 1..]))
    else Same(Node(keys, kids))
  }

  /** The node after the insertion into child `i` gave `r`. */
  function TakeChild<V>(keys: seq<int>, kids: seq<Tree<V>>, i: nat, r: Inserted<V>, deg: nat): Inserted<V>
    requires deg >= 2 && |kids| == |keys| + 1 && i < |kids|
  {
    match r
    case Same(c) => Same(Node(keys, kids[i := c]))
    case Split(left, s, right) => SplitNode(InsertAt(keys, i, s), kids[..i] + [left, right] + kids[i + 1..], deg)
  }

  function InsertKV<V>(t: Tree<V>, deg: nat, k: int, v: V, newId: nat, ghost h: nat): (Inserted<V>, Event)
    requires deg >= 2 && Shaped(t, h)
    decreases t
  {
    match t
    case Leaf(l) => LeafInsert(l, deg, k, v, newId)
    case Node(keys, kids) =>
      var i := Route(keys, k);
      var (r, ev) := InsertKV(kids[i], deg, k, v, newId, h - 1);
      (TakeChild(keys, kids, i, r, deg), ev)
  }

  /** BTree.Insert: a split root gets a new root above it. */
  function Insert<V>(t: Tree<V>, deg: nat, k: int, v: V, newId: nat, ghost h: nat): (Tree<V>, Event)
    requires deg >= 2 && Shaped(t, h)
  {
    var (r, ev) := InsertKV(t, deg, k, v, newId, h);
    match r
    case Same(t') => (t', ev)
    case Split(left, s, right) => (Node([s], [left, right]), ev)
  }

  // ----- shape

  ghost predicate InsertedOk<V>(r: Inserted<V>, h: nat, cap: nat, lo: Bound, hi: Bound, min: int) {
    match r
    case Same(t) => Ok(t, h, cap, lo, hi, min)
    case Split(left, s, right) =>
      && StrictlyAbove(lo, s) && Below(s, hi)
      && Ok(left, h, cap, lo, At(s), cap / 2) && Ok(right, h, cap, At(s), hi, cap / 2)
  }

  lemma PutWithin<V>(es: seq<Entry<V>>, k: int, v: V, lo: Bound, hi: Bound)
    requires SortedEntries(es) && Within(lo, es, hi) && Above(lo, k) && Below(k, hi)
    ensures SortedEntries(Put(es, k, v)) && Within(lo, Put(es, k, v), hi)
    ensures |Put(es, k, v)| == |es| + if Holds(es, LowerBound(es, k), k) then 0 else 1
  {
    hide LowerBound;
    PutSorted(es, k, v);
  }

  lemma SplitLeafOk<V>(id: nat, es: seq<Entry<V>>, deg: nat, newId: nat, cap: nat, lo: Bound, hi: Bound, min: int)
    requires Suits(cap, deg) && SortedEntries(es) && Within(lo, es, hi) && min <= |es| && (cap > 0 ==> |es| <= deg)
    ensures InsertedOk(SplitLeaf(id, es, deg, newId).0, 0, cap, lo, hi, min)
  {
    if |es| == deg {
      assert es[0].key < es[deg / 2].key;
      assert deg - deg / 2 >= deg / 2;
    }
  }

  lemma LeafInsertOk<V>(l: LeafRec<V>, deg: nat, k: int, v: V, newId: nat, cap: nat, lo: Bound, hi: Bound, min: int)
    requires Suits(cap, deg) && Ok(Leaf(l), 0, cap, lo, hi, min) && Above(lo, k) && Below(k, hi)
    ensures InsertedOk(LeafInsert(l, deg, k, v, newId).0, 0, cap, lo, hi, min)
  {
    hide SplitLeaf, LowerBound, Put, Within, SortedEntries;
    PutWithin(l.entries, k, v, lo, hi);
    SplitLeafOk(l.id, Put(l.entries, k, v), deg, newId, cap, lo, hi, min);
  }

  lemma SplitNodeOk<V>(keys: seq<int>, kids: seq<Tree<V>>, h: nat, deg: nat, cap: nat, lo: Bound, hi: Bound, min: int)
    requires Suits(cap, deg) && Body(keys, kids, h, cap, lo, hi) && |kids| == |keys| + 1
    requires min <= |keys| && (cap > 0 ==> |keys| <= deg)
    ensures InsertedOk(SplitNode(keys, kids, deg), h + 1, cap, lo, hi, min)
  {
    hide Body;
    if |keys| == deg { BodyCut(keys, kids, h, cap, lo, hi, deg / 2); }
  }

  lemma TakeChildOk<V>(keys: seq<int>, kids: seq<Tree<V>>, i: nat, r: Inserted<V>, h: nat, deg: nat,
                       cap: nat, lo: Bound, hi: Bound, min: int)
    requires Suits(cap, deg) && Body(keys, kids, h, cap, lo, hi) && min <= |keys| && Fits(|keys|, cap) && i < |kids|
    requires |kids| == |keys| + 1 && InsertedOk(r, h, cap, LowOf(lo, keys, i), HighOf(keys, hi, i), cap / 2)
    ensures InsertedOk(TakeChild(keys, kids, i, r, deg), h + 1, cap, lo, hi, min)
  {
    hide Body, SplitNode;
    match r {
      case Same(c) => BodyReplace(keys, kids, h, cap, lo, hi, i, c);
      case Split(left, s, right) =>
        BodyGrow(keys, kids, h, cap, lo, hi, i, left, s, right);
        SplitNodeOk(InsertAt(keys, i, s), kids[..i] + [left, right] + kids[i + 1..], h, deg, cap, lo, hi, min);
    }
  }

  lemma {:induction false} InsertKVOk<V>(t: Tree<V>, deg: nat, k: int, v: V, newId: nat, h: nat,
                                         cap: nat, lo: Bound, hi: Bound, min: int)
    requires Suits(cap, deg) && Ok(t, h, cap, lo, hi, min) && Shaped(t, h) && Above(lo, k) && Below(k, hi)
    ensures InsertedOk(InsertKV(t, deg, k, v, newId, h).0, h, cap, lo, hi, min)
    decreases h
  {
    hide Body, Route, LeafInsert, TakeChild, InsertedOk;
    match t {
      case Leaf(l) => LeafInsertOk(l, deg, k, v, newId, cap, lo, hi, min);
      case Node(keys, kids) =>
        var i := Route(keys, k);
        RouteBounds(keys, kids, h - 1, cap, lo, hi, k);
        InsertKVOk(kids[i], deg, k, v, newId, h - 1, cap, LowOf(lo, keys, i), HighOf(keys, hi, i), cap / 2);
        TakeChildOk(keys, kids, i, InsertKV(kids[i], deg, k, v, newId, h - 1).0, h - 1, deg, cap, lo, hi, min);
    }
  }

  /** The tree stays in order, and in shape if the degree is odd; it grows by one level exactly
      if the root splits. */
  lemma InsertOk<V>(t: Tree<V>, deg: nat, k: int, v: V, newId: nat, h: nat, cap: nat)
    requires Suits(cap, deg) && RootOk(t, h, cap) && Shaped(t, h)
    ensures var h' := if InsertKV(t, deg, k, v, newId, h).0.Split? then h + 1 else h;
            RootOk(Insert(t, deg, k, v, newId, h).0, h', cap)
  {
    hide InsertKV, Ok;
    InsertKVOk(t, deg, k, v, newId, h, cap, Unbounded, Unbounded, RootMin(h, cap));
    match InsertKV(t, deg, k, v, newId, h).0 {
      case Same(_) =>
      case Split(left, s, right) => NewRootOk(left, s, right, h, cap);
    }
  }

  lemma NewRootOk<V>(left: Tree<V>, s: int, right: Tree<V>, h: nat, cap: nat)
    requires Fits(1, cap) && Ok(left, h, cap, Unbounded, At(s), cap / 2) && Ok(right, h, cap, At(s), Unbounded, cap / 2)
    ensures RootOk(Node([s], [left, right]), h + 1, cap)
  {
    var keys, kids := [s], [left, right];
    forall j | 0 <= j < |kids|
      ensures Ok(kids[j], h, cap, LowOf(Unbounded, keys, j), HighOf(keys, Unbounded, j), cap / 2)
    {}
    assert Body(keys, kids, h, cap, Unbounded, Unbounded);
  }

  // ----- meaning

  function LeavesOf<V>(r: Inserted<V>): seq<LeafRec<V>> {
    match r
    case Same(t) => Leaves(t)
    case Split(left, _, right) => Leaves(left) + Leaves(right)
  }

  lemma SplitNodeLeaves<V>(keys: seq<int>, kids: seq<Tree<V>>, deg: nat)
    requires deg >= 2 && |kids| == |keys| + 1
    ensures LeavesOf(SplitNode(keys, kids, deg)) == AllLeaves(kids)
  {
    hide AllLeaves;
    if |keys| == deg {
      var m := deg / 2 + 1;
      LeavesConcat(kids[..m], kids[m..]);
      assert kids[..m] + kids[m..] == kids;
    }
  }

  /** Splits and shifts above the leaves leave the list of leaves alone. */
  lemma TakeChildLeaves<V>(keys: seq<int>, kids: seq<Tree<V>>, i: nat, r: Inserted<V>, deg: nat)
    requires deg >= 2 && |kids| == |keys| + 1 && i < |kids|
    ensures LeavesOf(TakeChild(keys, kids, i, r, deg)) == AllLeaves(kids[..i]) + LeavesOf(r) + AllLeaves(kids[i + 1..])
  {
    hide AllLeaves, SplitNode;
    match r {
      case Same(c) =>
        assert kids[i := c] == kids[..i] + [c] + kids[i + 1..];
        LeavesAround(kids[..i], c, kids[i + 1..]);
      case Split(left, s, right) =>
        LeavesAroundPair(kids[..i], left, right, kids[i + 1..]);
        SplitNodeLeaves(InsertAt(keys, i, s), kids[..i] + [left, right] + kids[i + 1..], deg);
    }
  }

  /** Where an insertion takes place: in leaf `l`, between the leaves `a` with smaller keys and
      `b` with greater ones. */
  ghost predicate Place<V>(ls: seq<LeafRec<V>>, a: seq<LeafRec<V>>, l: LeafRec<V>, b: seq<LeafRec<V>>, k: int) {
    ls == a + [l] + b && Within(Unbounded, Items(a), At(k)) && Within(At(k + 1), Items(b), Unbounded)
  }

  /** The place of a key in a node, from its place in the routed child. */
  lemma PlaceInNode<V>(keys: seq<int>, kids: seq<Tree<V>>, h: nat, cap: nat, lo: Bound, hi: Bound, k: int,
                       a: seq<LeafRec<V>>, l: LeafRec<V>, b: seq<LeafRec<V>>)
    requires Body(keys, kids, h, cap, lo, hi) && Route(keys, k) < |kids|
    requires Place(Leaves(kids[Route(keys, k)]), a, l, b, k)
    ensures var i := Route(keys, k);
            Place(AllLeaves(kids), AllLeaves(kids[..i]) + a, l, b + AllLeaves(kids[i + 1..]), k)
  {
    hide Body, Route, Leaves, AllLeaves, Items, Within;
    var i := Route(keys, k);
    var left, right := AllLeaves(kids[..i]), AllLeaves(kids[i + 1..]);
    LeavesAround(kids[..i], kids[i], kids[i + 1..]);
    SplitAt(kids, i);
    LeftOfRoute(keys, kids, h, cap, lo, hi, k);
    RightOfRoute(keys, kids, h, cap, lo, hi, k);
    ItemsConcat(left, a);
    ItemsConcat(b, right);
    WithinConcat(Unbounded, Items(left), Items(a), At(k));
    WithinConcat(At(k + 1), Items(b), Items(right), Unbounded);
    PlaceAssoc(left, a, l, b, right);
  }

  lemma PlaceAssoc<T>(left: seq<T>, a: seq<T>, l: T, b: seq<T>, right: seq<T>)
    ensures left + (a + [l] + b) + right == (left + a) + [l] + (b + right)
  {}

  lemma WithinConcat<V>(lo: Bound, a: seq<Entry<V>>, b: seq<Entry<V>>, hi: Bound)
    requires Within(lo, a, hi) && Within(lo, b, hi)
    ensures Within(lo, a + b, hi)
  {}

  lemma {:induction false} InsertKVPlace<V>(t: Tree<V>, deg: nat, k: int, v: V, newId: nat, h: nat,
                                            cap: nat, lo: Bound, hi: Bound, min: int)
    returns (a: seq<LeafRec<V>>, l: LeafRec<V>, b: seq<LeafRec<V>>)
    requires deg >= 2 && Ok(t, h, cap, lo, hi, min) && Shaped(t, h)
    ensures Place(Leaves(t), a, l, b, k)
    ensures LeavesOf(InsertKV(t, deg, k, v, newId, h).0) == a + LeavesOf(LeafInsert(l, deg, k, v, newId).0) + b
    ensures InsertKV(t, deg, k, v, newId, h).1 == LeafInsert(l, deg, k, v, newId).1
    decreases h
  {
    hide Route, LeafInsert, TakeChild, Place, LeavesOf;
    match t {
      case Leaf(l0) =>
        a, l, b := [], l0, [];
        PlaceHere(l, k);
        NothingAround(LeavesOf(LeafInsert(l, deg, k, v, newId).0));
      case Node(keys, kids) =>
        var i := Route(keys, k);
        var r := InsertKV(kids[i], deg, k, v, newId, h - 1).0;
        a, l, b := InsertKVPlace(kids[i], deg, k, v, newId, h - 1, cap, LowOf(lo, keys, i), HighOf(keys, hi, i),
          cap / 2);
        PlaceInNode(keys, kids, h - 1, cap, lo, hi, k, a, l, b);
        TakeChildLeaves(keys, kids, i, r, deg);
        var left, right, m := AllLeaves(kids[..i]), AllLeaves(kids[i + 1..]),
          LeavesOf(LeafInsert(l, deg, k, v, newId).0);
        Regroup(left, a, m, b, right);
        a, b := left + a, b + right;
    }
  }

  lemma Regroup<T>(left: seq<T>, a: seq<T>, m: seq<T>, b: seq<T>, right: seq<T>)
    ensures left + (a + m + b) + right == (left + a) + m + (b + right)
  {}

  lemma NothingAround<T>(m: seq<T>)
    ensures [] + m + [] == m
  {}

  lemma PlaceHere<V>(l: LeafRec<V>, k: int)
    ensures Place([l], [], l, [], k)
  {}

  lemma LeafInsertItems<V>(l: LeafRec<V>, deg: nat, k: int, v: V, newId: nat)
    requires deg >= 2
    ensures Items(LeavesOf(LeafInsert(l, deg, k, v, newId).0)) == Put(l.entries, k, v)
  {
    hide LowerBound, Put;
    var es := Put(l.entries, k, v);
    match LeafInsert(l, deg, k, v, newId).0 {
      case Same(t) => ItemsOne(t.leaf);
      case Split(left, _, right) =>
        ItemsConcat([left.leaf], [right.leaf]);
        ItemsOne(left.leaf);
        ItemsOne(right.leaf);
        assert es[..deg / 2] + es[deg / 2..] == es;
    }
  }

  lemma ItemsAround<V>(a: seq<LeafRec<V>>, m: seq<LeafRec<V>>, b: seq<LeafRec<V>>)
    ensures Items(a + m + b) == Items(a) + Items(m) + Items(b)
  {
    hide Items;
    ItemsConcat(a, m);
    ItemsConcat(a + m, b);
  }

  /** The entries of the tree after an insertion are the ordered list with the pair put in. */
  lemma InsertItems<V>(t: Tree<V>, deg: nat, k: int, v: V, newId: nat, h: nat)
    requires deg >= 2 && RootOk(t, h, 0) && Shaped(t, h)
    ensures Items(Leaves(Insert(t, deg, k, v, newId, h).0)) == Put(Items(Leaves(t)), k, v)
  {
    hide InsertKV, Ok, Items, LeafInsert, Put;
    var a, l, b := InsertKVPlace(t, deg, k, v, newId, h, 0, Unbounded, Unbounded, 0);
    RootLeaves(t, deg, k, v, newId, h);
    ItemsAround(a, [l], b);
    ItemsOne(l);
    ItemsAround(a, LeavesOf(LeafInsert(l, deg, k, v, newId).0), b);
    LeafInsertItems(l, deg, k, v, newId);
    PutMiddle(Items(a), l.entries, Items(b), k, v);
  }

  lemma RootLeaves<V>(t: Tree<V>, deg: nat, k: int, v: V, newId: nat, h: nat)
    requires deg >= 2 && Shaped(t, h)
    ensures Leaves(Insert(t, deg, k, v, newId, h).0) == LeavesOf(InsertKV(t, deg, k, v, newId, h).0)
  {
    hide InsertKV;
    match InsertKV(t, deg, k, v, newId, h).0 {
      case Same(_) =>
      case Split(left, _, right) => LeavesTwo(left, right);
    }
  }

  /** A new leaf appears at most next to the one it was split from. */
  lemma InsertIds<V>(t: Tree<V>, deg: nat, k: int, v: V, newId: nat, h: nat)
    returns (a: seq<LeafRec<V>>, l: LeafRec<V>, b: seq<LeafRec<V>>)
    requires deg >= 2 && RootOk(t, h, 0) && Shaped(t, h)
    ensures Leaves(t) == a + [l] + b
    ensures var (t', ev) := Insert(t, deg, k, v, newId, h);
            Ids(Leaves(t')) == match ev case Keep => Ids(a) + [l.id] + Ids(b) case _ => Ids(a) + [l.id, newId] + Ids(b)
    ensures Insert(t, deg, k, v, newId, h).1 == Keep || Insert(t, deg, k, v, newId, h).1 == Added(l.id, newId)
  {
    hide InsertKV, Ok, Items, Put, LowerBound;
    a, l, b := InsertKVPlace(t, deg, k, v, newId, h, 0, Unbounded, Unbounded, 0);
    RootLeaves(t, deg, k, v, newId, h);
  }
}
