/** The B+ tree as its callers see it: an ordered map with a range iterator (b+tree.go, lines
    505-567), and the chain of leaves under it. */
module BTreeMap {
  import opened Options
  import opened BTree
  import opened BTreeBody
  import opened BTreeInsert
  import opened BTreeDelete
  import opened BTreeMeaning

  // ----- the chain of leaves

  /** The next and prev pointers of the leaves, by leaf id. */
  datatype Links = Links(next: map<nat, nat>, prev: map<nat, nat>)

  function Relink(links: Links, ev: Event): Links {
    match ev
    case Keep => links
    case Added(x, y) =>
      if x in links.next then
        Links(links.next[y := links.next[x]][x := y], links.prev[y := x][links.next[x] := y])
      else Links(links.next[x := y], links.prev[y := x])
    case Merged(x, y) =>
      if y in links.next then Links(links.next[x := links.next[y]], links.prev[links.next[y] := x])
      else Links(links.next - {x}, links.prev)
  }

  ghost predicate Distinct(ids: seq<nat>) {
    forall i, j :: 0 <= i < j < |ids| ==> ids[i] != ids[j]
  }

  ghost predicate NextOk(links: Links, ids: seq<nat>, i: nat)
    requires i < |ids|
  {
    if i + 1 < |ids| then ids[i] in links.next && links.next[ids[i]] == ids[i + 1] else ids[i] !in links.next
  }

  ghost predicate PrevOk(links: Links, ids: seq<nat>, i: nat)
    requires i < |ids|
  {
    if i > 0 then ids[i] in links.prev && links.prev[ids[i]] == ids[i - 1] else ids[i] !in links.prev
  }

  /** The chain lists the leaves in order, forwards and backwards. */
  ghost predicate Chained(links: Links, ids: seq<nat>) {
    Distinct(ids) && forall i: nat :: i < |ids| ==> NextOk(links, ids, i) && PrevOk(links, ids, i)
  }

  lemma AddedKeepsChain(links: Links, ids: seq<nat>, x: nat, y: nat, i: nat)
    requires Chained(links, ids) && i < |ids| && ids[i] == x && y !in ids && y !in links.next && y !in links.prev
    ensures Chained(Relink(links, Added(x, y)), InsertAt(ids, i + 1, y))
  {
    var links', ids' := Relink(links, Added(x, y)), InsertAt(ids, i + 1, y);
    assert NextOk(links, ids, i);
    AddedDistinct(ids, y, i);
    forall j: nat | j < |ids'| ensures NextOk(links', ids', j) && PrevOk(links', ids', j) {
      if j <= i { assert ids'[j] == ids[j] && NextOk(links, ids, j) && PrevOk(links, ids, j); }
      if j > i + 1 { assert ids'[j] == ids[j - 1] && NextOk(links, ids, j - 1) && PrevOk(links, ids, j - 1); }
    }
  }

  lemma AddedDistinct(ids: seq<nat>, y: nat, i: nat)
    requires Distinct(ids) && i < |ids| && y !in ids
    ensures Distinct(InsertAt(ids, i + 1, y))
  {}

  lemma MergedKeepsChain(links: Links, ids: seq<nat>, x: nat, y: nat, i: nat)
    requires Chained(links, ids) && i + 1 < |ids| && ids[i] == x && ids[i + 1] == y
    ensures Chained(Relink(links, Merged(x, y)), RemoveAt(ids, i + 1))
  {
    var links', ids' := Relink(links, Merged(x, y)), RemoveAt(ids, i + 1);
    assert NextOk(links, ids, i + 1);
    forall j: nat | j < |ids'| ensures NextOk(links', ids', j) && PrevOk(links', ids', j) {
      if j <= i { assert ids'[j] == ids[j] && NextOk(links, ids, j) && PrevOk(links, ids, j); }
      if j > i { assert ids'[j] == ids[j + 1] && NextOk(links, ids, j + 1) && PrevOk(links, ids, j + 1); }
    }
  }

  /** Splitting and merging leaves keeps the chain in order. */
  lemma RelinkKeepsChain(links: Links, ids: seq<nat>, ev: Event, ids': seq<nat>)
    requires Chained(links, ids) && IdsEffect(ev, ids, ids')
    requires ev.Added? ==> ev.right !in ids && ev.right !in links.next && ev.right !in links.prev
    ensures Chained(Relink(links, ev), ids')
  {
    hide Chained, InsertAt, RemoveAt;
    match ev {
      case Keep =>
      case Added(x, y) =>
        var i: nat :| i < |ids| && ids[i] == x && ids' == InsertAt(ids, i + 1, y);
        AddedKeepsChain(links, ids, x, y, i);
      case Merged(x, y) =>
        var i: nat :| i + 1 < |ids| && ids[i] == x && ids[i + 1] == y && ids' == RemoveAt(ids, i + 1);
        MergedKeepsChain(links, ids, x, y, i);
    }
  }

  // ----- looking up

  /** find: the first entry at least `k`, in the leaf that `k` is routed to. */
  function FindLeaf<V>(t: Tree<V>, k: int, ghost h: nat): Option<(LeafRec<V>, nat)>
    requires Shaped(t, h)
    decreases t
  {
    match t
    case Leaf(l) =>
      var i := LowerBound(l.entries, k);
      if i == |l.entries| then None else Some((l, i))
    case Node(keys, kids) => FindLeaf(kids[Route(keys, k)], k, h - 1)
  }

  lemma {:induction false} FindPlace<V>(t: Tree<V>, k: int, h: nat, cap: nat, lo: Bound, hi: Bound, min: int)
    returns (a: seq<LeafRec<V>>, l: LeafRec<V>, b: seq<LeafRec<V>>)
    requires Ok(t, h, cap, lo, hi, min) && Shaped(t, h)
    ensures Place(Leaves(t), a, l, b, k)
    ensures FindLeaf(t, k, h) == var i := LowerBound(l.entries, k); if i == |l.entries| then None else Some((l, i))
    decreases h
  {
    hide Route, Place, LowerBound, Ok, Body;
    match t {
      case Leaf(l0) =>
        a, l, b := [], l0, [];
        PlaceHere(l, k);
      case Node(keys, kids) =>
        NodeBody(keys, kids, h, cap, lo, hi, min);
        var i := Route(keys, k);
        OkAt(keys, kids, h - 1, cap, lo, hi, i);
        a, l, b := FindPlace(kids[i], k, h - 1, cap, LowOf(lo, keys, i), HighOf(keys, hi, i), cap / 2);
        PlaceInNode(keys, kids, h - 1, cap, lo, hi, k, a, l, b);
        a, b := AllLeaves(kids[..i]) + a, b + AllLeaves(kids[i + 1..]);
    }
  }

  /** BTree.Find. */
  function Find<V>(t: Tree<V>, k: int, ghost h: nat): Option<V>
    requires Shaped(t, h)
  {
    match FindLeaf(t, k, h)
    case None => None
    case Some((l, i)) => if Holds(l.entries, i, k) then Some(l.entries[i].val) else None
  }

  lemma FindIsGet<V>(t: Tree<V>, k: int, h: nat)
    requires RootOk(t, h, 0) && Shaped(t, h)
    ensures Find(t, k, h) == Get(Items(Leaves(t)), k)
  {
    hide Items, LowerBound, FindLeaf, Leaves, Ok;
    var a, l, b := FindPlace(t, k, h, 0, Unbounded, Unbounded, 0);
    ItemsAround(a, [l], b);
    ItemsOne(l);
    GetMiddle(Items(a), l.entries, Items(b), k);
  }

  lemma TreeSorted<V>(t: Tree<V>, h: nat)
    requires RootOk(t, h, 0)
    ensures SortedEntries(Items(Leaves(t)))
  {
    hide Ok, Items, Leaves, SortedEntries;
    OkOrdered(t, h, 0, Unbounded, Unbounded, 0);
  }

  // ----- every sequence of operations

  datatype State<V> = State(t: Tree<V>, h: nat, links: Links, nextId: nat)

  ghost predicate AllBelow(ids: seq<nat>, n: nat) {
    forall i :: 0 <= i < |ids| ==> ids[i] < n
  }

  ghost predicate LinksBelow(links: Links, n: nat) {
    (forall x :: x in links.next ==> x < n) && (forall x :: x in links.prev ==> x < n)
  }

  ghost predicate IdsBelow(links: Links, ids: seq<nat>, n: nat) {
    AllBelow(ids, n) && LinksBelow(links, n)
  }

  /** Tree and chain are in order; with a cap, all nodes have the right size too. */
  ghost predicate Good<V>(s: State<V>, cap: nat) {
    && RootOk(s.t, s.h, cap) && Shaped(s.t, s.h)
    && Chained(s.links, Ids(Leaves(s.t))) && IdsBelow(s.links, Ids(Leaves(s.t)), s.nextId)
  }

  ghost function View<V>(s: State<V>): map<int, V>
    requires Good(s, 0)
  {
    TreeSorted(s.t, s.h);
    MapOf(Items(Leaves(s.t)))
  }

  ghost function EmptyState<V>(): State<V> {
    State(Leaf(LeafRec(0, [])), 0, Links(map[], map[]), 1)
  }

  ghost function DoInsert<V>(s: State<V>, deg: nat, k: int, v: V): State<V>
    requires deg >= 2 && Shaped(s.t, s.h)
  {
    var (t, ev) := Insert(s.t, deg, k, v, s.nextId, s.h);
    var h := if InsertKV(s.t, deg, k, v, s.nextId, s.h).0.Split? then s.h + 1 else s.h;
    State(t, h, Relink(s.links, ev), s.nextId + if ev.Added? then 1 else 0)
  }

  ghost function DoDelete<V>(s: State<V>, deg: nat, k: int): State<V>
    requires deg >= 2 && Shaped(s.t, s.h)
  {
    var (t, ev) := Delete(s.t, deg, k, s.h);
    var h := if s.h > 0 && Size(DeleteKey(s.t, deg, k, s.h).0) == 0 then s.h - 1 else s.h;
    State(t, h, Relink(s.links, ev), s.nextId)
  }

  lemma EmptyTree<V>(cap: nat)
    ensures RootOk(EmptyState<V>().t, 0, cap) && Shaped(EmptyState<V>().t, 0)
  {}

  lemma EmptyChain<V>()
    ensures var s := EmptyState<V>();
            Chained(s.links, Ids(Leaves(s.t))) && IdsBelow(s.links, Ids(Leaves(s.t)), s.nextId)
  {
    hide RootOk, Shaped;
    IdsOne(EmptyState<V>().t.leaf);
  }

  lemma EmptyGood<V>(cap: nat)
    ensures Good(EmptyState<V>(), cap)
  {
    hide RootOk, Shaped, Chained, IdsBelow, Ids, Leaves;
    EmptyTree<V>(cap);
    EmptyChain<V>();
  }

  lemma EmptyView<V>()
    ensures Good(EmptyState<V>(), 0) && View(EmptyState<V>()) == map[]
  {
    hide Good, RootOk, Shaped;
    EmptyGood<V>(0);
    ItemsOne(EmptyState<V>().t.leaf);
  }

  lemma EffectIdsBelow(ids: seq<nat>, ev: Event, ids': seq<nat>, n: nat)
    requires AllBelow(ids, n) && IdsEffect(ev, ids, ids') && (ev.Added? ==> ev.right == n)
    ensures AllBelow(ids', if ev.Added? then n + 1 else n)
  {}

  lemma EffectLinksBelow(links: Links, ids: seq<nat>, ev: Event, ids': seq<nat>, n: nat)
    requires IdsBelow(links, ids, n) && IdsEffect(ev, ids, ids') && Chained(links, ids) && (ev.Added? ==> ev.right == n)
    ensures LinksBelow(Relink(links, ev), if ev.Added? then n + 1 else n)
  {
    hide InsertAt, RemoveAt, Distinct;
    match ev {
      case Keep =>
      case Added(x, y) =>
        var i: nat :| i < |ids| && ids[i] == x && ids' == InsertAt(ids, i + 1, y);
        assert NextOk(links, ids, i);
      case Merged(x, y) =>
        var i: nat :| i + 1 < |ids| && ids[i] == x && ids[i + 1] == y && ids' == RemoveAt(ids, i + 1);
        assert NextOk(links, ids, i + 1);
    }
  }

  lemma ChainStep(links: Links, ids: seq<nat>, ev: Event, ids': seq<nat>, n: nat)
    requires Chained(links, ids) && IdsBelow(links, ids, n) && IdsEffect(ev, ids, ids') && (ev.Added? ==> ev.right == n)
    ensures Chained(Relink(links, ev), ids') && IdsBelow(Relink(links, ev), ids', if ev.Added? then n + 1 else n)
  {
    hide Chained, IdsEffect, Relink;
    EffectIdsBelow(ids, ev, ids', n);
    EffectLinksBelow(links, ids, ev, ids', n);
    RelinkKeepsChain(links, ids, ev, ids');
  }

  lemma InsertKeepsGood<V>(s: State<V>, deg: nat, k: int, v: V, cap: nat)
    requires Suits(cap, deg) && Good(s, cap) && RootOk(s.t, s.h, 0)
    ensures Good(DoInsert(s, deg, k, v), cap)
  {
    hide Insert, InsertKV, Ids, Leaves, Chained, AllBelow, LinksBelow, IdsEffect, Ok, Relink;
    var s' := DoInsert(s, deg, k, v);
    InsertOk(s.t, deg, k, v, s.nextId, s.h, cap);
    OkShaped(s'.t, s'.h, cap, Unbounded, Unbounded, RootMin(s'.h, cap));
    InsertIdsEffect(s.t, deg, k, v, s.nextId, s.h);
    ChainStep(s.links, Ids(Leaves(s.t)), Insert(s.t, deg, k, v, s.nextId, s.h).1, Ids(Leaves(s'.t)), s.nextId);
  }

  /** Insert is map update, and keeps tree and chain in order. */
  lemma InsertRefines<V(!new)>(s: State<V>, deg: nat, k: int, v: V)
    requires deg >= 2 && Good(s, 0)
    ensures Good(DoInsert(s, deg, k, v), 0) && View(DoInsert(s, deg, k, v)) == View(s)[k := v]
  {
    hide Insert, InsertKV, Ids, Items, Leaves, Put, MapOf, Chained, IdsBelow, Ok, Relink;
    InsertKeepsGood(s, deg, k, v, 0);
    InsertItems(s.t, deg, k, v, s.nextId, s.h);
    TreeSorted(s.t, s.h);
    PutIsUpdate(Items(Leaves(s.t)), k, v);
  }

  lemma DeleteKeepsGood<V>(s: State<V>, deg: nat, k: int, cap: nat)
    requires Suits(cap, deg) && Good(s, cap) && RootOk(s.t, s.h, 0)
    ensures Good(DoDelete(s, deg, k), cap)
  {
    hide Delete, DeleteKey, Ids, Items, Leaves, Remove, Chained, AllBelow, LinksBelow, IdsEffect, Ok, Relink;
    var s' := DoDelete(s, deg, k);
    DeleteOk(s.t, deg, k, s.h, cap);
    OkShaped(s'.t, s'.h, cap, Unbounded, Unbounded, RootMin(s'.h, cap));
    DeleteItems(s.t, deg, k, s.h);
    DeleteNeverAdds(s.t, deg, k, s.h);
    ChainStep(s.links, Ids(Leaves(s.t)), Delete(s.t, deg, k, s.h).1, Ids(Leaves(s'.t)), s.nextId);
  }

  /** Delete is removal of the key, if present, and keeps tree and chain in order. */
  lemma DeleteRefines<V(!new)>(s: State<V>, deg: nat, k: int)
    requires deg >= 2 && Good(s, 0)
    ensures Good(DoDelete(s, deg, k), 0) && View(DoDelete(s, deg, k)) == View(s) - {k}
  {
    hide Delete, DeleteKey, Ids, Items, Leaves, Remove, MapOf, Chained, IdsBelow, IdsEffect, Ok, Relink;
    DeleteKeepsGood(s, deg, k, 0);
    DeleteItems(s.t, deg, k, s.h);
    TreeSorted(s.t, s.h);
    RemoveIsRemoval(Items(Leaves(s.t)), k);
  }

  lemma {:induction false} DeleteNeverAdds<V>(t: Tree<V>, deg: nat, k: int, h: nat)
    requires deg >= 2 && Shaped(t, h)
    ensures !DeleteKey(t, deg, k, h).1.Added? && !Delete(t, deg, k, h).1.Added?
    decreases h
  {
    hide Route, StealFromLeft, StealFromRight, SetPair, Remove;
    if t.Node? { DeleteNeverAdds(t.kids[Route(t.keys, k)], deg, k, h - 1); }
  }

  /** Find is lookup. */
  lemma FindRefines<V>(s: State<V>, k: int)
    requires Good(s, 0)
    ensures Find(s.t, k, s.h) == if k in View(s) then Some(View(s)[k]) else None
  {
    hide Find, Get, Items, Leaves, MapOf, Chained, IdsBelow, Ok;
    TreeSorted(s.t, s.h);
    FindIsGet(s.t, k, s.h);
    GetIsLookup(Items(Leaves(s.t)), k);
  }

  datatype Op<V> = InsertOp(k: int, v: V) | DeleteOp(k: int)

  ghost function Meaning<V>(m: map<int, V>, op: Op<V>): map<int, V> {
    match op
    case InsertOp(k, v) => m[k := v]
    case DeleteOp(k) => m - {k}
  }

  ghost function MeaningAll<V>(ops: seq<Op<V>>): map<int, V> {
    if ops == [] then map[] else Meaning(MeaningAll(ops[..|ops| - 1]), ops[|ops| - 1])
  }

  /** An insertion that the arrays of the program have no room for: a leaf or a node on the way
      already has `deg` keys and gets one more. The program stops there. */
  predicate Overflows<V>(t: Tree<V>, deg: nat, k: int, v: V, newId: nat, ghost h: nat)
    requires deg >= 2 && Shaped(t, h)
    decreases t
  {
    match t
    case Leaf(l) => |l.entries| >= deg && !Holds(l.entries, LowerBound(l.entries, k), k)
    case Node(keys, kids) =>
      var kid := kids[Route(keys, k)];
      || Overflows(kid, deg, k, v, newId, h - 1)
      || (InsertKV(kid, deg, k, v, newId, h - 1).0.Split? && |keys| >= deg)
  }

  /** With all nodes below the degree there is always room. */
  lemma {:induction false} OkHasRoom<V>(t: Tree<V>, deg: nat, k: int, v: V, newId: nat, h: nat, lo: Bound, hi: Bound,
                                        min: int)
    requires deg >= 2 && Ok(t, h, deg, lo, hi, min) && Shaped(t, h)
    ensures !Overflows(t, deg, k, v, newId, h)
    decreases h
  {
    hide InsertKV, LowerBound, Route, Body;
    if t.Node? {
      var i := Route(t.keys, k);
      NodeBody(t.keys, t.kids, h, deg, lo, hi, min);
      OkAt(t.keys, t.kids, h - 1, deg, lo, hi, i);
      OkHasRoom(t.kids[i], deg, k, v, newId, h - 1, LowOf(lo, t.keys, i), HighOf(t.keys, hi, i), deg / 2);
    }
  }

  ghost predicate Does<V>(s: State<V>, op: Op<V>, s': State<V>, deg: nat) {
    && deg >= 2 && Shaped(s.t, s.h)
    && match op
       case InsertOp(k, v) => !Overflows(s.t, deg, k, v, s.nextId, s.h) && s' == DoInsert(s, deg, k, v)
       case DeleteOp(k) => s' == DoDelete(s, deg, k)
  }

  /** `states` are what the tree goes through under `ops`, from the empty tree. */
  ghost predicate History<V>(states: seq<State<V>>, ops: seq<Op<V>>, deg: nat) {
    && deg >= 2 && |states| == |ops| + 1 && states[0] == EmptyState<V>()
    && forall i :: 0 <= i < |ops| ==> Does(states[i], ops[i], states[i + 1], deg)
  }

  /** After every sequence of operations on a tree of any degree from 2 on, the contents are
      those of a finite map, and tree and chain are in order. */
  lemma {:induction false} TreeRefinesMap<V(!new)>(states: seq<State<V>>, ops: seq<Op<V>>, deg: nat)
    requires History(states, ops, deg)
    ensures Good(states[|ops|], 0) && View(states[|ops|]) == MeaningAll(ops)
  {
    hide Good, View, DoInsert, DoDelete, EmptyState, Overflows;
    if ops == [] {
      EmptyView<V>();
    } else {
      var n := |ops| - 1;
      TreeRefinesMap(states[..n + 1], ops[..n], deg);
      assert Does(states[n], ops[n], states[n + 1], deg);
      match ops[n] {
        case InsertOp(k, v) => InsertRefines(states[n], deg, k, v);
        case DeleteOp(k) => DeleteRefines(states[n], deg, k);
      }
    }
  }

  /** With an odd degree all nodes keep their sizes, and no insertion ever runs out of room. */
  lemma {:induction false} OddDegreeKeepsShape<V(!new)>(states: seq<State<V>>, ops: seq<Op<V>>, deg: nat, k: int, v: V)
    requires History(states, ops, deg) && deg % 2 == 1
    ensures Good(states[|ops|], deg) && !Overflows(states[|ops|].t, deg, k, v, states[|ops|].nextId, states[|ops|].h)
  {
    hide Good, View, DoInsert, DoDelete, EmptyState, Overflows;
    var last := states[|ops|];
    if ops == [] {
      EmptyGood<V>(deg);
    } else {
      var n := |ops| - 1;
      OddDegreeKeepsShape(states[..n + 1], ops[..n], deg, k, v);
      TreeRefinesMap(states[..n + 1], ops[..n], deg);
      GoodRoot(states[n], 0);
      assert Does(states[n], ops[n], states[n + 1], deg);
      match ops[n] {
        case InsertOp(k', v') => InsertKeepsGood(states[n], deg, k', v', deg);
        case DeleteOp(k') => DeleteKeepsGood(states[n], deg, k', deg);
      }
    }
    GoodRoot(last, deg);
    OkHasRoom(last.t, deg, k, v, last.nextId, last.h, Unbounded, Unbounded, RootMin(last.h, deg));
  }

  lemma GoodRoot<V>(s: State<V>, cap: nat)
    requires Good(s, cap)
    ensures RootOk(s.t, s.h, cap) && Shaped(s.t, s.h) && Chained(s.links, Ids(Leaves(s.t)))
  {}
}
