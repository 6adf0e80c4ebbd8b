/** The B+ tree on the heap: nodes that refer to each other, changed in place by recursion over
    them (b+tree.go, lines 295-483 and 511-567), proved against the functions on tree values. */
module BTreeHeap {
  import opened BTree
  import opened BTreeBody
  import opened BTreeInsert
  import opened BTreeMap
  import opened BTreeNodes

  /** A value of the interface type BTreeNode. */
  datatype Ref<V(0)> = Nil | LeafRef(leaf: LeafNode<V>) | InnerRef(inner: InternalNode<Ref<V>>)

  // ----- which objects make up a tree

  /** The objects of a subtree, in the order of its shape. */
  datatype Skel<V(0)> = SLeaf(leaf: LeafNode<V>) | SNode(inner: InternalNode<Ref<V>>, kids: seq<Skel<V>>)

  function RefOf<V(0)>(s: Skel<V>): Ref<V> {
    match s
    case SLeaf(l) => LeafRef(l)
    case SNode(n, _) => InnerRef(n)
  }

  ghost function Refs<V(0)>(kids: seq<Skel<V>>): seq<Ref<V>> {
    seq(|kids|, i requires 0 <= i < |kids| => RefOf(kids[i]))
  }

  /** Inner nodes and arrays. */
  ghost function Own<V(0)>(s: Skel<V>): set<object>
    decreases s, 0
  {
    match s
    case SLeaf(l) => {l.slots}
    case SNode(n, kids) => Parts(n) + OwnAll(kids)
  }

  ghost function Parts<V(0)>(n: InternalNode<Ref<V>>): set<object> {
    {n, n.keys, n.ptrs}
  }

  ghost function OwnAll<V(0)>(kids: seq<Skel<V>>): set<object>
    decreases kids, 1
  {
    set i, o | 0 <= i < |kids| && o in Own(kids[i]) :: o
  }

  /** Leaf objects; their next and prev fields belong to the chain. */
  ghost function Lvs<V(0)>(s: Skel<V>): set<LeafNode<V>>
    decreases s, 0
  {
    match s
    case SLeaf(l) => {l}
    case SNode(_, kids) => LvsAll(kids)
  }

  ghost function LvsAll<V(0)>(kids: seq<Skel<V>>): set<LeafNode<V>>
    decreases kids, 1
  {
    set i, l | 0 <= i < |kids| && l in Lvs(kids[i]) :: l
  }

  ghost function All<V(0)>(s: Skel<V>): set<object> {
    Own(s) + Lvs(s)
  }

  ghost function AllOf<V(0)>(kids: seq<Skel<V>>): set<object> {
    OwnAll(kids) + LvsAll(kids)
  }

  /** No object occurs twice. */
  ghost predicate Sep<V(0)>(s: Skel<V>)
    decreases s, 0
  {
    && Own(s) !! Lvs(s)
    && (s.SNode? ==> Parts(s.inner) !! AllOf(s.kids) && SepAll(s.kids))
  }

  ghost predicate SepAll<V(0)>(kids: seq<Skel<V>>)
    decreases kids, 1
  {
    && (forall i :: 0 <= i < |kids| ==> Sep(kids[i]))
    && (forall i, j :: 0 <= i < j < |kids| ==> All(kids[i]) !! All(kids[j]))
  }

  lemma AllConcat<V(0)>(a: seq<Skel<V>>, b: seq<Skel<V>>)
    ensures OwnAll(a + b) == OwnAll(a) + OwnAll(b) && LvsAll(a + b) == LvsAll(a) + LvsAll(b)
  {
    hide Own, Lvs;
    var ab := a + b;
    forall o | o in OwnAll(b) ensures o in OwnAll(ab) {
      var i :| 0 <= i < |b| && o in Own(b[i]);
      assert ab[|a| + i] == b[i];
    }
    forall o | o in OwnAll(a) ensures o in OwnAll(ab) {
      var i :| 0 <= i < |a| && o in Own(a[i]);
      assert ab[i] == a[i];
    }
    forall o | o in LvsAll(b) ensures o in LvsAll(ab) {
      var i :| 0 <= i < |b| && o in Lvs(b[i]);
      assert ab[|a| + i] == b[i];
    }
    forall o | o in LvsAll(a) ensures o in LvsAll(ab) {
      var i :| 0 <= i < |a| && o in Lvs(a[i]);
      assert ab[i] == a[i];
    }
  }

  lemma AllOfHas<V(0)>(kids: seq<Skel<V>>)
    ensures OwnAll(kids) <= AllOf(kids) && LvsAll(kids) <= AllOf(kids)
  {}

  lemma AllOne<V(0)>(s: Skel<V>)
    ensures OwnAll([s]) == Own(s) && LvsAll([s]) == Lvs(s) && AllOf([s]) == All(s)
  {
    hide Own, Lvs;
    assert [s][0] == s;
  }

  lemma AllHas<V(0)>(kids: seq<Skel<V>>, i: nat)
    requires i < |kids|
    ensures Own(kids[i]) <= OwnAll(kids) && Lvs(kids[i]) <= LvsAll(kids)
  {
    hide Own, Lvs;
  }

  lemma SepConcat<V(0)>(a: seq<Skel<V>>, b: seq<Skel<V>>)
    ensures SepAll(a + b) <==> SepAll(a) && SepAll(b) && AllOf(a) !! AllOf(b)
  {
    hide Own, Lvs, Sep;
    var ab := a + b;
    if SepAll(a) && SepAll(b) && AllOf(a) !! AllOf(b) {
      forall i, j | 0 <= i < j < |ab| ensures All(ab[i]) !! All(ab[j]) {
        if i < |a| { AllHas(a, i); }
        if j >= |a| { AllHas(b, j - |a|); }
      }
    }
    if SepAll(ab) {
      assert forall i :: 0 <= i < |a| ==> a[i] == ab[i];
      assert forall i :: 0 <= i < |b| ==> b[i] == ab[|a| + i];
      forall o | o in AllOf(a) ensures o !in AllOf(b) {
        var i :| 0 <= i < |a| && o in All(a[i]);
        forall j | 0 <= j < |b| ensures o !in All(b[j]) {
          assert All(ab[i]) !! All(ab[|a| + j]);
        }
      }
    }
  }

  lemma SepAround<V(0)>(a: seq<Skel<V>>, m: seq<Skel<V>>, b: seq<Skel<V>>)
    ensures AllOf(a + m + b) == AllOf(a) + AllOf(m) + AllOf(b)
    ensures SepAll(a + m + b) <==> SepAll(a) && SepAll(m) && SepAll(b) && AllOf(a) !! AllOf(m) !! AllOf(b)
  {
    hide OwnAll, LvsAll, SepAll;
    AllConcat(a, m);
    AllConcat(a + m, b);
    SepConcat(a, m);
    SepConcat(a + m, b);
  }

  // ----- what they hold

  /** The objects hold the tree value `t` of height `h`, in arrays for degree `deg`. */
  ghost predicate Rep<V(0)>(s: Skel<V>, t: Tree<V>, h: nat, deg: nat)
    reads Own(s), Lvs(s)`nkeys
    decreases s, 0
  {
    match s
    case SLeaf(l) => h == 0 && l.Valid() && l.slots.Length == deg && t == Leaf(LeafRec(l.id, l.Entries()))
    case SNode(n, kids) =>
      && h > 0 && t.Node? && NodeHolds(n, t.keys, Refs(kids), deg)
      && RepAll(kids, t.kids, h - 1, deg)
  }

  ghost predicate NodeHolds<V(0)>(n: InternalNode<Ref<V>>, keys: seq<int>, ptrs: seq<Ref<V>>, deg: nat)
    reads n, n.keys, n.ptrs
  {
    n.Valid() && n.keys.Length == deg && n.Keys() == keys && n.Kids() == ptrs
  }

  ghost predicate RepAll<V(0)>(kids: seq<Skel<V>>, ts: seq<Tree<V>>, h: nat, deg: nat)
    reads OwnAll(kids), LvsAll(kids)`nkeys
    decreases kids, 1
  {
    |kids| == |ts| && forall i :: 0 <= i < |kids| ==> Rep(kids[i], ts[i], h, deg)
  }

  lemma RepConcat<V(0)>(a: seq<Skel<V>>, b: seq<Skel<V>>, ta: seq<Tree<V>>, tb: seq<Tree<V>>, h: nat, deg: nat)
    requires |a| == |ta|
    ensures RepAll(a + b, ta + tb, h, deg) <==> RepAll(a, ta, h, deg) && RepAll(b, tb, h, deg)
  {
    hide Rep;
    var ab, tab := a + b, ta + tb;
    if RepAll(ab, tab, h, deg) {
      forall i | 0 <= i < |a| ensures Rep(a[i], ta[i], h, deg) { assert Rep(ab[i], tab[i], h, deg); }
      forall i | 0 <= i < |b| ensures Rep(b[i], tb[i], h, deg) { assert Rep(ab[|a| + i], tab[|a| + i], h, deg); }
    }
    if RepAll(a, ta, h, deg) && RepAll(b, tb, h, deg) {
      forall i | 0 <= i < |ab| ensures Rep(ab[i], tab[i], h, deg) {
        if i < |a| { assert Rep(a[i], ta[i], h, deg); } else { assert Rep(b[i - |a|], tb[i - |a|], h, deg); }
      }
    }
  }

  lemma RepAround<V(0)>(a: seq<Skel<V>>, m: seq<Skel<V>>, b: seq<Skel<V>>, ta: seq<Tree<V>>, tm: seq<Tree<V>>,
                        tb: seq<Tree<V>>,
                        h: nat, deg: nat)
    requires |a| == |ta| && |m| == |tm|
    ensures RepAll(a + m + b, ta + tm + tb, h, deg)
       <==> RepAll(a, ta, h, deg) && RepAll(m, tm, h, deg) && RepAll(b, tb, h, deg)
  {
    hide RepAll;
    RepConcat(a, m, ta, tm, h, deg);
    RepConcat(a + m, b, ta + tm, tb, h, deg);
  }

  // ----- the chain of leaf objects

  ghost function Row<V(0)>(s: Skel<V>): (ls: seq<LeafNode<V>>)
    ensures (set l | l in ls) == Lvs(s)
    decreases s, 0
  {
    match s
    case SLeaf(l) => [l]
    case SNode(_, kids) => RowAll(kids)
  }

  ghost function RowAll<V(0)>(kids: seq<Skel<V>>): (ls: seq<LeafNode<V>>)
    ensures (set l | l in ls) == LvsAll(kids)
    decreases kids, 1
  {
    if kids == [] then [] else
      AllOne(kids[0]);
      AllConcat([kids[0]], kids[1..]);
      assert [kids[0]] + kids[1..] == kids;
      Row(kids[0]) + RowAll(kids[1..])
  }

  lemma {:induction false} RowConcat<V(0)>(a: seq<Skel<V>>, b: seq<Skel<V>>)
    ensures RowAll(a + b) == RowAll(a) + RowAll(b)
  {
    hide Row;
    if a == [] {
      assert a + b == b;
    } else {
      assert (a + b)[1..] == a[1..] + b;
      RowConcat(a[1..], b);
    }
  }

  lemma RowOne<V(0)>(s: Skel<V>)
    ensures RowAll([s]) == Row(s)
  {
    hide Row;
    assert RowAll([s]) == Row(s) + RowAll([]);
  }

  ghost function Head<T>(s: seq<T>, none: T): T {
    if s == [] then none else s[0]
  }

  ghost function Last<T>(s: seq<T>, none: T): T {
    if s == [] then none else s[|s| - 1]
  }

  ghost predicate LinkAt<V(0)>(ls: seq<LeafNode<V>>, i: nat, before: LeafNode?<V>, after: LeafNode?<V>)
    requires i < |ls|
    reads ls`prev, ls`next
  {
    && ls[i].prev == (if i == 0 then before else ls[i - 1])
    && ls[i].next == (if i + 1 == |ls| then after else ls[i + 1])
  }

  /** A stretch of a doubly linked list, between `before` and `after`. */
  ghost predicate Linked<V(0)>(ls: seq<LeafNode<V>>, before: LeafNode?<V>, after: LeafNode?<V>)
    reads ls`prev, ls`next
  {
    forall i :: 0 <= i < |ls| ==> LinkAt(ls, i, before, after)
  }

  lemma LinkedSplit<V(0)>(a: seq<LeafNode<V>>, b: seq<LeafNode<V>>, before: LeafNode?<V>, after: LeafNode?<V>)
    requires Linked(a + b, before, after)
    ensures Linked(a, before, Head(b, after)) && Linked(b, Last(a, before), after)
  {
    forall i | 0 <= i < |a| ensures LinkAt(a, i, before, Head(b, after)) {
      assert LinkAt(a + b, i, before, after);
    }
    forall i | 0 <= i < |b| ensures LinkAt(b, i, Last(a, before), after) {
      assert LinkAt(a + b, |a| + i, before, after);
    }
  }

  lemma LinkedJoin<V(0)>(a: seq<LeafNode<V>>, b: seq<LeafNode<V>>, before: LeafNode?<V>, after: LeafNode?<V>)
    requires Linked(a, before, Head(b, after)) && Linked(b, Last(a, before), after)
    ensures Linked(a + b, before, after)
  {
    forall i | 0 <= i < |a + b| ensures LinkAt(a + b, i, before, after) {
      if i < |a| {
        assert LinkAt(a, i, before, Head(b, after));
      } else {
        assert LinkAt(b, i - |a|, Last(a, before), after);
      }
    }
  }

  ghost function Opt<V(0)>(l: LeafNode?<V>): set<LeafNode<V>> {
    if l == null then {} else {l}
  }

  /** The neighbour after the stretch points back into it. */
  ghost predicate Chain<V(0)>(ls: seq<LeafNode<V>>, before: LeafNode?<V>, after: LeafNode?<V>)
    reads ls`prev, ls`next, (if after == null then {} else {after})`prev
  {
    Linked(ls, before, after) && (after != null ==> after.prev == Last(ls, before))
  }

  ghost function Rest<T>(s: seq<T>): seq<T> {
    if s == [] then [] else s[1..]
  }

  /** A stretch, regardless of what is before it. */
  ghost predicate Tail<V(0)>(r: seq<LeafNode<V>>, after: LeafNode?<V>)
    reads r`next, Rest(r)`prev
  {
    && (forall i :: 0 <= i < |r| ==> r[i].next == (if i + 1 == |r| then after else r[i + 1]))
    && (forall i :: 0 <= i < |Rest(r)| ==> Rest(r)[i].prev == r[i])
  }

  lemma TailOf<V(0)>(r: seq<LeafNode<V>>, x: LeafNode?<V>, after: LeafNode?<V>)
    requires Linked(r, x, after)
    ensures Tail(r, after) && (x !in r && r != [] ==> r[0] !in Rest(r))
  {
    forall i | 0 <= i < |r| ensures r[i].next == (if i + 1 == |r| then after else r[i + 1]) {
      assert LinkAt(r, i, x, after);
    }
    forall i | 0 <= i < |Rest(r)| ensures Rest(r)[i].prev == r[i] && (x !in r ==> Rest(r)[i] != r[0]) {
      assert LinkAt(r, i + 1, x, after);
      assert LinkAt(r, 0, x, after);
    }
  }

  /** Another node has taken the place of the one before a stretch. */
  lemma TailLinked<V(0)>(r: seq<LeafNode<V>>, y: LeafNode?<V>, after: LeafNode?<V>)
    requires Tail(r, after) && (r != [] ==> r[0].prev == y)
    ensures Linked(r, y, after)
  {
    forall i | 0 <= i < |r| ensures LinkAt(r, i, y, after) {
      if i > 0 { assert Rest(r)[i - 1] == r[i]; }
    }
  }

  lemma ChainParts<V(0)>(p: seq<LeafNode<V>>, m: seq<LeafNode<V>>, r: seq<LeafNode<V>>, before: LeafNode?<V>,
                         after: LeafNode?<V>)
    requires Chain(p + m + r, before, after) && m != []
    ensures Linked(p, before, m[0]) && Chain(m, Last(p, before), Head(r, after)) && Linked(r, m[|m| - 1], after)
    ensures r != [] && after != null ==> after.prev == r[|r| - 1]
  {
    hide Linked;
    LinkedSplit(p + m, r, before, after);
    LinkedSplit(p, m, before, Head(r, after));
    if r != [] { LinkedHead(r, m[|m| - 1], after); }
  }

  lemma LinkedHead<V(0)>(r: seq<LeafNode<V>>, before: LeafNode?<V>, after: LeafNode?<V>)
    requires Linked(r, before, after) && r != []
    ensures r[0].prev == before
  {
    assert LinkAt(r, 0, before, after);
  }

  lemma ChainJoin<V(0)>(p: seq<LeafNode<V>>, m: seq<LeafNode<V>>, r: seq<LeafNode<V>>, before: LeafNode?<V>,
                        after: LeafNode?<V>)
    requires m != [] && Linked(p, before, m[0]) && Chain(m, Last(p, before), Head(r, after))
    requires Linked(r, m[|m| - 1], after)
    requires r != [] && after != null ==> after.prev == r[|r| - 1]
    ensures Chain(p + m + r, before, after)
  {
    hide Linked;
    LinkedJoin(p, m, before, Head(r, after));
    LinkedJoin(p + m, r, before, after);
  }

  // ----- insertion

  ghost predicate Stands<V(0)>(kids: seq<Skel<V>>, ts: seq<Tree<V>>, h: nat, deg: nat, before: LeafNode?<V>,
                               after: LeafNode?<V>)
    reads OwnAll(kids), LvsAll(kids), (if after == null then {} else {after})`prev
  {
    SepAll(kids) && RepAll(kids, ts, h, deg) && Chain(RowAll(kids), before, after) && Opt(after) !! AllOf(kids)
  }

  ghost function TreesOf<V>(r: Inserted<V>): seq<Tree<V>> {
    match r
    case Same(t) => [t]
    case Split(l, _, r) => [l, r]
  }

  /** What an insertion hands up: one subtree or two, the first in the place of the old one. */
  ghost predicate HandsUp<V(0)>(r: Inserted<V>, node: Ref<V>, sep: int, right: Ref<V>, now: seq<Skel<V>>) {
    && |now| == |TreesOf(r)| && RefOf(now[0]) == node
    && match r
       case Same(_) => right == Nil
       case Split(_, s, _) => right == RefOf(now[1]) && sep == s
  }

  lemma RowTwo<V(0)>(s: Skel<V>, u: Skel<V>)
    ensures RowAll([s, u]) == Row(s) + Row(u)
  {
    hide Row, RowAll;
    assert [s] + [u] == [s, u];
    RowConcat([s], [u]);
    RowOne(s);
    RowOne(u);
  }

  lemma AllTwo<V(0)>(s: Skel<V>, u: Skel<V>)
    ensures OwnAll([s, u]) == Own(s) + Own(u) && LvsAll([s, u]) == Lvs(s) + Lvs(u)
  {
    hide Own, Lvs, OwnAll, LvsAll;
    assert [s] + [u] == [s, u];
    AllConcat([s], [u]);
    AllOne(s);
    AllOne(u);
  }

  ghost predicate LeafHolds<V(0)>(l: LeafNode<V>, t: Tree<V>, deg: nat)
    reads l`nkeys, l.slots
  {
    l.Valid() && l.slots.Length == deg && t == Leaf(LeafRec(l.id, l.Entries()))
  }

  lemma LeafRep<V(0)>(l: LeafNode<V>, t: Tree<V>, deg: nat)
    ensures Rep(SLeaf(l), t, 0, deg) <==> LeafHolds(l, t, deg)
    ensures Own(SLeaf(l)) == {l.slots} && Lvs(SLeaf(l)) == {l} && Sep(SLeaf(l)) && Row(SLeaf(l)) == [l]
  {}

  lemma OneStands<V(0)>(s: Skel<V>, t: Tree<V>, h: nat, deg: nat, before: LeafNode?<V>, after: LeafNode?<V>)
    ensures Stands([s], [t], h, deg, before, after)
       <==> Sep(s) && Rep(s, t, h, deg) && Chain(Row(s), before, after) && Opt(after) !! All(s)
  {
    hide Sep, Rep, Chain, RowAll, Row;
    RowOne(s);
    AllOne(s);
    assert [s][0] == s && [t][0] == t;
  }

  lemma SepOne<V(0)>(s: Skel<V>)
    ensures SepAll([s]) <==> Sep(s)
  {
    hide Sep;
    assert [s][0] == s;
  }

  lemma TwoStand<V(0)>(s: Skel<V>, u: Skel<V>, t: Tree<V>, w: Tree<V>, h: nat, deg: nat, before: LeafNode?<V>,
                       after: LeafNode?<V>)
    ensures Stands([s, u], [t, w], h, deg, before, after)
       <==> && Sep(s) && Sep(u) && All(s) !! All(u) && Rep(s, t, h, deg) && Rep(u, w, h, deg)
            && Chain(Row(s) + Row(u), before, after) && Opt(after) !! All(s) + All(u)
  {
    hide Sep, Rep, SepAll, RepAll, Chain, RowAll, Row, OwnAll, LvsAll, Own, Lvs;
    RowTwo(s, u);
    AllTwo(s, u);
    assert [s] + [u] == [s, u] && [t] + [w] == [t, w];
    SepConcat([s], [u]);
    SepOne(s);
    SepOne(u);
    AllOne(s);
    AllOne(u);
    RepConcat([s], [u], [t], [w], h, deg);
    RepOne(s, t, h, deg);
    RepOne(u, w, h, deg);
  }

  lemma ChainOne<V(0)>(l: LeafNode<V>, before: LeafNode?<V>, after: LeafNode?<V>)
    ensures Chain([l], before, after) <==> l.prev == before && l.next == after && (after != null ==> after.prev == l)
  {
    if Chain([l], before, after) { assert LinkAt([l], 0, before, after); }
  }

  lemma ChainTwo<V(0)>(l: LeafNode<V>, r: LeafNode<V>, before: LeafNode?<V>, after: LeafNode?<V>)
    ensures Chain([l] + [r], before, after)
       <==> l.prev == before && l.next == r && r.prev == l && r.next == after && (after != null ==> after.prev == r)
  {
    var lr := [l] + [r];
    if Chain(lr, before, after) { assert LinkAt(lr, 0, before, after) && LinkAt(lr, 1, before, after); }
  }

  lemma GivesLeaves<V>(l: LeafRec<V>, deg: nat, k: int, v: V, newId: nat)
    requires deg >= 2
    ensures match LeafInsert(l, deg, k, v, newId).0
            case Same(t) => t.Leaf?
            case Split(a, _, b) => a.Leaf? && b.Leaf?
  {
    hide Put, LowerBound;
  }

  method InsertLeaf<V(0)>(l: LeafNode<V>, ghost t: Tree<V>, ghost deg: nat, ghost before: LeafNode?<V>,
                          ghost after: LeafNode?<V>,
                          k: int, v: V, ghost newId: nat)
    returns (sep: int, right: Ref<V>, ghost now: seq<Skel<V>>)
    requires Stands([SLeaf(l)], [t], 0, deg, before, after) && deg >= 2 && Shaped(t, 0)
    requires !Overflows(t, deg, k, v, newId, 0)
    modifies l, l.slots, Opt(after)`prev
    ensures var r := BTreeInsert.InsertKV(t, deg, k, v, newId, 0).0;
            Stands(now, TreesOf(r), 0, deg, before, after) && HandsUp(r, LeafRef(l), sep, right, now)
    ensures RowAll(now) != [] && RowAll(now)[0] == l
    ensures forall o :: o in AllOf(now) ==> o in {l, l.slots} || fresh(o)
  {
    hide LeafInsert, LowerBound, Stands, Rep, Sep, Own, Lvs, OwnAll, LvsAll, Chain, Row, RowAll;
    OneStands(SLeaf(l), t, 0, deg, before, after);
    LeafRep(l, t, deg);
    ChainOne(l, before, after);
    ghost var r := BTreeInsert.InsertKV(t, deg, k, v, newId, 0).0;
    GivesLeaves(t.leaf, deg, k, v, newId);
    var rl := l.InsertKV(k, v, newId);
    if rl == null {
      sep, right, now := 0, Nil, [SLeaf(l)];
      LeafRep(l, r.t, deg);
      ChainOne(l, before, after);
      OneStands(SLeaf(l), r.t, 0, deg, before, after);
      RowOne(SLeaf(l));
      AllOne(SLeaf(l));
    } else {
      sep, right, now := rl.slots[0].key, LeafRef(rl), [SLeaf(l), SLeaf(rl)];
      LeafRep(l, r.left, deg);
      LeafRep(rl, r.right, deg);
      ChainTwo(l, rl, before, after);
      TwoStand(SLeaf(l), SLeaf(rl), r.left, r.right, 0, deg, before, after);
      RowTwo(SLeaf(l), SLeaf(rl));
      AllTwo(SLeaf(l), SLeaf(rl));
    }
  }

  // ----- a node and one of its children

  lemma OwnApart<V(0)>(kids: seq<Skel<V>>)
    requires SepAll(kids)
    ensures OwnAll(kids) !! LvsAll(kids)
  {
    forall o | o in OwnAll(kids) ensures o !in LvsAll(kids) {
      var i :| 0 <= i < |kids| && o in Own(kids[i]);
      forall j | 0 <= j < |kids| ensures o !in Lvs(kids[j]) {
        if i < j { assert All(kids[i]) !! All(kids[j]); }
        if j < i { assert All(kids[j]) !! All(kids[i]); }
      }
    }
  }

  lemma NodeStands<V(0)>(n: InternalNode<Ref<V>>, kids: seq<Skel<V>>, t: Tree<V>, h: nat, deg: nat,
                         before: LeafNode?<V>, after: LeafNode?<V>)
    ensures Stands([SNode(n, kids)], [t], h, deg, before, after)
       <==> && h > 0 && t.Node? && NodeHolds(n, t.keys, Refs(kids), deg)
            && Stands(kids, t.kids, h - 1, deg, before, after)
            && Parts(n) !! AllOf(kids) && Opt(after) !! Parts(n)
  {
    hide NodeHolds, RepAll, SepAll, OwnAll, LvsAll, RowAll, Chain, Parts;
    var s := SNode(n, kids);
    OneStands(s, t, h, deg, before, after);
    assert Rep(s, t, h, deg)
      <==> h > 0 && t.Node? && NodeHolds(n, t.keys, Refs(kids), deg) && RepAll(kids, t.kids, h - 1, deg);
    if SepAll(kids) { OwnApart(kids); }
    assert Row(s) == RowAll(kids);
  }

  /** What is around the children that an operation works on. */
  ghost predicate Around<V(0)>(a: seq<Skel<V>>, b: seq<Skel<V>>, ta: seq<Tree<V>>, tb: seq<Tree<V>>, h: nat, deg: nat,
                               first: LeafNode<V>, last: LeafNode<V>, before: LeafNode?<V>, after: LeafNode?<V>)
    reads OwnAll(a), LvsAll(a), OwnAll(b), LvsAll(b), (if after == null then {} else {after})`prev
  {
    && SepAll(a) && SepAll(b) && AllOf(a) !! AllOf(b) && RepAll(a, ta, h, deg) && RepAll(b, tb, h, deg)
    && Linked(RowAll(a), before, first) && Linked(RowAll(b), last, after)
    && (RowAll(b) != [] && after != null ==> after.prev == Last(RowAll(b), last))
    && Opt(after) !! AllOf(a) && Opt(after) !! AllOf(b)
  }

  lemma StandsAround<V(0)>(a: seq<Skel<V>>, m: seq<Skel<V>>, b: seq<Skel<V>>, ta: seq<Tree<V>>, tm: seq<Tree<V>>,
                           tb: seq<Tree<V>>,
                           h: nat, deg: nat, before: LeafNode?<V>, after: LeafNode?<V>)
    requires |a| == |ta| && |m| == |tm| && RowAll(m) != []
    ensures Stands(a + m + b, ta + tm + tb, h, deg, before, after)
       <==> && Stands(m, tm, h, deg, Last(RowAll(a), before), Head(RowAll(b), after))
            && Around(a, b, ta, tb, h, deg, RowAll(m)[0], RowAll(m)[|RowAll(m)| - 1], before, after)
            && AllOf(m) !! AllOf(a) && AllOf(m) !! AllOf(b) && Opt(after) !! AllOf(m)
  {
    hide SepAll, RepAll, Chain, Linked, OwnAll, LvsAll, RowAll;
    SepAround(a, m, b);
    RepAround(a, m, b, ta, tm, tb, h, deg);
    RowConcat(a, m);
    RowConcat(a + m, b);
    var p, ms, r := RowAll(a), RowAll(m), RowAll(b);
    if Chain(p + ms + r, before, after) { ChainParts(p, ms, r, before, after); }
    if Stands(m, tm, h, deg, Last(p, before), Head(r, after))
      && Around(a, b, ta, tb, h, deg, ms[0], ms[|ms| - 1], before, after) {
      ChainJoin(p, ms, r, before, after);
    }
    assert r != [] ==> r[0] in LvsAll(b);
  }

  lemma {:induction false} RowSome<V(0)>(s: Skel<V>, t: Tree<V>, h: nat, deg: nat)
    requires Rep(s, t, h, deg) && Shaped(t, h)
    ensures Row(s) != []
    decreases h
  {
    if s.SNode? { RowSome(s.kids[0], t.kids[0], h - 1, deg); }
  }

  /** Two nodes side by side, each with its part of a row of children. */
  lemma NodesStand<V(0)>(n: InternalNode<Ref<V>>, q: InternalNode<Ref<V>>, ks: seq<Skel<V>>, us: seq<Skel<V>>,
                         t: Tree<V>, w: Tree<V>, h: nat, deg: nat, before: LeafNode?<V>, after: LeafNode?<V>)
    requires h > 0 && t.Node? && w.Node? && |ks| == |t.kids|
    requires NodeHolds(n, t.keys, Refs(ks), deg) && NodeHolds(q, w.keys, Refs(us), deg)
    requires Stands(ks + us, t.kids + w.kids, h - 1, deg, before, after)
    requires Parts(n) !! Parts(q) && Parts(n) !! AllOf(ks + us) && Parts(q) !! AllOf(ks + us)
    requires Opt(after) !! Parts(n) && Opt(after) !! Parts(q)
    ensures Stands([SNode(n, ks), SNode(q, us)], [t, w], h, deg, before, after)
    ensures RowAll([SNode(n, ks), SNode(q, us)]) == RowAll(ks + us)
    ensures AllOf([SNode(n, ks), SNode(q, us)]) == Parts(n) + Parts(q) + AllOf(ks + us)
  {
    hide NodeHolds, RepAll, SepAll, OwnAll, LvsAll, RowAll, Chain, Parts, Linked;
    var x, y := SNode(n, ks), SNode(q, us);
    SepConcat(ks, us);
    AllConcat(ks, us);
    RepConcat(ks, us, t.kids, w.kids, h - 1, deg);
    RowConcat(ks, us);
    RowTwo(x, y);
    AllTwo(x, y);
    OwnApart(ks);
    OwnApart(us);
    TwoStand(x, y, t, w, h, deg, before, after);
  }

  lemma {:induction false} Allocated<V(0)>(s: Skel<V>)
    ensures forall o :: o in Own(s) ==> allocated(o)
    ensures forall o :: o in Lvs(s) ==> allocated(o)
    decreases s, 0
  {
    match s {
      case SLeaf(_) =>
      case SNode(_, kids) => AllAllocated(kids);
    }
  }

  lemma {:induction false} AllAllocated<V(0)>(kids: seq<Skel<V>>)
    ensures forall o :: o in OwnAll(kids) ==> allocated(o)
    ensures forall o :: o in LvsAll(kids) ==> allocated(o)
    decreases kids, 1
  {
    forall i | 0 <= i < |kids|
      ensures (forall o :: o in Own(kids[i]) ==> allocated(o)) && (forall o :: o in Lvs(kids[i]) ==> allocated(o))
    {
      Allocated(kids[i]);
    }
  }

  method InsertKV<V(0)>(node: Ref<V>, ghost s: Skel<V>, ghost t: Tree<V>, ghost h: nat, ghost deg: nat,
                        ghost before: LeafNode?<V>, ghost after: LeafNode?<V>, k: int, v: V, ghost newId: nat)
    returns (sep: int, right: Ref<V>, ghost now: seq<Skel<V>>)
    requires node == RefOf(s) && Stands([s], [t], h, deg, before, after)
    requires deg >= 2 && Shaped(t, h) && !Overflows(t, deg, k, v, newId, h)
    modifies Own(s), Lvs(s), Opt(after)`prev
    ensures var r := BTreeInsert.InsertKV(t, deg, k, v, newId, h).0;
            Stands(now, TreesOf(r), h, deg, before, after) && HandsUp(r, node, sep, right, now)
    ensures Row(s) != [] && RowAll(now) != [] && RowAll(now)[0] == Row(s)[0]
    ensures forall o :: o in AllOf(now) ==> o in All(s) || fresh(o)
    decreases h, 2
  {
    hide Stands, Own, Lvs, OwnAll, LvsAll, RowAll, Row, Overflows, BTreeInsert.InsertKV, HandsUp;
    match node {
      case LeafRef(l) =>
        LeafRep(l, t, deg);
        OneStands(s, t, h, deg, before, after);
        sep, right, now := InsertLeaf(l, t, deg, before, after, k, v, newId);
      case InnerRef(n) =>
        assert Own(s) == Parts(n) + OwnAll(s.kids) && Lvs(s) == LvsAll(s.kids)
          && Row(s) == RowAll(s.kids) by { SkelParts(n, s.kids); }
        sep, right, now := InsertInner(n, s.kids, t, h, deg, before, after, k, v, newId);
    }
  }

  lemma SkelParts<V(0)>(n: InternalNode<Ref<V>>, kids: seq<Skel<V>>)
    ensures var s := SNode(n, kids);
            Own(s) == Parts(n) + OwnAll(kids) && Lvs(s) == LvsAll(kids) && Row(s) == RowAll(kids)
  {}

  /** The children of `n` and the trees they stand for, while `n` itself is still to be updated. */
  ghost predicate Spliced<V(0)>(n: InternalNode<Ref<V>>, kids: seq<Skel<V>>, i: nat, mid: seq<Skel<V>>,
                                all: seq<Skel<V>>,
                                t: Tree<V>, tm: seq<Tree<V>>, ts: seq<Tree<V>>)
    reads n, n.keys, n.ptrs
  {
    && i < |kids| && t.Node? && |kids| == |t.kids|
    && all == kids[..i] + mid + kids[i + 1..] && ts == t.kids[..i] + tm + t.kids[i + 1..]
    && Parts(n) !! AllOf(all) && RowAll(kids) != [] && RowAll(all) != [] && RowAll(all)[0] == RowAll(kids)[0]
  }

  /** The insertion into one child, seen from the row of children. */
  method InsertAmong<V(0)>(child: Ref<V>, ghost a: seq<Skel<V>>, ghost m: Skel<V>, ghost b: seq<Skel<V>>,
                           ghost ta: seq<Tree<V>>, ghost tm: Tree<V>, ghost tb: seq<Tree<V>>, ghost h: nat,
                             ghost deg: nat,
                           ghost before: LeafNode?<V>, ghost after: LeafNode?<V>, k: int, v: V, ghost newId: nat)
    returns (sep: int, right: Ref<V>, ghost mid: seq<Skel<V>>)
    requires child == RefOf(m) && |a| == |ta| && Stands(a + [m] + b, ta + [tm] + tb, h, deg, before, after)
    requires deg >= 2 && Shaped(tm, h) && !Overflows(tm, deg, k, v, newId, h)
    modifies Own(m), Lvs(m), Opt(Head(RowAll(b), after))`prev
    ensures var r := BTreeInsert.InsertKV(tm, deg, k, v, newId, h).0;
            HandsUp(r, child, sep, right, mid) && Stands(a + mid + b, ta + TreesOf(r) + tb, h, deg, before, after)
    ensures Row(m) != [] && RowAll(mid) != [] && RowAll(mid)[0] == Row(m)[0]
    ensures forall o :: o in AllOf(mid) ==> o in All(m) || fresh(o)
    decreases h, 3
  {
    hide Stands, Around, Loose, Linked, Chain, Own, Lvs, OwnAll, LvsAll, RowAll, Row, Sep, SepAll, Rep, RepAll, HandsUp,
         BTreeInsert.InsertKV, Overflows, TreesOf;
    AllAllocated(a);
    AllAllocated(b);
    Allocated(m);
    RowOne(m);
    SomeRow(a, m, b, ta, tm, tb, h, deg, before, after);
    AllOne(m);
    StandsAround(a, [m], b, ta, [tm], tb, h, deg, before, after);
    ghost var first, last := Row(m)[0], Row(m)[|Row(m)| - 1];
    Loosen(a, b, ta, tb, h, deg, first, last, before, after);
    sep, right, mid := InsertKV(child, m, tm, h, deg, Last(RowAll(a), before), Head(RowAll(b), after), k, v, newId);
    ghost var r := BTreeInsert.InsertKV(tm, deg, k, v, newId, h).0;
    assert Loose(a, b, ta, tb, h, deg, first, before, after);
    assert Opt(after) !! AllOf(mid);
    Rejoin(a, mid, b, ta, TreesOf(r), tb, h, deg, first, before, after);
  }

  lemma OnlyNew<V(0)>(a: seq<Skel<V>>, m: Skel<V>, mid: seq<Skel<V>>, b: seq<Skel<V>>)
    ensures AllOf(a + mid + b) <= AllOf(a + [m] + b) + AllOf(mid) && All(m) <= AllOf(a + [m] + b)
    ensures RowAll(a + [m] + b) == RowAll(a) + Row(m) + RowAll(b)
    ensures RowAll(a + mid + b) == RowAll(a) + RowAll(mid) + RowAll(b)
  {
    hide OwnAll, LvsAll, Own, Lvs, Row, RowAll;
    AroundAll(a, [m], b);
    AroundAll(a, mid, b);
    AllOne(m);
    RowOne(m);
  }

  /** The insertion into the child that the key is routed to. */
  method InsertBelow<V(0)>(n: InternalNode<Ref<V>>, ghost kids: seq<Skel<V>>, ghost t: Tree<V>, ghost h: nat,
                           ghost deg: nat,
                           ghost before: LeafNode?<V>, ghost after: LeafNode?<V>, k: int, v: V, ghost newId: nat)
    returns (i: nat, sep: int, right: Ref<V>, ghost mid: seq<Skel<V>>, ghost all: seq<Skel<V>>, ghost ts: seq<Tree<V>>)
    requires Stands([SNode(n, kids)], [t], h, deg, before, after)
    requires deg >= 2 && Shaped(t, h) && !Overflows(t, deg, k, v, newId, h)
    modifies OwnAll(kids), LvsAll(kids), Opt(after)`prev
    ensures h > 0 && t.Node? && i == Route(t.keys, k) && NodeHolds(n, t.keys, Refs(kids), deg)
    ensures var r := BTreeInsert.InsertKV(t.kids[i], deg, k, v, newId, h - 1).0;
            Spliced(n, kids, i, mid, all, t, TreesOf(r), ts) && HandsUp(r, RefOf(kids[i]), sep, right, mid)
    ensures Stands(all, ts, h - 1, deg, before, after)
    ensures forall o :: o in AllOf(all) ==> o in AllOf(kids) || fresh(o)
    decreases h, 0
  {
    hide Stands, Own, Lvs, OwnAll, LvsAll, AllOf, All, RowAll, Row, HandsUp, BTreeInsert.InsertKV, TreesOf, Route;
    AllAllocated(kids);
    AllOfHas(kids);
    NodeStands(n, kids, t, h, deg, before, after);
    i := n.ChildFor(k);
    ghost var a, m, b := kids[..i], kids[i], kids[i + 1..];
    ghost var ta, tm, tb := t.kids[..i], t.kids[i], t.kids[i + 1..];
    assert |kids| == |t.kids| by { StandsLength(kids, t.kids, h - 1, deg, before, after); }
    assert kids == a + [m] + b && t.kids == ta + [tm] + tb;
    AroundAll(a, [m], b);
    AllOne(m);
    sep, right, mid := InsertAmong(n.ptrs[i], a, m, b, ta, tm, tb, h - 1, deg, before, after, k, v, newId);
    ghost var r := BTreeInsert.InsertKV(tm, deg, k, v, newId, h - 1).0;
    all, ts := a + mid + b, ta + TreesOf(r) + tb;
    OnlyNew(a, m, mid, b);
  }

  /** What is around some children, regardless of what the leaf after them points back to. */
  ghost predicate Loose<V(0)>(a: seq<Skel<V>>, b: seq<Skel<V>>, ta: seq<Tree<V>>, tb: seq<Tree<V>>, h: nat, deg: nat,
                              first: LeafNode<V>, before: LeafNode?<V>, after: LeafNode?<V>)
    reads OwnAll(a), LvsAll(a), OwnAll(b), LvsAll(b)`nkeys, RowAll(b)`next, Rest(RowAll(b))`prev
  {
    && SepAll(a) && SepAll(b) && AllOf(a) !! AllOf(b) && RepAll(a, ta, h, deg) && RepAll(b, tb, h, deg)
    && Linked(RowAll(a), before, first) && Tail(RowAll(b), after)
    && Opt(after) !! AllOf(a) && Opt(after) !! AllOf(b) && (RowAll(b) != [] ==> RowAll(b)[0] !in Rest(RowAll(b)))
  }

  lemma Loosen<V(0)>(a: seq<Skel<V>>, b: seq<Skel<V>>, ta: seq<Tree<V>>, tb: seq<Tree<V>>, h: nat, deg: nat,
                    first: LeafNode<V>, last: LeafNode<V>, before: LeafNode?<V>, after: LeafNode?<V>)
    requires Around(a, b, ta, tb, h, deg, first, last, before, after) && last !in LvsAll(b)
    ensures Loose(a, b, ta, tb, h, deg, first, before, after)
    ensures RowAll(b) != [] && after != null ==> after.prev == Last(RowAll(b), last) && after != RowAll(b)[0]
    ensures Opt(Head(RowAll(b), after)) !! OwnAll(a) + LvsAll(a) + OwnAll(b)
    ensures Head(RowAll(b), after) !in Rest(RowAll(b))
  {
    hide SepAll, RepAll, Linked, Tail, OwnAll, LvsAll, RowAll;
    TailOf(RowAll(b), last, after);
    OwnApart(b);
    assert RowAll(b) != [] ==> RowAll(b)[0] in LvsAll(b);
  }

  lemma Rejoin<V(0)>(a: seq<Skel<V>>, m: seq<Skel<V>>, b: seq<Skel<V>>, ta: seq<Tree<V>>, tm: seq<Tree<V>>,
                     tb: seq<Tree<V>>,
                     h: nat, deg: nat, first: LeafNode<V>, before: LeafNode?<V>, after: LeafNode?<V>)
    requires |a| == |ta| && RowAll(m) != [] && RowAll(m)[0] == first
    requires Loose(a, b, ta, tb, h, deg, first, before, after)
    requires Stands(m, tm, h, deg, Last(RowAll(a), before), Head(RowAll(b), after))
    requires AllOf(m) !! AllOf(a) && AllOf(m) !! AllOf(b) && Opt(after) !! AllOf(m)
    requires RowAll(b) != [] && after != null ==> after.prev == Last(RowAll(b), first)
    ensures Stands(a + m + b, ta + tm + tb, h, deg, before, after)
  {
    hide SepAll, RepAll, Linked, Tail, OwnAll, LvsAll;
    var ms := RowAll(m);
    TailLinked(RowAll(b), ms[|ms| - 1], after);
    assert |m| == |tm| by { StandsLength(m, tm, h, deg, Last(RowAll(a), before), Head(RowAll(b), after)); }
    StandsAround(a, m, b, ta, tm, tb, h, deg, before, after);
  }

  /** The pointers of a node, after one child has become one or two. */
  lemma RefsSplice<V(0)>(kids: seq<Skel<V>>, i: nat, mid: seq<Skel<V>>)
    requires i < |kids| && 1 <= |mid| <= 2 && RefOf(mid[0]) == RefOf(kids[i])
    ensures Refs(kids[..i] + mid + kids[i + 1..])
         == if |mid| == 1 then Refs(kids) else InsertAt(Refs(kids), i + 1, RefOf(mid[1]))
  {}

  lemma RefsCut<V(0)>(kids: seq<Skel<V>>, c: nat)
    requires c <= |kids|
    ensures |Refs(kids)| == |kids| && Refs(kids[..c]) == Refs(kids)[..c] && Refs(kids[c..]) == Refs(kids)[c..]
  {}

  lemma NodeAlone<V(0)>(n: InternalNode<Ref<V>>, kids: seq<Skel<V>>)
    ensures RowAll([SNode(n, kids)]) == RowAll(kids) && AllOf([SNode(n, kids)]) == Parts(n) + AllOf(kids)
  {
    hide OwnAll, LvsAll, RowAll;
    AllOne(SNode(n, kids));
    RowOne(SNode(n, kids));
  }

  lemma InsertAtLength<T>(s: seq<T>, i: nat, x: T)
    requires i <= |s|
    ensures |InsertAt(s, i, x)| == |s| + 1
  {}

  /** A full node and its new right sibling. */
  lemma HalvesStand<V(0)>(n: InternalNode<Ref<V>>, q: InternalNode<Ref<V>>, all: seq<Skel<V>>, ks: seq<int>,
                          ts: seq<Tree<V>>,
                          h: nat, deg: nat, before: LeafNode?<V>, after: LeafNode?<V>)
    requires h > 0 && 2 <= deg == |ks| && |all| == |ts| == deg + 1 && Stands(all, ts, h - 1, deg, before, after)
    requires NodeHolds(n, ks[..deg / 2], Refs(all)[..deg / 2 + 1], deg)
    requires NodeHolds(q, ks[deg / 2 + 1..], Refs(all)[deg / 2 + 1..], deg)
    requires Parts(n) !! Parts(q) && Parts(n) !! AllOf(all) && Parts(q) !! AllOf(all)
    requires Opt(after) !! Parts(n) && Opt(after) !! Parts(q)
    ensures var now := [SNode(n, all[..deg / 2 + 1]), SNode(q, all[deg / 2 + 1..])];
            && Stands(now, TreesOf(SplitNode(ks, ts, deg)), h, deg, before, after)
            && RowAll(now) == RowAll(all) && AllOf(now) == Parts(n) + Parts(q) + AllOf(all)
  {
    hide Stands, AllOf, RowAll, NodeHolds, Parts, Refs;
    var c := deg / 2 + 1;
    RefsCut(all, c);
    assert all == all[..c] + all[c..] && ts == ts[..c] + ts[c..];
    NodesStand(n, q, all[..c], all[c..], Node(ks[..deg / 2], ts[..c]), Node(ks[c..], ts[c..]), h, deg, before, after);
  }

  /** The node takes in the right half of a split child, and splits in turn if it is full. */
  method TakeIn<V(0)>(n: InternalNode<Ref<V>>, i: nat, midSep: int, midRight: Ref<V>,
                      ghost all: seq<Skel<V>>, ghost keys: seq<int>, ghost refs: seq<Ref<V>>, ghost ts: seq<Tree<V>>,
                      ghost h: nat, ghost deg: nat, ghost before: LeafNode?<V>, ghost after: LeafNode?<V>)
    returns (sep: int, right: Ref<V>, ghost now: seq<Skel<V>>)
    requires h > 0 && 2 <= deg && i <= |keys| < deg && |ts| == |keys| + 2 && |refs| == |keys| + 1
    requires NodeHolds(n, keys, refs, deg) && Refs(all) == InsertAt(refs, i + 1, midRight)
    requires Stands(all, ts, h - 1, deg, before, after) && Parts(n) !! AllOf(all) && Opt(after) !! Parts(n)
    modifies Parts(n)
    ensures var r := SplitNode(InsertAt(keys, i, midSep), ts, deg);
            Stands(now, TreesOf(r), h, deg, before, after) && HandsUp(r, InnerRef(n), sep, right, now)
    ensures RowAll(now) == RowAll(all) && forall o :: o in AllOf(now) ==> o in Parts(n) || o in AllOf(all) || fresh(o)
  {
    hide Stands, OwnAll, LvsAll, RowAll, InsertAt;
    AllAllocated(all);
    InsertAtLength(keys, i, midSep);
    InsertAtLength(refs, i + 1, midRight);
    ghost var ks := InsertAt(keys, i, midSep);
    var pKey, rn := n.InsertChild(i, midSep, midRight);
    sep := pKey;
    if rn == null {
      right, now := Nil, [SNode(n, all)];
      NodeStands(n, all, Node(ks, ts), h, deg, before, after);
      NodeAlone(n, all);
    } else {
      ghost var c := deg / 2 + 1;
      right, now := InnerRef(rn), [SNode(n, all[..c]), SNode(rn, all[c..])];
      HalvesStand(n, rn, all, ks, ts, h, deg, before, after);
    }
  }

  method InsertInner<V(0)>(n: InternalNode<Ref<V>>, ghost kids: seq<Skel<V>>, ghost t: Tree<V>, ghost h: nat,
                           ghost deg: nat,
                           ghost before: LeafNode?<V>, ghost after: LeafNode?<V>, k: int, v: V, ghost newId: nat)
    returns (sep: int, right: Ref<V>, ghost now: seq<Skel<V>>)
    requires Stands([SNode(n, kids)], [t], h, deg, before, after)
    requires deg >= 2 && Shaped(t, h) && !Overflows(t, deg, k, v, newId, h)
    modifies Parts(n), OwnAll(kids), LvsAll(kids), Opt(after)`prev
    ensures var r := BTreeInsert.InsertKV(t, deg, k, v, newId, h).0;
            Stands(now, TreesOf(r), h, deg, before, after) && HandsUp(r, InnerRef(n), sep, right, now)
    ensures RowAll(kids) != [] && RowAll(now) != [] && RowAll(now)[0] == RowAll(kids)[0]
    ensures forall o :: o in AllOf(now) ==> o in Parts(n) || o in AllOf(kids) || fresh(o)
    decreases h, 1
  {
    hide Stands, OwnAll, LvsAll, AllOf, RowAll, Route, InsertAt, NodeHolds;
    assert Opt(after) !! Parts(n) by { NodeStands(n, kids, t, h, deg, before, after); }
    var i, midSep, midRight;
    ghost var mid, all, ts;
    i, midSep, midRight, mid, all, ts := InsertBelow(n, kids, t, h, deg, before, after, k, v, newId);
    ghost var r0 := BTreeInsert.InsertKV(t.kids[i], deg, k, v, newId, h - 1).0;
    assert BTreeInsert.InsertKV(t, deg, k, v, newId, h).0 == TakeChild(t.keys, t.kids, i, r0, deg);
    RefsSplice(kids, i, mid);
    if midRight == Nil {
      sep, right, now := 0, Nil, [SNode(n, all)];
      assert ts == t.kids[i := r0.t];
      NodeStands(n, all, Node(t.keys, ts), h, deg, before, after);
      NodeAlone(n, all);
    } else {
      sep, right, now := TakeIn(n, i, midSep, midRight, all, t.keys, Refs(kids), ts, h, deg, before, after);
    }
  }

  lemma StandsLength<V(0)>(kids: seq<Skel<V>>, ts: seq<Tree<V>>, h: nat, deg: nat, before: LeafNode?<V>,
                           after: LeafNode?<V>)
    requires Stands(kids, ts, h, deg, before, after)
    ensures |kids| == |ts|
  {}

  lemma AroundAll<V(0)>(a: seq<Skel<V>>, m: seq<Skel<V>>, b: seq<Skel<V>>)
    ensures OwnAll(a + m + b) == OwnAll(a) + OwnAll(m) + OwnAll(b)
    ensures LvsAll(a + m + b) == LvsAll(a) + LvsAll(m) + LvsAll(b)
    ensures RowAll(a + m + b) == RowAll(a) + RowAll(m) + RowAll(b)
  {
    hide OwnAll, LvsAll, RowAll;
    AllConcat(a, m);
    AllConcat(a + m, b);
    RowConcat(a, m);
    RowConcat(a + m, b);
  }

  lemma SomeRow<V(0)>(a: seq<Skel<V>>, m: Skel<V>, b: seq<Skel<V>>, ta: seq<Tree<V>>, tm: Tree<V>, tb: seq<Tree<V>>,
                      h: nat, deg: nat,
                      before: LeafNode?<V>, after: LeafNode?<V>)
    requires |a| == |ta| && Stands(a + [m] + b, ta + [tm] + tb, h, deg, before, after) && Shaped(tm, h)
    ensures Row(m) != []
  {
    hide RepAll, Row, Rep, SepAll, Chain;
    RepAround(a, [m], b, ta, [tm], tb, h, deg);
    RepOne(m, tm, h, deg);
    RowSome(m, tm, h, deg);
  }

  lemma RepOne<V(0)>(s: Skel<V>, t: Tree<V>, h: nat, deg: nat)
    ensures RepAll([s], [t], h, deg) <==> Rep(s, t, h, deg)
  {
    hide Rep;
    assert [s][0] == s && [t][0] == t;
  }
}
