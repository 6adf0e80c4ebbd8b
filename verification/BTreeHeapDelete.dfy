/** Deletion from the B+ tree on the heap (b+tree.go, lines 157-235, 309-434 and 558-567). */
module BTreeHeapDelete {
  import opened Options
  import opened BTree
  import opened BTreeInsert
  import opened BTreeDelete
  import opened BTreeNodes
  import opened BTreeHeap

  /** What is done to two neighbours of which one is too small. */
  datatype Fix = FromRight | FromLeft | Join

  ghost predicate Fixable<V>(p: Pair<V>, f: Fix, deg: nat) {
    && Alike(p) && deg >= 2
    && match f
       case FromRight => Size(p.a) < deg / 2 < Size(p.b)
       case FromLeft => Size(p.b) < deg / 2 < Size(p.a)
       case Join => Size(p.a) + Size(p.b) < 2 * (deg / 2)
  }

  ghost function FixedTrees<V>(p: Pair<V>, f: Fix, deg: nat): seq<Tree<V>>
    requires Fixable(p, f, deg)
  {
    match f
    case FromRight => var q := StealFromRight(p); [q.a, q.b]
    case FromLeft => var q := StealFromLeft(p); [q.a, q.b]
    case Join => [MergeWithRight(p).0]
  }

  ghost function FixedSep<V>(p: Pair<V>, f: Fix, deg: nat): int
    requires Fixable(p, f, deg)
  {
    match f
    case FromRight => StealFromRight(p).sep
    case FromLeft => StealFromLeft(p).sep
    case Join => p.sep
  }

  /** The subtrees after the repair: the first, and unless it was a merge the second, in place. */
  ghost predicate InPlace<V(0)>(f: Fix, x: Ref<V>, y: Ref<V>, now: seq<Skel<V>>) {
    if f.Join? then |now| == 1 && RefOf(now[0]) == x else |now| == 2 && RefOf(now[0]) == x && RefOf(now[1]) == y
  }

  method FixLeaves<V(0)>(x: LeafNode<V>, y: LeafNode<V>, f: Fix, sep: int, ghost tx: Tree<V>, ghost ty: Tree<V>,
                         ghost deg: nat,
                         ghost before: LeafNode?<V>, ghost after: LeafNode?<V>)
    returns (mid: int, ghost now: seq<Skel<V>>)
    requires Stands([SLeaf(x), SLeaf(y)], [tx, ty], 0, deg, before, after) && Fixable(Pair(tx, sep, ty), f, deg)
    modifies x, x.slots, y, y.slots, Opt(after)`prev
    ensures var p := Pair(tx, sep, ty);
            Stands(now, FixedTrees(p, f, deg), 0, deg, before, after) && mid == FixedSep(p, f, deg)
    ensures InPlace(f, LeafRef(x), LeafRef(y), now) && RowAll(now) != [] && RowAll(now)[0] == x
    ensures AllOf(now) <= {x, x.slots, y, y.slots}
  {
    hide LowerBound, Put, Stands, Rep, Sep, Own, Lvs, OwnAll, LvsAll, Chain, Row, RowAll;
    var sx, sy := SLeaf(x), SLeaf(y);
    TwoStand(sx, sy, tx, ty, 0, deg, before, after);
    LeafRep(x, tx, deg);
    LeafRep(y, ty, deg);
    ChainTwo(x, y, before, after);
    AllTwo(sx, sy);
    RowTwo(sx, sy);
    ghost var ts := FixedTrees(Pair(tx, sep, ty), f, deg);
    match f {
      case FromRight =>
        mid := x.StealFromRight(y);
        now := [sx, sy];
        LeafRep(x, ts[0], deg);
        LeafRep(y, ts[1], deg);
        ChainTwo(x, y, before, after);
        TwoStand(sx, sy, ts[0], ts[1], 0, deg, before, after);
      case FromLeft =>
        mid := y.StealFromLeft(x);
        now := [sx, sy];
        LeafRep(x, ts[0], deg);
        LeafRep(y, ts[1], deg);
        ChainTwo(x, y, before, after);
        TwoStand(sx, sy, ts[0], ts[1], 0, deg, before, after);
      case Join =>
        mid := sep;
        x.MergeWithRight(y);
        now := [sx];
        LeafRep(x, ts[0], deg);
        ChainOne(x, before, after);
        OneStands(sx, ts[0], 0, deg, before, after);
        AllOne(sx);
        RowOne(sx);
    }
  }

  /** Two nodes side by side, taken apart. */
  lemma NodesParts<V(0)>(n: InternalNode<Ref<V>>, q: InternalNode<Ref<V>>, ks: seq<Skel<V>>, us: seq<Skel<V>>,
                         t: Tree<V>, w: Tree<V>, h: nat, deg: nat, before: LeafNode?<V>, after: LeafNode?<V>)
    requires Stands([SNode(n, ks), SNode(q, us)], [t, w], h, deg, before, after)
    ensures h > 0 && t.Node? && w.Node? && |ks| == |t.kids| && |us| == |w.kids|
    ensures NodeHolds(n, t.keys, Refs(ks), deg) && NodeHolds(q, w.keys, Refs(us), deg)
    ensures Stands(ks + us, t.kids + w.kids, h - 1, deg, before, after)
    ensures Parts(n) !! Parts(q) && Parts(n) !! AllOf(ks + us) && Parts(q) !! AllOf(ks + us)
    ensures Opt(after) !! Parts(n) && Opt(after) !! Parts(q)
    ensures RowAll([SNode(n, ks), SNode(q, us)]) == RowAll(ks + us)
    ensures AllOf([SNode(n, ks), SNode(q, us)]) == Parts(n) + Parts(q) + AllOf(ks + us)
  {
    hide NodeHolds, SepAll, OwnAll, LvsAll, RowAll, Chain, Parts, Linked;
    var x, y := SNode(n, ks), SNode(q, us);
    SepConcat(ks, us);
    AllConcat(ks, us);
    RowConcat(ks, us);
    RowTwo(x, y);
    AllTwo(x, y);
    TwoStand(x, y, t, w, h, deg, before, after);
    RepConcat(ks, us, t.kids, w.kids, h - 1, deg);
  }

  lemma RefsConcat<V(0)>(a: seq<Skel<V>>, b: seq<Skel<V>>)
    ensures Refs(a + b) == Refs(a) + Refs(b)
  {}

  lemma RefsOne<V(0)>(s: Skel<V>)
    ensures Refs([s]) == [RefOf(s)]
  {}

  lemma StealRightTrees<V>(tx: Tree<V>, sep: int, ty: Tree<V>, deg: nat)
    requires Fixable(Pair(tx, sep, ty), FromRight, deg) && tx.Node?
    ensures var ts := FixedTrees(Pair(tx, sep, ty), FromRight, deg);
            && ts == [Node(tx.keys + [sep], tx.kids + [ty.kids[0]]), Node(ty.keys[1..], ty.kids[1..])]
            && ts[0].kids + ts[1].kids == tx.kids + ty.kids && FixedSep(Pair(tx, sep, ty), FromRight, deg) == ty.keys[0]
  {}

  method StealInnerRight<V(0)>(x: InternalNode<Ref<V>>, y: InternalNode<Ref<V>>, ghost kx: seq<Skel<V>>,
                               ghost ky: seq<Skel<V>>,
                         sep: int, ghost tx: Tree<V>, ghost ty: Tree<V>, ghost h: nat, ghost deg: nat,
                         ghost before: LeafNode?<V>, ghost after: LeafNode?<V>)
    returns (mid: int, ghost now: seq<Skel<V>>)
    requires Stands([SNode(x, kx), SNode(y, ky)], [tx, ty], h, deg, before, after)
    requires Fixable(Pair(tx, sep, ty), FromRight, deg)
    modifies Parts(x), Parts(y)
    ensures var p := Pair(tx, sep, ty);
            Stands(now, FixedTrees(p, FromRight, deg), h, deg, before, after) && mid == FixedSep(p, FromRight, deg)
    ensures InPlace(FromRight, InnerRef(x), InnerRef(y), now) && RowAll(now) == RowAll(kx + ky)
    ensures AllOf(now) <= Parts(x) + Parts(y) + AllOf(kx + ky)
  {
    hide Stands, OwnAll, LvsAll, RowAll, Refs, FixedTrees, FixedSep;
    AllAllocated(kx + ky);
    NodesParts(x, y, kx, ky, tx, ty, h, deg, before, after);
    ghost var ts := FixedTrees(Pair(tx, sep, ty), FromRight, deg);
    ghost var kx', ky' := kx + [ky[0]], ky[1..];
    assert ky == [ky[0]] + ky';
    RefsConcat(kx, [ky[0]]);
    RefsConcat([ky[0]], ky');
    RefsOne(ky[0]);
    assert Refs(ky') == Refs(ky)[1..] && kx' + ky' == kx + ky;
    StealRightTrees(tx, sep, ty, deg);
    mid := x.StealFromRight(y, sep);
    now := [SNode(x, kx'), SNode(y, ky')];
    NodesStand(x, y, kx', ky', ts[0], ts[1], h, deg, before, after);
  }

  lemma StealLeftTrees<V>(tx: Tree<V>, sep: int, ty: Tree<V>, deg: nat)
    requires Fixable(Pair(tx, sep, ty), FromLeft, deg) && tx.Node?
    ensures var ts, c := FixedTrees(Pair(tx, sep, ty), FromLeft, deg), |tx.keys| - 1;
            && ts == [Node(tx.keys[..c], tx.kids[..c + 1]), Node([sep] + ty.keys, [tx.kids[c + 1]] + ty.kids)]
            && ts[0].kids + ts[1].kids == tx.kids + ty.kids && FixedSep(Pair(tx, sep, ty), FromLeft, deg) == tx.keys[c]
  {}

  method StealInnerLeft<V(0)>(x: InternalNode<Ref<V>>, y: InternalNode<Ref<V>>, ghost kx: seq<Skel<V>>,
                              ghost ky: seq<Skel<V>>,
                         sep: int, ghost tx: Tree<V>, ghost ty: Tree<V>, ghost h: nat, ghost deg: nat,
                         ghost before: LeafNode?<V>, ghost after: LeafNode?<V>)
    returns (mid: int, ghost now: seq<Skel<V>>)
    requires Stands([SNode(x, kx), SNode(y, ky)], [tx, ty], h, deg, before, after)
    requires Fixable(Pair(tx, sep, ty), FromLeft, deg)
    modifies Parts(x), Parts(y)
    ensures var p := Pair(tx, sep, ty);
            Stands(now, FixedTrees(p, FromLeft, deg), h, deg, before, after) && mid == FixedSep(p, FromLeft, deg)
    ensures InPlace(FromLeft, InnerRef(x), InnerRef(y), now) && RowAll(now) == RowAll(kx + ky)
    ensures AllOf(now) <= Parts(x) + Parts(y) + AllOf(kx + ky)
  {
    hide Stands, OwnAll, LvsAll, RowAll, Refs, FixedTrees, FixedSep;
    AllAllocated(kx + ky);
    NodesParts(x, y, kx, ky, tx, ty, h, deg, before, after);
    ghost var ts := FixedTrees(Pair(tx, sep, ty), FromLeft, deg);
    ghost var c := |kx| - 1;
    ghost var kx', ky' := kx[..c], [kx[c]] + ky;
    assert kx == kx' + [kx[c]] && kx' + ky' == kx + ky;
    StealLeftTrees(tx, sep, ty, deg);
    RefsConcat(kx', [kx[c]]);
    RefsConcat([kx[c]], ky);
    RefsOne(kx[c]);
    mid := y.StealFromLeft(x, sep);
    now := [SNode(x, kx'), SNode(y, ky')];
    NodesStand(x, y, kx', ky', ts[0], ts[1], h, deg, before, after);
  }

  method JoinInners<V(0)>(x: InternalNode<Ref<V>>, y: InternalNode<Ref<V>>, ghost kx: seq<Skel<V>>,
                          ghost ky: seq<Skel<V>>,
                         sep: int, ghost tx: Tree<V>, ghost ty: Tree<V>, ghost h: nat, ghost deg: nat,
                         ghost before: LeafNode?<V>, ghost after: LeafNode?<V>)
    returns (mid: int, ghost now: seq<Skel<V>>)
    requires Stands([SNode(x, kx), SNode(y, ky)], [tx, ty], h, deg, before, after)
    requires Fixable(Pair(tx, sep, ty), Join, deg)
    modifies Parts(x), Parts(y)
    ensures var p := Pair(tx, sep, ty);
            Stands(now, FixedTrees(p, Join, deg), h, deg, before, after) && mid == FixedSep(p, Join, deg)
    ensures InPlace(Join, InnerRef(x), InnerRef(y), now) && RowAll(now) == RowAll(kx + ky)
    ensures AllOf(now) <= Parts(x) + Parts(y) + AllOf(kx + ky)
  {
    hide Stands, OwnAll, LvsAll, RowAll, Refs;
    AllAllocated(kx + ky);
    NodesParts(x, y, kx, ky, tx, ty, h, deg, before, after);
    ghost var ts := FixedTrees(Pair(tx, sep, ty), Join, deg);
    RefsConcat(kx, ky);
    mid := sep;
    x.MergeWithRight(y, sep);
    now := [SNode(x, kx + ky)];
    NodeStands(x, kx + ky, ts[0], h, deg, before, after);
    NodeAlone(x, kx + ky);
  }

  lemma SameKind<V(0)>(sx: Skel<V>, sy: Skel<V>, tx: Tree<V>, ty: Tree<V>, sep: int, h: nat, deg: nat,
                       before: LeafNode?<V>, after: LeafNode?<V>)
    requires Stands([sx, sy], [tx, ty], h, deg, before, after) && Alike(Pair(tx, sep, ty))
    ensures sx.SLeaf? <==> sy.SLeaf?
    ensures sx.SLeaf? ==>
              h == 0 && OwnAll([sx, sy]) == {sx.leaf.slots, sy.leaf.slots} && LvsAll([sx, sy]) == {sx.leaf, sy.leaf}
    ensures sx.SLeaf? ==> RowAll([sx, sy]) == [sx.leaf, sy.leaf]
    ensures sx.SNode? ==> OwnAll([sx, sy]) == Parts(sx.inner) + Parts(sy.inner) + OwnAll(sx.kids + sy.kids)
    ensures sx.SNode? ==> LvsAll([sx, sy]) == LvsAll(sx.kids + sy.kids) && RowAll([sx, sy]) == RowAll(sx.kids + sy.kids)
  {
    hide SepAll, OwnAll, LvsAll, RowAll, Chain, Parts, Linked;
    TwoStand(sx, sy, tx, ty, h, deg, before, after);
    AllTwo(sx, sy);
    RowTwo(sx, sy);
    if sx.SNode? {
      AllConcat(sx.kids, sy.kids);
      RowConcat(sx.kids, sy.kids);
    }
  }

  /** The repair, by the kind of the two nodes. */
  method FixPair<V(0)>(x: Ref<V>, y: Ref<V>, ghost sx: Skel<V>, ghost sy: Skel<V>, f: Fix, sep: int,
                       ghost tx: Tree<V>, ghost ty: Tree<V>, ghost h: nat, ghost deg: nat,
                       ghost before: LeafNode?<V>, ghost after: LeafNode?<V>)
    returns (mid: int, ghost now: seq<Skel<V>>)
    requires x == RefOf(sx) && y == RefOf(sy) && RowAll([sx, sy]) != []
    requires Stands([sx, sy], [tx, ty], h, deg, before, after) && Fixable(Pair(tx, sep, ty), f, deg)
    modifies OwnAll([sx, sy]), LvsAll([sx, sy]), Opt(after)`prev
    ensures var p := Pair(tx, sep, ty);
            Stands(now, FixedTrees(p, f, deg), h, deg, before, after) && mid == FixedSep(p, f, deg)
    ensures InPlace(f, x, y, now) && RowAll(now) != [] && RowAll(now)[0] == RowAll([sx, sy])[0]
    ensures AllOf(now) <= AllOf([sx, sy])
  {
    hide Stands, OwnAll, LvsAll, RowAll, FixedTrees, FixedSep, InPlace;
    SameKind(sx, sy, tx, ty, sep, h, deg, before, after);
    match x {
      case LeafRef(lx) =>
        mid, now := FixLeaves(lx, y.leaf, f, sep, tx, ty, deg, before, after);
      case InnerRef(nx) =>
        match f {
          case FromRight =>
            mid, now := StealInnerRight(nx, y.inner, sx.kids, sy.kids, sep, tx, ty, h, deg, before, after);
          case FromLeft =>
            mid, now := StealInnerLeft(nx, y.inner, sx.kids, sy.kids, sep, tx, ty, h, deg, before, after);
          case Join =>
            mid, now := JoinInners(nx, y.inner, sx.kids, sy.kids, sep, tx, ty, h, deg, before, after);
        }
    }
  }

  /** The repair of two neighbours, seen from the row of children. */
  method FixAmong<V(0)>(x: Ref<V>, y: Ref<V>, ghost a: seq<Skel<V>>, ghost sx: Skel<V>, ghost sy: Skel<V>,
                        ghost b: seq<Skel<V>>,
                        f: Fix, sep: int, ghost ta: seq<Tree<V>>, ghost tx: Tree<V>, ghost ty: Tree<V>,
                          ghost tb: seq<Tree<V>>,
                        ghost h: nat, ghost deg: nat, ghost before: LeafNode?<V>, ghost after: LeafNode?<V>)
    returns (mid: int, ghost now: seq<Skel<V>>)
    requires x == RefOf(sx) && y == RefOf(sy) && RowAll([sx, sy]) != [] && Fixable(Pair(tx, sep, ty), f, deg)
    requires |a| == |ta| && Stands(a + [sx, sy] + b, ta + [tx, ty] + tb, h, deg, before, after)
    modifies OwnAll([sx, sy]), LvsAll([sx, sy]), Opt(Head(RowAll(b), after))`prev
    ensures var p := Pair(tx, sep, ty);
            Stands(a + now + b, ta + FixedTrees(p, f, deg) + tb, h, deg, before, after) && mid == FixedSep(p, f, deg)
    ensures InPlace(f, x, y, now) && RowAll(now) != [] && RowAll(now)[0] == RowAll([sx, sy])[0]
    ensures AllOf(now) <= AllOf([sx, sy])
  {
    hide Stands, Around, Loose, OwnAll, LvsAll, RowAll, FixedTrees, FixedSep, InPlace, Fixable;
    AllAllocated(a);
    AllAllocated(b);
    ghost var m := [sx, sy];
    StandsAround(a, m, b, ta, [tx, ty], tb, h, deg, before, after);
    ghost var first, last := RowAll(m)[0], RowAll(m)[|RowAll(m)| - 1];
    Loosen(a, b, ta, tb, h, deg, first, last, before, after);
    mid, now := FixPair(x, y, sx, sy, f, sep, tx, ty, h, deg, Last(RowAll(a), before), Head(RowAll(b), after));
    assert Loose(a, b, ta, tb, h, deg, first, before, after);
    Rejoin(a, now, b, ta, FixedTrees(Pair(tx, sep, ty), f, deg), tb, h, deg, first, before, after);
  }

  /** A node and its children, ready for a repair among them. */
  ghost predicate Ready<V(0)>(n: InternalNode<Ref<V>>, kids: seq<Skel<V>>, keys: seq<int>, ts: seq<Tree<V>>, h: nat,
                              deg: nat,
                              before: LeafNode?<V>, after: LeafNode?<V>)
    reads Parts(n), OwnAll(kids), LvsAll(kids), (if after == null then {} else {after})`prev
  {
    && h > 0 && deg >= 2 && |kids| == |ts| == |keys| + 1 && Parts(n) !! AllOf(kids) && Opt(after) !! Parts(n)
    && NodeHolds(n, keys, Refs(kids), deg) && Stands(kids, ts, h - 1, deg, before, after)
  }

  ghost function FixedNode<V>(keys: seq<int>, ts: seq<Tree<V>>, j: nat, f: Fix, deg: nat): Tree<V>
    requires |ts| == |keys| + 1 && j < |keys| && Fixable(PairAt(keys, ts, j), f, deg)
  {
    var p := PairAt(keys, ts, j);
    Node(if f.Join? then RemoveAt(keys, j) else keys[j := FixedSep(p, f, deg)],
      ts[..j] + FixedTrees(p, f, deg) + ts[j + 2..])
  }

  lemma RefsPair<V(0)>(kids: seq<Skel<V>>, j: nat, f: Fix, now: seq<Skel<V>>)
    requires j + 1 < |kids| && InPlace(f, RefOf(kids[j]), RefOf(kids[j + 1]), now)
    ensures Refs(kids[..j] + now + kids[j + 2..]) == if f.Join? then RemoveAt(Refs(kids), j + 1) else Refs(kids)
  {}

  /** Two neighbouring children of `n` are repaired; `n` itself is still to be updated. */
  method RepairKids<V(0)>(n: InternalNode<Ref<V>>, j: nat, f: Fix, ghost kids: seq<Skel<V>>, ghost keys: seq<int>,
                          ghost ts: seq<Tree<V>>,
                          ghost h: nat, ghost deg: nat, ghost before: LeafNode?<V>, ghost after: LeafNode?<V>)
    returns (mid: int, ghost now: seq<Skel<V>>)
    requires Ready(n, kids, keys, ts, h, deg, before, after) && j < |keys| && Fixable(PairAt(keys, ts, j), f, deg)
    requires RowAll([kids[j], kids[j + 1]]) != []
    modifies OwnAll(kids), LvsAll(kids), Opt(after)`prev
    ensures NodeHolds(n, keys, Refs(kids), deg) && mid == FixedSep(PairAt(keys, ts, j), f, deg)
    ensures Stands(now, FixedNode(keys, ts, j, f, deg).kids, h - 1, deg, before, after)
    ensures Refs(now) == if f.Join? then RemoveAt(Refs(kids), j + 1) else Refs(kids)
    ensures RowAll(now) != [] && RowAll(kids) != [] && RowAll(now)[0] == RowAll(kids)[0] && AllOf(now) <= AllOf(kids)
  {
    hide Stands, OwnAll, LvsAll, RowAll, FixedTrees, FixedSep, InPlace, Fixable, Refs, RemoveAt;
    AllAllocated(kids);
    ghost var a, sx, sy, b := kids[..j], kids[j], kids[j + 1], kids[j + 2..];
    assert kids == a + [sx, sy] + b && ts == ts[..j] + [ts[j], ts[j + 1]] + ts[j + 2..];
    AroundAll(a, [sx, sy], b);
    RefsAt(kids, j);
    RefsAt(kids, j + 1);
    ghost var fx;
    mid, fx := FixAmong(n.ptrs[j], n.ptrs[j + 1], a, sx, sy, b, f, n.keys[j],
                        ts[..j], ts[j], ts[j + 1], ts[j + 2..], h - 1, deg, before, after);
    now := a + fx + b;
    AroundAll(a, fx, b);
    RefsPair(kids, j, f, fx);
  }

  /** Two neighbouring children of `n` are repaired, and `n` takes note. */
  method Repair<V(0)>(n: InternalNode<Ref<V>>, j: nat, f: Fix, ghost kids: seq<Skel<V>>, ghost keys: seq<int>,
                      ghost ts: seq<Tree<V>>,
                      ghost h: nat, ghost deg: nat, ghost before: LeafNode?<V>, ghost after: LeafNode?<V>)
    returns (ghost now: seq<Skel<V>>)
    requires Ready(n, kids, keys, ts, h, deg, before, after) && j < |keys| && Fixable(PairAt(keys, ts, j), f, deg)
    requires RowAll([kids[j], kids[j + 1]]) != []
    modifies Parts(n), OwnAll(kids), LvsAll(kids), Opt(after)`prev
    ensures Stands([SNode(n, now)], [FixedNode(keys, ts, j, f, deg)], h, deg, before, after)
    ensures RowAll(now) != [] && RowAll(kids) != [] && RowAll(now)[0] == RowAll(kids)[0] && AllOf(now) <= AllOf(kids)
  {
    hide Stands, OwnAll, LvsAll, RowAll, FixedTrees, FixedSep, Fixable, RemoveAt;
    var mid;
    mid, now := RepairKids(n, j, f, kids, keys, ts, h, deg, before, after);
    AllAllocated(now);
    if f.Join? {
      n.DelKeyAndPtr(j, j + 1);
    } else {
      n.keys[j] := mid;
    }
    NodeStands(n, now, FixedNode(keys, ts, j, f, deg), h, deg, before, after);
  }

  lemma RefsAt<V(0)>(kids: seq<Skel<V>>, j: nat)
    requires j < |kids|
    ensures |Refs(kids)| == |kids| && Refs(kids)[j] == RefOf(kids[j])
  {}

  /** getNKeys, by the kind of the node. */
  function NKeys<V(0)>(node: Ref<V>): nat
    requires !node.Nil?
    reads if node.LeafRef? then {node.leaf} else {}, if node.InnerRef? then {node.inner} else {}
  {
    match node
    case LeafRef(l) => l.nkeys
    case InnerRef(n) => n.nkeys
  }

  lemma NKeysAt<V(0)>(kids: seq<Skel<V>>, ts: seq<Tree<V>>, h: nat, deg: nat, before: LeafNode?<V>,
                      after: LeafNode?<V>, i: nat)
    requires Stands(kids, ts, h, deg, before, after) && i < |kids|
    ensures |kids| == |ts| && !RefOf(kids[i]).Nil? && NKeys(RefOf(kids[i])) == Size(ts[i])
  {
    assert Rep(kids[i], ts[i], h, deg);
  }

  /** The neighbours to work on and the kind of repair; None if the child has no neighbour. */
  ghost function Choice<V>(keys: seq<int>, ts: seq<Tree<V>>, i: nat, deg: nat): Option<(nat, Fix)>
    requires |ts| == |keys| + 1 && i < |ts|
  {
    if i < |keys| && Size(ts[i + 1]) > deg / 2 then Some((i, FromRight))
    else if i > 0 && Size(ts[i - 1]) > deg / 2 then Some((i - 1, FromLeft))
    else if i < |keys| then Some((i, Join))
    else if i > 0 then Some((i - 1, Join))
    else None
  }

  /** Every node that a refill works on has the room and the keys that the repair needs. */
  lemma ChoiceFits<V>(keys: seq<int>, ts: seq<Tree<V>>, i: nat, deg: nat)
    requires deg >= 2 && |ts| == |keys| + 1 && i < |ts| && Uniform(ts) && Size(ts[i]) < deg / 2
    ensures match Choice(keys, ts, i, deg)
            case None => true
            case Some((j, f)) => j < |keys| && j <= i <= j + 1 && Fixable(PairAt(keys, ts, j), f, deg)
  {}

  lemma ChoiceIsRefill<V>(keys: seq<int>, ts: seq<Tree<V>>, i: nat, deg: nat)
    requires deg >= 2 && |ts| == |keys| + 1 && i < |ts| && Uniform(ts) && Size(ts[i]) < deg / 2
    ensures match Choice(keys, ts, i, deg)
            case None => BTreeDelete.Refill(keys, ts, i, deg).0 == Node(keys, ts)
            case Some((j, f)) =>
              && j < |keys| && Fixable(PairAt(keys, ts, j), f, deg)
              && BTreeDelete.Refill(keys, ts, i, deg).0 == FixedNode(keys, ts, j, f, deg)
  {
    hide BTreeDelete.StealFromRight, BTreeDelete.StealFromLeft, MergeWithRight, Fixable, SetPair, MergeAt, FixedNode,
         Size;
    ChoiceFits(keys, ts, i, deg);
    match Choice(keys, ts, i, deg) {
      case None =>
      case Some((j, f)) => FixedIsSet(keys, ts, j, f, deg);
    }
  }

  lemma FixedIsSet<V>(keys: seq<int>, ts: seq<Tree<V>>, j: nat, f: Fix, deg: nat)
    requires |ts| == |keys| + 1 && j < |keys| && Fixable(PairAt(keys, ts, j), f, deg)
    ensures var p := PairAt(keys, ts, j);
            FixedNode(keys, ts, j, f, deg) == match f
              case FromRight => SetPair(keys, ts, j, BTreeDelete.StealFromRight(p))
              case FromLeft => SetPair(keys, ts, j, BTreeDelete.StealFromLeft(p))
              case Join => MergeAt(keys, ts, j).0
  {
    hide BTreeDelete.StealFromRight, BTreeDelete.StealFromLeft, MergeWithRight;
    forall a, b ensures ts[j := a][j + 1 := b] == ts[..j] + [a, b] + ts[j + 2..] {}
  }

  /** The program's way to the choice. */
  method Choose<V(0)>(n: InternalNode<Ref<V>>, i: nat, ghost kids: seq<Skel<V>>, ghost keys: seq<int>,
                      ghost ts: seq<Tree<V>>,
                      ghost h: nat, deg: nat, ghost before: LeafNode?<V>, ghost after: LeafNode?<V>)
    returns (c: Option<(nat, Fix)>)
    requires Ready(n, kids, keys, ts, h, deg, before, after) && i < |kids|
    ensures c == Choice(keys, ts, i, deg)
  {
    hide Stands, NKeys, Size;
    if i < n.nkeys { NKeysAt(kids, ts, h - 1, deg, before, after, i + 1); }
    if i > 0 { NKeysAt(kids, ts, h - 1, deg, before, after, i - 1); }
    if i < n.nkeys && NKeys(n.ptrs[i + 1]) > deg / 2 {
      c := Some((i, FromRight));
    } else if i > 0 && NKeys(n.ptrs[i - 1]) > deg / 2 {
      c := Some((i - 1, FromLeft));
    } else if i < n.nkeys {
      c := Some((i, Join));
    } else if i > 0 {
      c := Some((i - 1, Join));
    } else {
      c := None;
    }
  }

  // ----- the recursion

  method DeleteLeaf<V(0)>(l: LeafNode<V>, ghost t: Tree<V>, ghost deg: nat, ghost before: LeafNode?<V>,
                          ghost after: LeafNode?<V>, k: int)
    requires Stands([SLeaf(l)], [t], 0, deg, before, after) && deg >= 2 && Shaped(t, 0)
    modifies l`nkeys, l.slots
    ensures Stands([SLeaf(l)], [BTreeDelete.DeleteKey(t, deg, k, 0).0], 0, deg, before, after)
  {
    hide LowerBound, Remove, Stands, Rep, Sep, Own, Lvs, Chain, Row;
    OneStands(SLeaf(l), t, 0, deg, before, after);
    LeafRep(l, t, deg);
    ChainOne(l, before, after);
    l.Delete(k);
    ghost var t' := Leaf(LeafRec(l.id, l.Entries()));
    ChainOne(l, before, after);
    LeafRep(l, t', deg);
    OneStands(SLeaf(l), t', 0, deg, before, after);
  }

  method DeleteKey<V(0)>(node: Ref<V>, ghost s: Skel<V>, ghost t: Tree<V>, ghost h: nat, ghost deg: nat,
                         ghost before: LeafNode?<V>, ghost after: LeafNode?<V>, k: int)
    returns (ghost now: Skel<V>)
    requires node == RefOf(s) && Stands([s], [t], h, deg, before, after) && deg >= 2 && Shaped(t, h)
    modifies Own(s), Lvs(s), Opt(after)`prev
    ensures RefOf(now) == node && Stands([now], [BTreeDelete.DeleteKey(t, deg, k, h).0], h, deg, before, after)
    ensures Row(s) != [] && Row(now) != [] && Row(now)[0] == Row(s)[0] && All(now) <= All(s)
    decreases h, 2
  {
    hide Stands, Own, Lvs, OwnAll, LvsAll, RowAll, Row, BTreeDelete.DeleteKey;
    match node {
      case LeafRef(l) =>
        LeafRep(l, t, deg);
        OneStands(s, t, h, deg, before, after);
        DeleteLeaf(l, t, deg, before, after, k);
        now := s;
      case InnerRef(n) =>
        SkelParts(n, s.kids);
        ghost var kids := DeleteInner(n, s.kids, t, h, deg, before, after, k);
        now := SNode(n, kids);
        SkelParts(n, kids);
    }
  }

  /** The deletion from one child, seen from the row of children. */
  method DeleteAmong<V(0)>(child: Ref<V>, ghost a: seq<Skel<V>>, ghost m: Skel<V>, ghost b: seq<Skel<V>>,
                           ghost ta: seq<Tree<V>>, ghost tm: Tree<V>, ghost tb: seq<Tree<V>>, ghost h: nat,
                             ghost deg: nat,
                           ghost before: LeafNode?<V>, ghost after: LeafNode?<V>, k: int)
    returns (ghost now: Skel<V>)
    requires child == RefOf(m) && |a| == |ta| && Stands(a + [m] + b, ta + [tm] + tb, h, deg, before, after)
    requires deg >= 2 && Shaped(tm, h)
    modifies Own(m), Lvs(m), Opt(Head(RowAll(b), after))`prev
    ensures RefOf(now) == child
    ensures Stands(a + [now] + b, ta + [BTreeDelete.DeleteKey(tm, deg, k, h).0] + tb, h, deg, before, after)
    ensures Row(m) != [] && Row(now) != [] && Row(now)[0] == Row(m)[0] && All(now) <= All(m)
    decreases h, 3
  {
    hide Stands, Around, Loose, Own, Lvs, OwnAll, LvsAll, RowAll, Row, BTreeDelete.DeleteKey;
    AllAllocated(a);
    AllAllocated(b);
    RowOne(m);
    SomeRow(a, m, b, ta, tm, tb, h, deg, before, after);
    AllOne(m);
    StandsAround(a, [m], b, ta, [tm], tb, h, deg, before, after);
    ghost var first, last := Row(m)[0], Row(m)[|Row(m)| - 1];
    Loosen(a, b, ta, tb, h, deg, first, last, before, after);
    now := DeleteKey(child, m, tm, h, deg, Last(RowAll(a), before), Head(RowAll(b), after), k);
    assert Loose(a, b, ta, tb, h, deg, first, before, after);
    RowOne(now);
    AllOne(now);
    Rejoin(a, [now], b, ta, [BTreeDelete.DeleteKey(tm, deg, k, h).0], tb, h, deg, first, before, after);
  }

  /** The deletion from the child that the key is routed to. */
  method DeleteBelow<V(0)>(n: InternalNode<Ref<V>>, ghost kids: seq<Skel<V>>, ghost t: Tree<V>, ghost h: nat,
                           ghost deg: nat,
                           ghost before: LeafNode?<V>, ghost after: LeafNode?<V>, k: int)
    returns (i: nat, ghost all: seq<Skel<V>>)
    requires Stands([SNode(n, kids)], [t], h, deg, before, after) && deg >= 2 && Shaped(t, h)
    modifies OwnAll(kids), LvsAll(kids), Opt(after)`prev
    ensures h > 0 && t.Node? && i == Route(t.keys, k)
    ensures Ready(n, all, t.keys, t.kids[i := BTreeDelete.DeleteKey(t.kids[i], deg, k, h - 1).0], h, deg, before, after)
    ensures |kids| == |all| && Row(all[i]) != [] && RowAll(kids) != [] && RowAll(all) != []
    ensures RowAll(all)[0] == RowAll(kids)[0]
    ensures AllOf(all) <= AllOf(kids)
    decreases h, 0
  {
    hide Stands, Own, Lvs, OwnAll, LvsAll, RowAll, Row, BTreeDelete.DeleteKey, Route;
    AllAllocated(kids);
    NodeStands(n, kids, t, h, deg, before, after);
    i := n.ChildFor(k);
    ghost var a, m, b := kids[..i], kids[i], kids[i + 1..];
    ghost var ta, tm, tb := t.kids[..i], t.kids[i], t.kids[i + 1..];
    assert |kids| == |t.kids| by { StandsLength(kids, t.kids, h - 1, deg, before, after); }
    assert kids == a + [m] + b && t.kids == ta + [tm] + tb;
    AroundAll(a, [m], b);
    AllOne(m);
    ghost var c := DeleteAmong(n.ptrs[i], a, m, b, ta, tm, tb, h - 1, deg, before, after, k);
    all := a + [c] + b;
    ghost var tc := BTreeDelete.DeleteKey(tm, deg, k, h - 1).0;
    assert t.kids[i := tc] == ta + [tc] + tb;
    OnlyNew(a, m, [c], b);
    RefsSplice(kids, i, [c]);
    AllOne(c);
    RowOne(c);
  }

  method DeleteInner<V(0)>(n: InternalNode<Ref<V>>, ghost kids: seq<Skel<V>>, ghost t: Tree<V>, ghost h: nat,
                           ghost deg: nat,
                           ghost before: LeafNode?<V>, ghost after: LeafNode?<V>, k: int)
    returns (ghost now: seq<Skel<V>>)
    requires Stands([SNode(n, kids)], [t], h, deg, before, after) && deg >= 2 && Shaped(t, h)
    modifies Parts(n), OwnAll(kids), LvsAll(kids), Opt(after)`prev
    ensures Stands([SNode(n, now)], [BTreeDelete.DeleteKey(t, deg, k, h).0], h, deg, before, after)
    ensures RowAll(kids) != [] && RowAll(now) != [] && RowAll(now)[0] == RowAll(kids)[0] && AllOf(now) <= AllOf(kids)
    decreases h, 1
  {
    hide Stands, Own, Lvs, OwnAll, LvsAll, RowAll, Row, Route, NKeys, Settle;
    var i;
    ghost var all;
    i, all := DeleteBelow(n, kids, t, h, deg, before, after, k);
    ghost var (c, ev) := BTreeDelete.DeleteKey(t.kids[i], deg, k, h - 1);
    StillUniform(t.kids, i, c, h - 1);
    ghost var ts := t.kids[i := c];
    assert BTreeDelete.DeleteKey(t, deg, k, h) == Settle(t.keys, ts, i, ev, deg);
    now := SettleNode(n, i, all, t.keys, ts, ev, h, deg, before, after);
  }

  /** What follows the deletion in child `i`. */
  method SettleNode<V(0)>(n: InternalNode<Ref<V>>, i: nat, ghost kids: seq<Skel<V>>, ghost keys: seq<int>,
                          ghost ts: seq<Tree<V>>,
                          ghost ev: Event, ghost h: nat, ghost deg: nat, ghost before: LeafNode?<V>,
                            ghost after: LeafNode?<V>)
    returns (ghost now: seq<Skel<V>>)
    requires Ready(n, kids, keys, ts, h, deg, before, after) && i < |kids| && Row(kids[i]) != [] && RowAll(kids) != []
    requires Uniform(ts)
    modifies Parts(n), OwnAll(kids), LvsAll(kids), Opt(after)`prev
    ensures Stands([SNode(n, now)], [Settle(keys, ts, i, ev, deg).0], h, deg, before, after)
    ensures RowAll(now) != [] && RowAll(now)[0] == RowAll(kids)[0] && AllOf(now) <= AllOf(kids)
  {
    hide Stands, OwnAll, LvsAll, RowAll, Row, NKeys, BTreeDelete.Refill, FixedNode;
    RefsAt(kids, i);
    NKeysAt(kids, ts, h - 1, deg, before, after, i);
    AllAllocated(kids);
    if NKeys(n.ptrs[i]) < n.keys.Length / 2 {
      ChoiceFits(keys, ts, i, deg);
      ChoiceIsRefill(keys, ts, i, deg);
      var c := Choose(n, i, kids, keys, ts, h, n.keys.Length, before, after);
      match c {
        case None => now := kids;
        case Some((j, f)) =>
          RowTwo(kids[j], kids[j + 1]);
          now := Repair(n, j, f, kids, keys, ts, h, deg, before, after);
          return;
      }
    }
    now := kids;
    NodeStands(n, kids, Node(keys, ts), h, deg, before, after);
  }
}
