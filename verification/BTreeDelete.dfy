/** Deletion from the B+ tree, with steals and merges (b+tree.go, lines 157-235, 309-434 and
    558-567). */
module BTreeDelete {
  import opened BTree
  import opened BTreeBody
  import opened BTreeInsert

  /** Two neighbours of the same height and the separator between them. */
  datatype Pair<V> = Pair(a: Tree<V>, sep: int, b: Tree<V>)

  predicate Matched<V>(t: Tree<V>) {
    t.Node? ==> |t.kids| == |t.keys| + 1
  }

  /** Both leaves, or both inner nodes. */
  predicate Alike<V>(p: Pair<V>) {
    Matched(p.a) && Matched(p.b) && (p.a.Leaf? <==> p.b.Leaf?)
  }

  predicate Uniform<V>(kids: seq<Tree<V>>) {
    && (forall i :: 0 <= i < |kids| ==> Matched(kids[i]))
    && (forall i, j :: 0 <= i < |kids| && 0 <= j < |kids| ==> (kids[i].Leaf? <==> kids[j].Leaf?))
  }

  /** The left one takes the smallest of the right one. */
  function StealFromRight<V>(p: Pair<V>): Pair<V>
    requires Alike(p) && Size(p.b) >= 2
  {
    match p.a
    case Leaf(l) =>
      var es := p.b.leaf.entries;
      Pair(Leaf(LeafRec(l.id, l.entries + [es[0]])), es[1].key, Leaf(LeafRec(p.b.leaf.id, es[1..])))
    case Node(keys, kids) =>
      Pair(Node(keys + [p.sep], kids + [p.b.kids[0]]), p.b.keys[0], Node(p.b.keys[1..], p.b.kids[1..]))
  }

  /** The right one takes the greatest of the left one. */
  function StealFromLeft<V>(p: Pair<V>): Pair<V>
    requires Alike(p) && Size(p.a) >= 1
  {
    match p.b
    case Leaf(l) =>
      var es := p.a.leaf.entries;
      var last := es[|es| - 1];
      Pair(Leaf(LeafRec(p.a.leaf.id, es[..|es| - 1])), last.key,
        Leaf(LeafRec(l.id, Put(l.entries, last.key, last.val))))
    case Node(keys, kids) =>
      var ka, a := p.a.keys, p.a.kids;
      Pair(Node(ka[..|ka| - 1], a[..|a| - 1]), ka[|ka| - 1], Node([p.sep] + keys, [a[|a| - 1]] + kids))
  }

  function MergeWithRight<V>(p: Pair<V>): (Tree<V>, Event)
    requires Alike(p)
  {
    match p.a
    case Leaf(l) => (Leaf(LeafRec(l.id, l.entries + p.b.leaf.entries)), Merged(l.id, p.b.leaf.id))
    case Node(keys, kids) => (Node(keys + [p.sep] + p.b.keys, kids + p.b.kids), Keep)
  }

  function PairAt<V>(keys: seq<int>, kids: seq<Tree<V>>, i: nat): Pair<V>
    requires |kids| == |keys| + 1 && i < |keys|
  {
    Pair(kids[i], keys[i], kids[i + 1])
  }

  function SetPair<V>(keys: seq<int>, kids: seq<Tree<V>>, i: nat, p: Pair<V>): Tree<V>
    requires |kids| == |keys| + 1 && i < |keys|
  {
    Node(keys[i := p.sep], kids[i := p.a][i + 1 := p.b])
  }

  function MergeAt<V>(keys: seq<int>, kids: seq<Tree<V>>, i: nat): (Tree<V>, Event)
    requires |kids| == |keys| + 1 && i < |keys| && Alike(PairAt(keys, kids, i))
  {
    var (ab, ev) := MergeWithRight(PairAt(keys, kids, i));
    (Node(RemoveAt(keys, i), kids[..i] + [ab] + kids[i + 2..]), ev)
  }

  /** What follows the deletion in child `i`, if that child has become too small. */
  function Refill<V>(keys: seq<int>, kids: seq<Tree<V>>, i: nat, deg: nat): (Tree<V>, Event)
    requires deg >= 2 && |kids| == |keys| + 1 && i < |kids| && Uniform(kids)
  {
    if i < |keys| && Size(kids[i + 1]) > deg / 2 then
      (SetPair(keys, kids, i, StealFromRight(PairAt(keys, kids, i))), Keep)
    else if i > 0 && Size(kids[i - 1]) > deg / 2 then
      (SetPair(keys, kids, i - 1, StealFromLeft(PairAt(keys, kids, i - 1))), Keep)
    else if i < |keys| then MergeAt(keys, kids, i)
    else if i > 0 then MergeAt(keys, kids, i - 1)
    else (Node(keys, kids), Keep)
  }

  /** The node after the deletion in child `i` gave `c`. */
  function Settle<V>(keys: seq<int>, kids: seq<Tree<V>>, i: nat, ev: Event, deg: nat): (r: (Tree<V>, Event))
    requires deg >= 2 && |kids| == |keys| + 1 && i < |kids| && Uniform(kids)
    ensures r.0.Node? && Matched(r.0)
  {
    if Size(kids[i]) < deg / 2 then
      var (n, merge) := Refill(keys, kids, i, deg);
      (n, if merge == Keep then ev else merge)
    else (Node(keys, kids), ev)
  }

  function DeleteKey<V>(t: Tree<V>, deg: nat, k: int, ghost h: nat): (r: (Tree<V>, Event))
    requires deg >= 2 && Shaped(t, h)
    ensures Matched(r.0) && (r.0.Leaf? <==> t.Leaf?)
    decreases t
  {
    match t
    case Leaf(l) => (Leaf(LeafRec(l.id, Remove(l.entries, k))), Keep)
    case Node(keys, kids) =>
      var i := Route(keys, k);
      var (c, ev) := DeleteKey(kids[i], deg, k, h - 1);
      StillUniform(kids, i, c, h - 1);
      Settle(keys, kids[i := c], i, ev, deg)
  }

  lemma StillUniform<V>(kids: seq<Tree<V>>, i: nat, c: Tree<V>, h: nat)
    requires (forall i :: 0 <= i < |kids| ==> Shaped(kids[i], h)) && i < |kids| && Matched(c)
    requires (c.Leaf? <==> kids[i].Leaf?)
    ensures Uniform(kids[i := c])
  {}

  /** BTree.Delete: a root with a single child gives way to it. */
  function Delete<V>(t: Tree<V>, deg: nat, k: int, ghost h: nat): (Tree<V>, Event)
    requires deg >= 2 && Shaped(t, h)
  {
    var (t', ev) := DeleteKey(t, deg, k, h);
    if t'.Node? && |t'.keys| == 0 then (t'.kids[0], ev) else (t', ev)
  }

  // ----- shape

  ghost predicate PairOk<V>(p: Pair<V>, h: nat, cap: nat, lo: Bound, hi: Bound, ma: int, mb: int) {
    && Ok(p.a, h, cap, lo, At(p.sep), ma) && Ok(p.b, h, cap, At(p.sep), hi, mb)
    && StrictlyAbove(lo, p.sep) && Below(p.sep, hi)
  }

  lemma PairOkAlike<V>(p: Pair<V>, h: nat, cap: nat, lo: Bound, hi: Bound, ma: int, mb: int)
    requires PairOk(p, h, cap, lo, hi, ma, mb)
    ensures Alike(p)
  {
    if p.a.Node? { NodeBody(p.a.keys, p.a.kids, h, cap, lo, At(p.sep), ma); }
    if p.b.Node? { NodeBody(p.b.keys, p.b.kids, h, cap, At(p.sep), hi, mb); }
  }

  lemma LeafStealFromRightOk<V>(p: Pair<V>, deg: nat, cap: nat, lo: Bound, hi: Bound)
    requires Suits(cap, deg) && PairOk(p, 0, cap, lo, hi, cap / 2 - 1, cap / 2) && Size(p.a) < deg / 2 < Size(p.b)
    requires p.a.Leaf? && p.b.Leaf?
    ensures PairOk(StealFromRight(p), 0, cap, lo, hi, cap / 2, cap / 2)
  {
    assert p.b.leaf.entries[0].key < p.b.leaf.entries[1].key;
  }

  /** Joining the two around the separator and cutting one place further is a steal. */
  lemma NodeStealFromRightOk<V>(p: Pair<V>, h: nat, deg: nat, cap: nat, lo: Bound, hi: Bound)
    requires Suits(cap, deg) && PairOk(p, h, cap, lo, hi, cap / 2 - 1, cap / 2) && Size(p.a) < deg / 2 < Size(p.b)
    requires p.a.Node? && Alike(p)
    ensures PairOk(StealFromRight(p), h, cap, lo, hi, cap / 2, cap / 2)
  {
    hide Body;
    var ka, a, kb, b := p.a.keys, p.a.kids, p.b.keys, p.b.kids;
    BodyJoin(ka, a, p.sep, kb, b, h - 1, cap, lo, hi);
    var keys, kids, m := ka + [p.sep] + kb, a + b, |ka| + 1;
    BodyCut(keys, kids, h - 1, cap, lo, hi, m);
    assert keys[..m] == ka + [p.sep] && keys[m + 1..] == kb[1..];
    assert kids[..m + 1] == a + [b[0]] && kids[m + 1..] == b[1..];
  }

  lemma StealFromRightOk<V>(p: Pair<V>, h: nat, deg: nat, cap: nat, lo: Bound, hi: Bound)
    requires Suits(cap, deg) && PairOk(p, h, cap, lo, hi, cap / 2 - 1, cap / 2) && Size(p.a) < deg / 2 < Size(p.b)
    requires Alike(p)
    ensures PairOk(StealFromRight(p), h, cap, lo, hi, cap / 2, cap / 2)
  {
    hide StealFromRight;
    if p.a.Leaf? { LeafStealFromRightOk(p, deg, cap, lo, hi); } else { NodeStealFromRightOk(p, h, deg, cap, lo, hi); }
  }

  /** The greatest entry of the left leaf goes to the front of the right one. */
  lemma PutFront<V>(es: seq<Entry<V>>, e: Entry<V>)
    requires Within(At(e.key + 1), es, Unbounded)
    ensures Put(es, e.key, e.val) == [e] + es
  {
    hide LowerBound;
    BoundUnique(es, e.key, 0);
  }

  /** The steal inserts into a leaf with room, so the insertion does not split it. */
  lemma StealDoesNotSplit<V>(l: LeafRec<V>, deg: nat, k: int, v: V, newId: nat)
    requires |l.entries| < deg / 2
    ensures LeafInsert(l, deg, k, v, newId) == (Same(Leaf(LeafRec(l.id, Put(l.entries, k, v)))), Keep)
  {
    hide LowerBound;
  }

  lemma LeafStealFromLeftOk<V>(p: Pair<V>, deg: nat, cap: nat, lo: Bound, hi: Bound)
    requires Suits(cap, deg) && PairOk(p, 0, cap, lo, hi, cap / 2, cap / 2 - 1) && Size(p.b) < deg / 2 < Size(p.a)
    requires p.a.Leaf? && p.b.Leaf?
    ensures PairOk(StealFromLeft(p), 0, cap, lo, hi, cap / 2, cap / 2)
  {
    hide LowerBound, Put;
    var es := p.a.leaf.entries;
    var last := es[|es| - 1];
    assert es[0].key < last.key;
    PutFront(p.b.leaf.entries, last);
  }

  lemma NodeStealFromLeftOk<V>(p: Pair<V>, h: nat, deg: nat, cap: nat, lo: Bound, hi: Bound)
    requires Suits(cap, deg) && PairOk(p, h, cap, lo, hi, cap / 2, cap / 2 - 1) && Size(p.b) < deg / 2 < Size(p.a)
    requires p.a.Node? && Alike(p)
    ensures PairOk(StealFromLeft(p), h, cap, lo, hi, cap / 2, cap / 2)
  {
    hide Body;
    var ka, a, kb, b := p.a.keys, p.a.kids, p.b.keys, p.b.kids;
    BodyJoin(ka, a, p.sep, kb, b, h - 1, cap, lo, hi);
    var keys, kids, m := ka + [p.sep] + kb, a + b, |ka| - 1;
    BodyCut(keys, kids, h - 1, cap, lo, hi, m);
    assert keys[..m] == ka[..m] && keys[m + 1..] == [p.sep] + kb;
    assert kids[..m + 1] == a[..m + 1] && kids[m + 1..] == [a[m + 1]] + b;
  }

  lemma StealFromLeftOk<V>(p: Pair<V>, h: nat, deg: nat, cap: nat, lo: Bound, hi: Bound)
    requires Suits(cap, deg) && PairOk(p, h, cap, lo, hi, cap / 2, cap / 2 - 1) && Size(p.b) < deg / 2 < Size(p.a)
    requires Alike(p)
    ensures PairOk(StealFromLeft(p), h, cap, lo, hi, cap / 2, cap / 2)
  {
    hide StealFromLeft;
    if p.a.Leaf? { LeafStealFromLeftOk(p, deg, cap, lo, hi); } else { NodeStealFromLeftOk(p, h, deg, cap, lo, hi); }
  }

  lemma MergeOk<V>(p: Pair<V>, h: nat, deg: nat, cap: nat, lo: Bound, hi: Bound, ma: int, mb: int)
    requires Suits(cap, deg) && PairOk(p, h, cap, lo, hi, ma, mb) && Alike(p)
    requires Size(p.a) + Size(p.b) <= deg / 2 + deg / 2 - 1 && ma + mb == cap / 2 + cap / 2 - 1
    ensures Ok(MergeWithRight(p).0, h, cap, lo, hi, cap / 2)
  {
    match p.a {
      case Leaf(l) => JoinEntries(lo, l.entries, p.sep, p.b.leaf.entries, hi);
      case Node(ka, a) =>
        hide Body;
        BodyJoin(ka, a, p.sep, p.b.keys, p.b.kids, h - 1, cap, lo, hi);
    }
  }

  lemma PairIn<V>(keys: seq<int>, kids: seq<Tree<V>>, h: nat, cap: nat, lo: Bound, hi: Bound, i: nat, p: Pair<V>,
                  ma: int, mb: int)
    requires Body(keys, kids, h, cap, lo, hi) && i < |keys| && |kids| == |keys| + 1 && p.sep == keys[i]
    requires Ok(p.a, h, cap, LowOf(lo, keys, i), HighOf(keys, hi, i), ma)
    requires Ok(p.b, h, cap, LowOf(lo, keys, i + 1), HighOf(keys, hi, i + 1), mb)
    ensures PairOk(p, h, cap, LowOf(lo, keys, i), HighOf(keys, hi, i + 1), ma, mb)
  {
    hide Ok;
  }

  lemma OkAt<V>(keys: seq<int>, kids: seq<Tree<V>>, h: nat, cap: nat, lo: Bound, hi: Bound, i: nat)
    requires Body(keys, kids, h, cap, lo, hi) && i < |kids| && |kids| == |keys| + 1
    ensures Ok(kids[i], h, cap, LowOf(lo, keys, i), HighOf(keys, hi, i), cap / 2)
  {
    hide Ok;
  }

  /** The pair around separator `j` after child `i`, one of the two, has become `c`. */
  lemma ShortPairOk<V>(keys: seq<int>, kids: seq<Tree<V>>, h: nat, cap: nat, lo: Bound, hi: Bound, i: nat, c: Tree<V>,
                       j: nat)
    requires Body(keys, kids, h, cap, lo, hi) && |kids| == |keys| + 1 && i < |kids| && j < |keys|
    requires (i == j || i == j + 1)
    requires Ok(c, h, cap, LowOf(lo, keys, i), HighOf(keys, hi, i), cap / 2 - 1)
    ensures var p := PairAt(keys, kids[i := c], j);
            Alike(p) && PairOk(p, h, cap, LowOf(lo, keys, j), HighOf(keys, hi, j + 1),
                               if i == j then cap / 2 - 1 else cap / 2, if i == j then cap / 2 else cap / 2 - 1)
  {
    hide Ok, Body;
    OkAt(keys, kids, h, cap, lo, hi, j);
    OkAt(keys, kids, h, cap, lo, hi, j + 1);
    var p := PairAt(keys, kids[i := c], j);
    var ma, mb := if i == j then cap / 2 - 1 else cap / 2, if i == j then cap / 2 else cap / 2 - 1;
    PairIn(keys, kids, h, cap, lo, hi, j, p, ma, mb);
    PairOkAlike(p, h, cap, LowOf(lo, keys, j), HighOf(keys, hi, j + 1), ma, mb);
  }

  lemma SetPairOk<V>(keys: seq<int>, kids: seq<Tree<V>>, h: nat, cap: nat, lo: Bound, hi: Bound,
                     i: nat, c: Tree<V>, j: nat, p: Pair<V>, min: int)
    requires Body(keys, kids, h, cap, lo, hi) && |kids| == |keys| + 1 && i < |kids| && j < |keys|
    requires (i == j || i == j + 1)
    requires PairOk(p, h, cap, LowOf(lo, keys, j), HighOf(keys, hi, j + 1), cap / 2, cap / 2)
    requires min <= |keys| && Fits(|keys|, cap)
    ensures Ok(SetPair(keys, kids[i := c], j, p), h + 1, cap, lo, hi, min)
  {
    hide Body;
    BodyPair(keys, kids, h, cap, lo, hi, j, p.a, p.sep, p.b);
    assert kids[i := c][j := p.a][j + 1 := p.b] == kids[j := p.a][j + 1 := p.b];
  }

  lemma MergeAtOk<V>(keys: seq<int>, kids: seq<Tree<V>>, h: nat, deg: nat, cap: nat, lo: Bound, hi: Bound,
                     i: nat, c: Tree<V>, j: nat, min: int)
    requires Suits(cap, deg) && Body(keys, kids, h, cap, lo, hi) && min <= |keys| && Fits(|keys|, cap)
    requires |kids| == |keys| + 1 && i < |kids| && j < |keys| && (i == j || i == j + 1)
    requires Ok(c, h, cap, LowOf(lo, keys, i), HighOf(keys, hi, i), cap / 2 - 1) && Size(c) < deg / 2
    requires Size(kids[if i == j then j + 1 else j]) <= deg / 2 && Alike(PairAt(keys, kids[i := c], j))
    ensures Ok(MergeAt(keys, kids[i := c], j).0, h + 1, cap, lo, hi, min - 1)
  {
    hide Body, MergeWithRight, PairOk;
    ShortPairOk(keys, kids, h, cap, lo, hi, i, c, j);
    var p := PairAt(keys, kids[i := c], j);
    MergeOk(p, h, deg, cap, LowOf(lo, keys, j), HighOf(keys, hi, j + 1),
            if i == j then cap / 2 - 1 else cap / 2, if i == j then cap / 2 else cap / 2 - 1);
    var ab := MergeWithRight(p).0;
    BodyShrink(keys, kids, h, cap, lo, hi, j, ab);
    assert kids[i := c][..j] == kids[..j] && kids[i := c][j + 2..] == kids[j + 2..];
  }

  /** A child that became too small is put right; a lone child of a node without keys, which
      only a tree without size limits has, stays as it is. */
  lemma RefillOk<V>(keys: seq<int>, kids: seq<Tree<V>>, h: nat, deg: nat, cap: nat, lo: Bound, hi: Bound,
                    i: nat, c: Tree<V>, min: int)
    requires Suits(cap, deg) && Body(keys, kids, h, cap, lo, hi) && |kids| == |keys| + 1 && i < |kids|
    requires min <= |keys| && Fits(|keys|, cap) && (cap > 0 ==> min >= 1)
    requires Ok(c, h, cap, LowOf(lo, keys, i), HighOf(keys, hi, i), cap / 2 - 1) && Size(c) < deg / 2
    requires Uniform(kids[i := c])
    ensures Ok(Refill(keys, kids[i := c], i, deg).0, h + 1, cap, lo, hi, min - 1)
  {
    hide Body, Ok, MergeAt, SetPair, StealFromLeft, StealFromRight, Matched;
    var kids' := kids[i := c];
    if i < |keys| && Size(kids'[i + 1]) > deg / 2 {
      ShortPairOk(keys, kids, h, cap, lo, hi, i, c, i);
      StealFromRightOk(PairAt(keys, kids', i), h, deg, cap, LowOf(lo, keys, i), HighOf(keys, hi, i + 1));
      SetPairOk(keys, kids, h, cap, lo, hi, i, c, i, StealFromRight(PairAt(keys, kids', i)), min - 1);
    } else if i > 0 && Size(kids'[i - 1]) > deg / 2 {
      ShortPairOk(keys, kids, h, cap, lo, hi, i, c, i - 1);
      StealFromLeftOk(PairAt(keys, kids', i - 1), h, deg, cap, LowOf(lo, keys, i - 1), HighOf(keys, hi, i));
      SetPairOk(keys, kids, h, cap, lo, hi, i, c, i - 1, StealFromLeft(PairAt(keys, kids', i - 1)), min - 1);
    } else if i < |keys| {
      MergeAtOk(keys, kids, h, deg, cap, lo, hi, i, c, i, min);
    } else if i > 0 {
      MergeAtOk(keys, kids, h, deg, cap, lo, hi, i, c, i - 1, min);
    } else {
      SettledOk(keys, kids, h, cap, lo, hi, i, c, min);
    }
  }

  lemma {:induction false} DeleteKeyOk<V>(t: Tree<V>, deg: nat, k: int, h: nat, cap: nat, lo: Bound, hi: Bound,
                                          min: int)
    requires Suits(cap, deg) && Ok(t, h, cap, lo, hi, min) && Shaped(t, h) && (h > 0 && cap > 0 ==> min >= 1)
    ensures Ok(DeleteKey(t, deg, k, h).0, h, cap, lo, hi, min - 1)
    decreases h
  {
    match t {
      case Leaf(l) => LeafDeleteOk(l, k, cap, lo, hi, min);
      case Node(keys, kids) =>
        hide Body, Ok, Refill, Route, Matched;
        NodeBody(keys, kids, h, cap, lo, hi, min);
        var i := Route(keys, k);
        var c := DeleteKey(kids[i], deg, k, h - 1).0;
        OkAt(keys, kids, h - 1, cap, lo, hi, i);
        DeleteKeyOk(kids[i], deg, k, h - 1, cap, LowOf(lo, keys, i), HighOf(keys, hi, i), cap / 2);
        StillUniform(kids, i, c, h - 1);
        if Size(c) < deg / 2 {
          RefillOk(keys, kids, h - 1, deg, cap, lo, hi, i, c, min);
        } else {
          SettledOk(keys, kids, h - 1, cap, lo, hi, i, c, min);
        }
    }
  }

  lemma NodeBody<V>(keys: seq<int>, kids: seq<Tree<V>>, h: nat, cap: nat, lo: Bound, hi: Bound, min: int)
    requires Ok(Node(keys, kids), h, cap, lo, hi, min)
    ensures h > 0 && Body(keys, kids, h - 1, cap, lo, hi) && min <= |keys| && Fits(|keys|, cap) && |kids| == |keys| + 1
  {}

  lemma SettledOk<V>(keys: seq<int>, kids: seq<Tree<V>>, h: nat, cap: nat, lo: Bound, hi: Bound, i: nat, c: Tree<V>,
                     min: int)
    requires Body(keys, kids, h, cap, lo, hi) && |kids| == |keys| + 1 && i < |kids| && min <= |keys|
    requires Fits(|keys|, cap)
    requires Ok(c, h, cap, LowOf(lo, keys, i), HighOf(keys, hi, i), cap / 2 - 1) && Size(c) >= cap / 2
    ensures Ok(Node(keys, kids[i := c]), h + 1, cap, lo, hi, min - 1)
  {
    hide Body;
    BodyReplace(keys, kids, h, cap, lo, hi, i, c);
  }

  lemma LeafDeleteOk<V>(l: LeafRec<V>, k: int, cap: nat, lo: Bound, hi: Bound, min: int)
    requires Ok(Leaf(l), 0, cap, lo, hi, min)
    ensures Ok(Leaf(LeafRec(l.id, Remove(l.entries, k))), 0, cap, lo, hi, min - 1)
  {
    hide LowerBound;
    RemoveSorted(l.entries, k);
  }

  /** The tree stays in order, and in shape if the degree is odd; it loses a level exactly if the
      root runs out of keys. */
  lemma DeleteOk<V>(t: Tree<V>, deg: nat, k: int, h: nat, cap: nat)
    requires Suits(cap, deg) && RootOk(t, h, cap) && Shaped(t, h)
    ensures RootOk(Delete(t, deg, k, h).0, if h > 0 && Size(DeleteKey(t, deg, k, h).0) == 0 then h - 1 else h, cap)
  {
    hide DeleteKey;
    DeleteKeyOk(t, deg, k, h, cap, Unbounded, Unbounded, RootMin(h, cap));
    var t' := DeleteKey(t, deg, k, h).0;
    if h > 0 && Size(t') == 0 { assert Ok(t'.kids[0], h - 1, cap, Unbounded, Unbounded, cap / 2); }
  }
}
