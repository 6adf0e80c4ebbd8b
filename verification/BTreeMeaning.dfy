/** What deletion does to the entries and to the chain of leaves (b+tree.go, lines 144-152,
    220-235 and 309-350). */
module BTreeMeaning {
  import opened BTree
  import opened BTreeBody
  import opened BTreeInsert
  import opened BTreeDelete

  /** How an event changes the ordered list of leaf ids. */
  ghost predicate IdsEffect(ev: Event, ids: seq<nat>, ids': seq<nat>) {
    match ev
    case Keep => ids' == ids
    case Added(x, y) => exists i: nat :: i < |ids| && ids[i] == x && ids' == InsertAt(ids, i + 1, y)
    case Merged(x, y) =>
      exists i: nat :: i + 1 < |ids| && ids[i] == x && ids[i + 1] == y && ids' == RemoveAt(ids, i + 1)
  }

  ghost predicate Effect<V>(ev: Event, ls: seq<LeafRec<V>>, ls': seq<LeafRec<V>>) {
    Items(ls') == Items(ls) && IdsEffect(ev, Ids(ls), Ids(ls'))
  }

  lemma IdsConcat<V>(a: seq<LeafRec<V>>, b: seq<LeafRec<V>>)
    ensures Ids(a + b) == Ids(a) + Ids(b)
  {}

  lemma IdsAround<V>(a: seq<LeafRec<V>>, m: seq<LeafRec<V>>, b: seq<LeafRec<V>>)
    ensures Ids(a + m + b) == Ids(a) + Ids(m) + Ids(b)
  {
    hide Ids;
    IdsConcat(a, m);
    IdsConcat(a + m, b);
  }

  lemma IdsEffectAround(ev: Event, a: seq<nat>, m: seq<nat>, m': seq<nat>, b: seq<nat>)
    requires IdsEffect(ev, m, m')
    ensures IdsEffect(ev, a + m + b, a + m' + b)
  {
    hide InsertAt, RemoveAt;
    match ev {
      case Keep =>
      case Added(x, y) =>
        var i: nat :| i < |m| && m[i] == x && m' == InsertAt(m, i + 1, y);
        InsertMiddle(a, m, b, i + 1, y);
        assert (a + m + b)[|a| + i] == x;
      case Merged(x, y) =>
        var i: nat :| i + 1 < |m| && m[i] == x && m[i + 1] == y && m' == RemoveAt(m, i + 1);
        DeleteMiddle(a, m, b, i + 1);
        assert (a + m + b)[|a| + i] == x && (a + m + b)[|a| + i + 1] == y;
    }
  }

  lemma EffectAround<V>(ev: Event, a: seq<LeafRec<V>>, m: seq<LeafRec<V>>, m': seq<LeafRec<V>>, b: seq<LeafRec<V>>)
    requires Effect(ev, m, m')
    ensures Effect(ev, a + m + b, a + m' + b)
  {
    hide Ids, Items, IdsEffect;
    ItemsAround(a, m, b);
    ItemsAround(a, m', b);
    IdsAround(a, m, b);
    IdsAround(a, m', b);
    IdsEffectAround(ev, Ids(a), Ids(m), Ids(m'), Ids(b));
  }

  // ----- steals and merges move entries between leaves, but keep their order

  lemma LeafPairItems<V>(l: LeafRec<V>, m: LeafRec<V>)
    ensures Items([l, m]) == l.entries + m.entries && Ids([l, m]) == [l.id, m.id]
  {
    assert [l, m] == [l] + [m];
    ItemsConcat([l], [m]);
    ItemsOne(l);
    ItemsOne(m);
  }

  function PairLeaves<V>(p: Pair<V>): seq<LeafRec<V>> {
    Leaves(p.a) + Leaves(p.b)
  }

  lemma LeafPairLeaves<V>(p: Pair<V>)
    requires p.a.Leaf? && p.b.Leaf?
    ensures PairLeaves(p) == [p.a.leaf, p.b.leaf]
  {}

  lemma NodePairLeaves<V>(p: Pair<V>)
    requires p.a.Node? && p.b.Node?
    ensures PairLeaves(p) == AllLeaves(p.a.kids + p.b.kids)
  {
    LeavesConcat(p.a.kids, p.b.kids);
  }

  lemma StealFromRightEffect<V>(p: Pair<V>)
    requires Alike(p) && Size(p.b) >= 2
    ensures Effect(Keep, PairLeaves(p), PairLeaves(StealFromRight(p)))
  {
    hide Items, Ids, PairLeaves, AllLeaves;
    var q := StealFromRight(p);
    if p.a.Leaf? {
      LeafPairLeaves(p);
      LeafPairLeaves(q);
      LeafPairItems(p.a.leaf, p.b.leaf);
      LeafPairItems(q.a.leaf, q.b.leaf);
      var es := p.b.leaf.entries;
      assert p.a.leaf.entries + [es[0]] + es[1..] == p.a.leaf.entries + es;
    } else {
      NodePairLeaves(p);
      NodePairLeaves(q);
      var b := p.b.kids;
      assert p.a.kids + [b[0]] + b[1..] == p.a.kids + b;
    }
  }

  lemma StealFromLeftEffect<V>(p: Pair<V>)
    requires Alike(p) && Size(p.a) >= 1
    requires p.a.Leaf? ==> Within(At(p.a.leaf.entries[Size(p.a) - 1].key + 1), p.b.leaf.entries, Unbounded)
    ensures Effect(Keep, PairLeaves(p), PairLeaves(StealFromLeft(p)))
  {
    hide Items, Ids, PairLeaves, AllLeaves, Put, Within;
    var q := StealFromLeft(p);
    if p.a.Leaf? {
      LeafPairLeaves(p);
      LeafPairLeaves(q);
      LeafPairItems(p.a.leaf, p.b.leaf);
      LeafPairItems(q.a.leaf, q.b.leaf);
      var es := p.a.leaf.entries;
      var n := |es| - 1;
      PutFront(p.b.leaf.entries, es[n]);
      assert es[..n] + ([es[n]] + p.b.leaf.entries) == es + p.b.leaf.entries;
    } else {
      NodePairLeaves(p);
      NodePairLeaves(q);
      var a := p.a.kids;
      var n := |a| - 1;
      assert a[..n] + ([a[n]] + p.b.kids) == a + p.b.kids;
    }
  }

  lemma MergeEffect<V>(p: Pair<V>)
    requires Alike(p)
    ensures Effect(MergeWithRight(p).1, PairLeaves(p), Leaves(MergeWithRight(p).0))
  {
    hide Items, Ids, PairLeaves, AllLeaves;
    if p.a.Leaf? {
      LeafPairLeaves(p);
      LeafPairItems(p.a.leaf, p.b.leaf);
      ItemsOne(MergeWithRight(p).0.leaf);
      IdsOne(MergeWithRight(p).0.leaf);
      MergedPair(p.a.leaf.id, p.b.leaf.id);
    } else {
      NodePairLeaves(p);
    }
  }

  lemma MergedPair(x: nat, y: nat)
    ensures IdsEffect(Merged(x, y), [x, y], [x])
  {
    var ids, i: nat := [x, y], 0;
    assert ids[i] == x && ids[i + 1] == y && [x] == RemoveAt(ids, i + 1);
  }

  lemma IdsOne<V>(l: LeafRec<V>)
    ensures Ids([l]) == [l.id]
  {}

  lemma SetPairEffect<V>(keys: seq<int>, kids: seq<Tree<V>>, i: nat, q: Pair<V>)
    requires |kids| == |keys| + 1 && i < |keys| && Effect(Keep, PairLeaves(PairAt(keys, kids, i)), PairLeaves(q))
    ensures Effect(Keep, AllLeaves(kids), Leaves(SetPair(keys, kids, i, q)))
  {
    hide Effect, AllLeaves;
    var a, b := kids[..i], kids[i + 2..];
    SplitPair(kids, i);
    LeavesAroundPair(a, kids[i], kids[i + 1], b);
    LeavesAroundPair(a, q.a, q.b, b);
    assert kids[i := q.a][i + 1 := q.b] == a + [q.a, q.b] + b;
    EffectAround(Keep, AllLeaves(a), PairLeaves(PairAt(keys, kids, i)), PairLeaves(q), AllLeaves(b));
  }

  lemma MergeAtEffect<V>(keys: seq<int>, kids: seq<Tree<V>>, i: nat)
    requires |kids| == |keys| + 1 && i < |keys| && Alike(PairAt(keys, kids, i))
    ensures Effect(MergeAt(keys, kids, i).1, AllLeaves(kids), Leaves(MergeAt(keys, kids, i).0))
  {
    hide Effect, AllLeaves, MergeWithRight;
    var a, b, p := kids[..i], kids[i + 2..], PairAt(keys, kids, i);
    var (ab, ev) := MergeWithRight(p);
    SplitPair(kids, i);
    LeavesAroundPair(a, kids[i], kids[i + 1], b);
    LeavesAround(a, ab, b);
    MergeEffect(p);
    EffectAround(ev, AllLeaves(a), PairLeaves(p), Leaves(ab), AllLeaves(b));
  }

  /** Neighbouring leaves: the entries of the right one are above the last of the left one. */
  lemma LeafPairApart<V>(p: Pair<V>, h: nat, cap: nat, lo: Bound, hi: Bound, ma: int, mb: int)
    requires PairOk(p, h, cap, lo, hi, ma, mb) && p.a.Leaf? && p.b.Leaf? && Size(p.a) >= 1
    ensures Within(At(p.a.leaf.entries[Size(p.a) - 1].key + 1), p.b.leaf.entries, Unbounded)
  {}

  lemma RefillEffect<V>(keys: seq<int>, kids: seq<Tree<V>>, h: nat, deg: nat, lo: Bound, hi: Bound, i: nat, c: Tree<V>)
    requires deg >= 2 && Body(keys, kids, h, 0, lo, hi) && |kids| == |keys| + 1 && i < |kids|
    requires Ok(c, h, 0, LowOf(lo, keys, i), HighOf(keys, hi, i), -1) && Size(c) < deg / 2 && Uniform(kids[i := c])
    ensures var r := Refill(keys, kids[i := c], i, deg);
            Effect(r.1, AllLeaves(kids[i := c]), Leaves(r.0)) && (c.Node? ==> r.1 == Keep)
  {
    hide Body, Ok, MergeAt, SetPair, StealFromLeft, StealFromRight, Matched, Effect, AllLeaves, PairOk;
    var kids' := kids[i := c];
    if i < |keys| && Size(kids'[i + 1]) > deg / 2 {
      StealFromRightEffect(PairAt(keys, kids', i));
      SetPairEffect(keys, kids', i, StealFromRight(PairAt(keys, kids', i)));
    } else if i > 0 && Size(kids'[i - 1]) > deg / 2 {
      ShortPairOk(keys, kids, h, 0, lo, hi, i, c, i - 1);
      var p := PairAt(keys, kids', i - 1);
      if p.a.Leaf? { LeafPairApart(p, h, 0, LowOf(lo, keys, i - 1), HighOf(keys, hi, i), 0, -1); }
      StealFromLeftEffect(p);
      SetPairEffect(keys, kids', i - 1, StealFromLeft(p));
    } else if i < |keys| {
      MergeAtEffect(keys, kids', i);
      InnerMergeKeeps(keys, kids', i);
    } else if i > 0 {
      MergeAtEffect(keys, kids', i - 1);
      InnerMergeKeeps(keys, kids', i - 1);
    } else {
      NoEffect(keys, kids');
    }
  }

  lemma NoEffect<V>(keys: seq<int>, kids: seq<Tree<V>>)
    ensures Effect(Keep, AllLeaves(kids), Leaves(Node(keys, kids)))
  {}

  lemma InnerMergeKeeps<V>(keys: seq<int>, kids: seq<Tree<V>>, i: nat)
    requires |kids| == |keys| + 1 && i < |keys| && Alike(PairAt(keys, kids, i))
    ensures kids[i].Node? ==> MergeAt(keys, kids, i).1 == Keep
  {}

  // ----- deletion

  /** `ls'` is `ls` without key `k`. */
  ghost predicate Deletes<V>(ev: Event, ls: seq<LeafRec<V>>, ls': seq<LeafRec<V>>, k: int) {
    Items(ls') == Remove(Items(ls), k) && IdsEffect(ev, Ids(ls), Ids(ls'))
  }

  lemma DeletesThen<V>(ev: Event, ls: seq<LeafRec<V>>, m: seq<LeafRec<V>>, merge: Event, ls': seq<LeafRec<V>>, k: int)
    requires Deletes(ev, ls, m, k) && Effect(merge, m, ls') && (ev == Keep || merge == Keep)
    ensures Deletes(if merge == Keep then ev else merge, ls, ls', k)
  {
    hide Items, Remove, Ids;
  }

  lemma LeafDeletes<V>(l: LeafRec<V>, k: int)
    ensures Deletes(Keep, [l], [LeafRec(l.id, Remove(l.entries, k))], k)
  {
    hide Remove;
    var l' := LeafRec(l.id, Remove(l.entries, k));
    ItemsOne(l);
    ItemsOne(l');
    IdsOne(l);
    IdsOne(l');
  }

  /** Deleting in the routed child deletes from the node. */
  lemma DeletesAround<V>(keys: seq<int>, kids: seq<Tree<V>>, h: nat, lo: Bound, hi: Bound, k: int, c: Tree<V>,
                         ev: Event)
    requires Body(keys, kids, h, 0, lo, hi) && Route(keys, k) < |kids|
    requires Deletes(ev, Leaves(kids[Route(keys, k)]), Leaves(c), k)
    ensures Deletes(ev, AllLeaves(kids), AllLeaves(kids[Route(keys, k) := c]), k)
  {
    hide Body, Route, Leaves, AllLeaves, Items, Within, Remove, Ids, IdsEffect;
    var i := Route(keys, k);
    var a, m, m', b := AllLeaves(kids[..i]), Leaves(kids[i]), Leaves(c), AllLeaves(kids[i + 1..]);
    SplitAt(kids, i);
    LeavesAround(kids[..i], kids[i], kids[i + 1..]);
    assert kids[i := c] == kids[..i] + [c] + kids[i + 1..];
    LeavesAround(kids[..i], c, kids[i + 1..]);
    LeftOfRoute(keys, kids, h, 0, lo, hi, k);
    RightOfRoute(keys, kids, h, 0, lo, hi, k);
    ItemsAround(a, m, b);
    ItemsAround(a, m', b);
    RemoveMiddle(Items(a), Items(m), Items(b), k);
    IdsAround(a, m, b);
    IdsAround(a, m', b);
    IdsEffectAround(ev, Ids(a), Ids(m), Ids(m'), Ids(b));
  }

  lemma {:induction false} DeleteKeyDeletes<V>(t: Tree<V>, deg: nat, k: int, h: nat, lo: Bound, hi: Bound, min: int)
    requires deg >= 2 && Ok(t, h, 0, lo, hi, min) && Shaped(t, h)
    ensures var (t', ev) := DeleteKey(t, deg, k, h);
            Deletes(ev, Leaves(t), Leaves(t'), k) && (t.Leaf? ==> ev == Keep)
    decreases h
  {
    hide Body, Ok, Refill, Route, Matched, Deletes, Effect, Remove;
    match t {
      case Leaf(l) => LeafDeletes(l, k);
      case Node(keys, kids) =>
        NodeBody(keys, kids, h, 0, lo, hi, min);
        var i := Route(keys, k);
        var (c, ev) := DeleteKey(kids[i], deg, k, h - 1);
        OkAt(keys, kids, h - 1, 0, lo, hi, i);
        DeleteKeyOk(kids[i], deg, k, h - 1, 0, LowOf(lo, keys, i), HighOf(keys, hi, i), 0);
        DeleteKeyDeletes(kids[i], deg, k, h - 1, LowOf(lo, keys, i), HighOf(keys, hi, i), 0);
        DeletesAround(keys, kids, h - 1, lo, hi, k, c, ev);
        StillUniform(kids, i, c, h - 1);
        SettleDeletes(keys, kids, h - 1, deg, lo, hi, k, i, c, ev);
    }
  }

  lemma SettleDeletes<V>(keys: seq<int>, kids: seq<Tree<V>>, h: nat, deg: nat, lo: Bound, hi: Bound, k: int, i: nat,
                         c: Tree<V>, ev: Event)
    requires deg >= 2 && Body(keys, kids, h, 0, lo, hi) && |kids| == |keys| + 1 && i < |kids|
    requires Ok(c, h, 0, LowOf(lo, keys, i), HighOf(keys, hi, i), -1) && Uniform(kids[i := c])
    requires Deletes(ev, AllLeaves(kids), AllLeaves(kids[i := c]), k) && (c.Leaf? ==> ev == Keep)
    ensures var r := Settle(keys, kids[i := c], i, ev, deg); Deletes(r.1, AllLeaves(kids), Leaves(r.0), k)
  {
    hide Body, Ok, Refill, Matched, Deletes, Effect;
    var kids' := kids[i := c];
    if Size(c) < deg / 2 {
      RefillEffect(keys, kids, h, deg, lo, hi, i, c);
      var (n, merge) := Refill(keys, kids', i, deg);
      DeletesThen(ev, AllLeaves(kids), AllLeaves(kids'), merge, Leaves(n), k);
    }
  }

  /** The entries after a deletion are the ordered list without the key. */
  lemma DeleteItems<V>(t: Tree<V>, deg: nat, k: int, h: nat)
    requires deg >= 2 && RootOk(t, h, 0) && Shaped(t, h)
    ensures var (t', ev) := Delete(t, deg, k, h);
            Items(Leaves(t')) == Remove(Items(Leaves(t)), k) && IdsEffect(ev, Ids(Leaves(t)), Ids(Leaves(t')))
  {
    hide DeleteKey, Ok, Items, Remove, Ids, IdsEffect;
    DeleteKeyDeletes(t, deg, k, h, Unbounded, Unbounded, 0);
    DeleteKeyOk(t, deg, k, h, 0, Unbounded, Unbounded, 0);
    var t' := DeleteKey(t, deg, k, h).0;
    if t'.Node? && |t'.keys| == 0 {
      assert t'.kids == [t'.kids[0]];
      LeavesOne(t'.kids[0]);
    }
  }

  /** An insertion adds at most one leaf, right after the one it was split from. */
  lemma InsertIdsEffect<V>(t: Tree<V>, deg: nat, k: int, v: V, newId: nat, h: nat)
    requires deg >= 2 && RootOk(t, h, 0) && Shaped(t, h)
    ensures var (t', ev) := Insert(t, deg, k, v, newId, h);
            IdsEffect(ev, Ids(Leaves(t)), Ids(Leaves(t'))) && (ev == Keep || (ev.Added? && ev.right == newId))
  {
    hide Insert, Ids, RootOk;
    var a, l, b := InsertIds(t, deg, k, v, newId, h);
    IdsAround(a, [l], b);
    IdsOne(l);
    var ids, i := Ids(a) + [l.id] + Ids(b), |Ids(a)|;
    assert ids[i] == l.id && InsertAt(ids, i + 1, newId) == Ids(a) + [l.id, newId] + Ids(b);
  }
}
