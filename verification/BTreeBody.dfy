/** Cutting, joining and patching the inside of a B+ tree node. */
module BTreeBody {
  import opened BTree

  lemma BodyReplace<V>(keys: seq<int>, kids: seq<Tree<V>>, h: nat, cap: nat, lo: Bound, hi: Bound, i: nat, c: Tree<V>)
    requires Body(keys, kids, h, cap, lo, hi) && i < |kids|
    requires Ok(c, h, cap, LowOf(lo, keys, i), HighOf(keys, hi, i), cap / 2)
    ensures Body(keys, kids[i := c], h, cap, lo, hi)
  {
    hide Ok;
  }

  /** A child gives way to two, with a new separator between them. */
  lemma BodyGrow<V>(keys: seq<int>, kids: seq<Tree<V>>, h: nat, cap: nat, lo: Bound, hi: Bound, i: nat, l: Tree<V>,
                    s: int, r: Tree<V>)
    requires Body(keys, kids, h, cap, lo, hi) && i < |kids|
    requires StrictlyAbove(LowOf(lo, keys, i), s) && Below(s, HighOf(keys, hi, i))
    requires Ok(l, h, cap, LowOf(lo, keys, i), At(s), cap / 2) && Ok(r, h, cap, At(s), HighOf(keys, hi, i), cap / 2)
    ensures Body(InsertAt(keys, i, s), kids[..i] + [l, r] + kids[i + 1..], h, cap, lo, hi)
  {
    hide Ok;
    var keys', kids' := InsertAt(keys, i, s), kids[..i] + [l, r] + kids[i + 1..];
    GrowKeys(keys, lo, hi, i, s);
    forall j | 0 <= j < |kids'| ensures Ok(kids'[j], h, cap, LowOf(lo, keys', j), HighOf(keys', hi, j), cap / 2) {
      if j < i {
        assert kids'[j] == kids[j];
      } else if j > i + 1 {
        assert kids'[j] == kids[j - 1];
      }
    }
  }

  lemma GrowKeys(keys: seq<int>, lo: Bound, hi: Bound, i: nat, s: int)
    requires SortedKeys(keys) && KeysWithin(lo, keys, hi) && i <= |keys|
    requires StrictlyAbove(LowOf(lo, keys, i), s) && Below(s, HighOf(keys, hi, i))
    ensures SortedKeys(InsertAt(keys, i, s)) && KeysWithin(lo, InsertAt(keys, i, s), hi)
  {}

  /** Separator `m` goes up; the rest falls into two. */
  lemma BodyCut<V>(keys: seq<int>, kids: seq<Tree<V>>, h: nat, cap: nat, lo: Bound, hi: Bound, m: nat)
    requires Body(keys, kids, h, cap, lo, hi) && m < |keys|
    ensures Body(keys[..m], kids[..m + 1], h, cap, lo, At(keys[m]))
    ensures Body(keys[m + 1..], kids[m + 1..], h, cap, At(keys[m]), hi)
    ensures StrictlyAbove(lo, keys[m]) && Below(keys[m], hi)
  {
    hide Ok;
    var a, b := kids[..m + 1], kids[m + 1..];
    forall j | 0 <= j < |a|
      ensures Ok(a[j], h, cap, LowOf(lo, keys[..m], j), HighOf(keys[..m], At(keys[m]), j), cap / 2)
    {
      assert a[j] == kids[j];
    }
    forall j | 0 <= j < |b|
      ensures Ok(b[j], h, cap, LowOf(At(keys[m]), keys[m + 1..], j), HighOf(keys[m + 1..], hi, j), cap / 2)
    {
      assert b[j] == kids[m + 1 + j];
    }
  }

  /** The inverse of a cut. */
  lemma BodyJoin<V>(ka: seq<int>, a: seq<Tree<V>>, s: int, kb: seq<int>, b: seq<Tree<V>>, h: nat, cap: nat, lo: Bound,
                    hi: Bound)
    requires Body(ka, a, h, cap, lo, At(s)) && Body(kb, b, h, cap, At(s), hi) && StrictlyAbove(lo, s) && Below(s, hi)
    ensures Body(ka + [s] + kb, a + b, h, cap, lo, hi)
  {
    hide Ok;
    var keys, kids := ka + [s] + kb, a + b;
    JoinKeys(ka, s, kb, lo, hi);
    forall j | 0 <= j < |kids| ensures Ok(kids[j], h, cap, LowOf(lo, keys, j), HighOf(keys, hi, j), cap / 2) {
      if j < |a| { assert kids[j] == a[j]; } else { assert kids[j] == b[j - |a|]; }
    }
  }

  lemma JoinKeys(ka: seq<int>, s: int, kb: seq<int>, lo: Bound, hi: Bound)
    requires SortedKeys(ka) && KeysWithin(lo, ka, At(s)) && SortedKeys(kb) && KeysWithin(At(s), kb, hi)
    requires StrictlyAbove(lo, s) && Below(s, hi)
    ensures SortedKeys(ka + [s] + kb) && KeysWithin(lo, ka + [s] + kb, hi)
  {
    var keys := ka + [s] + kb;
    forall i | 0 <= i < |keys| ensures StrictlyAbove(lo, keys[i]) && Below(keys[i], hi) {
      if i > |ka| { assert keys[i] == kb[i - |ka| - 1]; }
    }
  }

  /** Two neighbours and the separator between them are exchanged. */
  lemma BodyPair<V>(keys: seq<int>, kids: seq<Tree<V>>, h: nat, cap: nat, lo: Bound, hi: Bound, i: nat, a: Tree<V>,
                    s: int, b: Tree<V>)
    requires Body(keys, kids, h, cap, lo, hi) && i < |keys|
    requires StrictlyAbove(LowOf(lo, keys, i), s) && Below(s, HighOf(keys, hi, i + 1))
    requires Ok(a, h, cap, LowOf(lo, keys, i), At(s), cap / 2) && Ok(b, h, cap, At(s), HighOf(keys, hi, i + 1), cap / 2)
    ensures Body(keys[i := s], kids[i := a][i + 1 := b], h, cap, lo, hi)
  {
    hide Ok;
    var keys', kids' := keys[i := s], kids[i := a][i + 1 := b];
    forall j | 0 <= j < |kids'| ensures Ok(kids'[j], h, cap, LowOf(lo, keys', j), HighOf(keys', hi, j), cap / 2) {
      if j != i && j != i + 1 { assert kids'[j] == kids[j]; }
    }
  }

  /** Two neighbours become one. */
  lemma BodyShrink<V>(keys: seq<int>, kids: seq<Tree<V>>, h: nat, cap: nat, lo: Bound, hi: Bound, i: nat, ab: Tree<V>)
    requires Body(keys, kids, h, cap, lo, hi) && i < |keys|
    requires Ok(ab, h, cap, LowOf(lo, keys, i), HighOf(keys, hi, i + 1), cap / 2)
    ensures Body(RemoveAt(keys, i), kids[..i] + [ab] + kids[i + 2..], h, cap, lo, hi)
  {
    hide Ok;
    var keys', kids' := RemoveAt(keys, i), kids[..i] + [ab] + kids[i + 2..];
    forall j | 0 <= j < |kids'| ensures Ok(kids'[j], h, cap, LowOf(lo, keys', j), HighOf(keys', hi, j), cap / 2) {
      if j < i {
        assert kids'[j] == kids[j];
      } else if j > i {
        assert kids'[j] == kids[j + 1];
      }
    }
  }

  // ----- entries in order

  ghost predicate Ordered<V>(lo: Bound, ls: seq<LeafRec<V>>, hi: Bound) {
    SortedEntries(Items(ls)) && Within(lo, Items(ls), hi)
  }

  lemma {:induction false} OkOrdered<V>(t: Tree<V>, h: nat, cap: nat, lo: Bound, hi: Bound, min: int)
    requires Ok(t, h, cap, lo, hi, min)
    ensures Ordered(lo, Leaves(t), hi)
    decreases h, 0
  {
    match t {
      case Leaf(l) => ItemsOne(l);
      case Node(keys, kids) => BodyOrdered(keys, kids, h - 1, cap, lo, hi);
    }
  }

  lemma {:induction false} BodyOrdered<V>(keys: seq<int>, kids: seq<Tree<V>>, h: nat, cap: nat, lo: Bound, hi: Bound)
    requires Body(keys, kids, h, cap, lo, hi)
    ensures Ordered(lo, AllLeaves(kids), hi)
    decreases h, 1, |kids|
  {
    hide Ordered;
    OkOrdered(kids[0], h, cap, LowOf(lo, keys, 0), HighOf(keys, hi, 0), cap / 2);
    if |kids| == 1 {
      LeavesOne(kids[0]);
      assert kids == [kids[0]];
    } else {
      BodyCut(keys, kids, h, cap, lo, hi, 0);
      BodyOrdered(keys[1..], kids[1..], h, cap, At(keys[0]), hi);
      OrderedJoin(lo, Leaves(kids[0]), keys[0], AllLeaves(kids[1..]), hi);
    }
  }

  lemma OrderedJoin<V>(lo: Bound, a: seq<LeafRec<V>>, s: int, b: seq<LeafRec<V>>, hi: Bound)
    requires Ordered(lo, a, At(s)) && Ordered(At(s), b, hi) && StrictlyAbove(lo, s) && Below(s, hi)
    ensures Ordered(lo, a + b, hi)
  {
    hide Items;
    ItemsConcat(a, b);
    JoinEntries(lo, Items(a), s, Items(b), hi);
  }

  lemma JoinEntries<V>(lo: Bound, a: seq<Entry<V>>, s: int, b: seq<Entry<V>>, hi: Bound)
    requires SortedEntries(a) && Within(lo, a, At(s)) && SortedEntries(b) && Within(At(s), b, hi)
    requires StrictlyAbove(lo, s) && Below(s, hi)
    ensures SortedEntries(a + b) && Within(lo, a + b, hi)
  {
    var es := a + b;
    forall i | 0 <= i < |es| ensures Above(lo, es[i].key) && Below(es[i].key, hi) {
      if i >= |a| { assert es[i] == b[i - |a|]; } else { assert es[i] == a[i]; }
    }
  }

  lemma WithinTighter<V>(lo: Bound, lo': Bound, es: seq<Entry<V>>, hi: Bound, hi': Bound)
    requires Within(lo, es, hi) && (lo'.At? ==> lo.At? && lo'.key <= lo.key)
    requires (hi'.At? ==> hi.At? && hi.key <= hi'.key)
    ensures Within(lo', es, hi')
  {}

  /** Left of the child that `k` is routed to, all keys are smaller. */
  lemma LeftOfRoute<V>(keys: seq<int>, kids: seq<Tree<V>>, h: nat, cap: nat, lo: Bound, hi: Bound, k: int)
    requires Body(keys, kids, h, cap, lo, hi)
    ensures Route(keys, k) <= |kids| && Within(Unbounded, Items(AllLeaves(kids[..Route(keys, k)])), At(k))
  {
    hide Body, Items, AllLeaves, Route, Within;
    BodySizes(keys, kids, h, cap, lo, hi);
    var i := Route(keys, k);
    if i > 0 {
      BodyCut(keys, kids, h, cap, lo, hi, i - 1);
      BodyOrdered(keys[..i - 1], kids[..i], h, cap, lo, At(keys[i - 1]));
      WithinTighter(lo, Unbounded, Items(AllLeaves(kids[..i])), At(keys[i - 1]), At(k));
    } else {
      NoItems<V>(kids[..0]);
    }
  }

  /** Right of it, all keys are greater. */
  lemma RightOfRoute<V>(keys: seq<int>, kids: seq<Tree<V>>, h: nat, cap: nat, lo: Bound, hi: Bound, k: int)
    requires Body(keys, kids, h, cap, lo, hi)
    ensures Route(keys, k) < |kids| && Within(At(k + 1), Items(AllLeaves(kids[Route(keys, k) + 1..])), Unbounded)
  {
    hide Body, Items, AllLeaves, Route, Within;
    BodySizes(keys, kids, h, cap, lo, hi);
    var i := Route(keys, k);
    if i < |keys| {
      BodyCut(keys, kids, h, cap, lo, hi, i);
      BodyOrdered(keys[i + 1..], kids[i + 1..], h, cap, At(keys[i]), hi);
      WithinTighter(At(keys[i]), At(k + 1), Items(AllLeaves(kids[i + 1..])), hi, Unbounded);
    } else {
      NoItems<V>(kids[i + 1..]);
    }
  }

  lemma BodySizes<V>(keys: seq<int>, kids: seq<Tree<V>>, h: nat, cap: nat, lo: Bound, hi: Bound)
    requires Body(keys, kids, h, cap, lo, hi)
    ensures |kids| == |keys| + 1
  {}

  /** The routed child's bounds admit the key. */
  lemma RouteBounds<V>(keys: seq<int>, kids: seq<Tree<V>>, h: nat, cap: nat, lo: Bound, hi: Bound, k: int)
    requires Body(keys, kids, h, cap, lo, hi) && Above(lo, k) && Below(k, hi)
    ensures var i := Route(keys, k);
            && i < |kids| && Above(LowOf(lo, keys, i), k) && Below(k, HighOf(keys, hi, i))
            && Ok(kids[i], h, cap, LowOf(lo, keys, i), HighOf(keys, hi, i), cap / 2)
  {
    hide Ok, Route;
  }

  lemma NoItems<V>(none: seq<Tree<V>>)
    requires none == []
    ensures Within(Unbounded, Items(AllLeaves(none)), Unbounded) && Items(AllLeaves(none)) == []
    ensures forall lo, hi :: Within(lo, Items(AllLeaves(none)), hi)
  {}

  // ----- list operations around a middle part

  lemma BoundUnique<V>(es: seq<Entry<V>>, k: int, i: nat)
    requires i <= |es| && (forall j :: 0 <= j < i ==> es[j].key < k) && (i < |es| ==> k <= es[i].key)
    ensures LowerBound(es, k) == i
  {}

  lemma BoundMiddle<V>(a: seq<Entry<V>>, m: seq<Entry<V>>, b: seq<Entry<V>>, k: int)
    requires Within(Unbounded, a, At(k)) && Within(At(k + 1), b, Unbounded)
    ensures LowerBound(a + m + b, k) == |a| + LowerBound(m, k)
    ensures Holds(a + m + b, |a| + LowerBound(m, k), k) <==> Holds(m, LowerBound(m, k), k)
  {
    hide LowerBound;
    var es, i := a + m + b, |a| + LowerBound(m, k);
    forall j | 0 <= j < i ensures es[j].key < k {
      if j < |a| { assert es[j] == a[j]; } else { assert es[j] == m[j - |a|]; }
    }
    if i < |es| {
      if i < |a| + |m| { assert es[i] == m[i - |a|]; } else { assert es[i] == b[i - |a| - |m|]; }
    }
    BoundUnique(es, k, i);
  }

  lemma InsertMiddle<T>(a: seq<T>, m: seq<T>, b: seq<T>, i: nat, x: T)
    requires i <= |m|
    ensures InsertAt(a + m + b, |a| + i, x) == a + InsertAt(m, i, x) + b
  {
    assert (a + m + b)[..|a| + i] == a + m[..i];
    assert (a + m + b)[|a| + i..] == m[i..] + b;
  }

  lemma UpdateMiddle<T>(a: seq<T>, m: seq<T>, b: seq<T>, i: nat, x: T)
    requires i < |m|
    ensures (a + m + b)[|a| + i := x] == a + m[i := x] + b
  {}

  lemma DeleteMiddle<T>(a: seq<T>, m: seq<T>, b: seq<T>, i: nat)
    requires i < |m|
    ensures RemoveAt(a + m + b, |a| + i) == a + RemoveAt(m, i) + b
  {
    assert (a + m + b)[..|a| + i] == a + m[..i];
    assert (a + m + b)[|a| + i + 1..] == m[i + 1..] + b;
  }

  lemma PutMiddle<V>(a: seq<Entry<V>>, m: seq<Entry<V>>, b: seq<Entry<V>>, k: int, v: V)
    requires Within(Unbounded, a, At(k)) && Within(At(k + 1), b, Unbounded)
    ensures Put(a + m + b, k, v) == a + Put(m, k, v) + b
  {
    hide LowerBound, Within, InsertAt, RemoveAt;
    BoundMiddle(a, m, b, k);
    var i := LowerBound(m, k);
    InsertMiddle(a, m, b, i, Entry(k, v));
    if Holds(m, i, k) { UpdateMiddle(a, m, b, i, Entry(k, v)); }
  }

  lemma RemoveMiddle<V>(a: seq<Entry<V>>, m: seq<Entry<V>>, b: seq<Entry<V>>, k: int)
    requires Within(Unbounded, a, At(k)) && Within(At(k + 1), b, Unbounded)
    ensures Remove(a + m + b, k) == a + Remove(m, k) + b
  {
    hide LowerBound, Within, InsertAt, RemoveAt;
    BoundMiddle(a, m, b, k);
    if Holds(m, LowerBound(m, k), k) { DeleteMiddle(a, m, b, LowerBound(m, k)); }
  }

  lemma GetMiddle<V>(a: seq<Entry<V>>, m: seq<Entry<V>>, b: seq<Entry<V>>, k: int)
    requires Within(Unbounded, a, At(k)) && Within(At(k + 1), b, Unbounded)
    ensures Get(a + m + b, k) == Get(m, k)
  {
    hide LowerBound, Within, InsertAt, RemoveAt;
    BoundMiddle(a, m, b, k);
  }
}
