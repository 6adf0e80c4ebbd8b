/** The in-memory B+ tree of go_learn/b+tree_in_mem/btree/b+tree.go, on tree values. The arrays
    inside one node and their shifting loops are the subject of module BTreeNodes. */
module BTree {
  import opened Options

  datatype Entry<V> = Entry(key: int, val: V)

  datatype LeafRec<V> = LeafRec(id: nat, entries: seq<Entry<V>>)

  datatype Tree<V> =
    | Leaf(leaf: LeafRec<V>)
    | Node(keys: seq<int>, kids: seq<Tree<V>>)

  /** getNKeys. */
  function Size<V>(t: Tree<V>): nat {
    match t
    case Leaf(l) => |l.entries|
    case Node(keys, _) => |keys|
  }

  // ----- searching inside a node

  /** The first entry whose key is at least `k`. */
  function LowerBound<V>(es: seq<Entry<V>>, k: int): (i: nat)
    ensures i <= |es| && (forall j :: 0 <= j < i ==> es[j].key < k) && (i < |es| ==> k <= es[i].key)
  {
    if es == [] || k <= es[0].key then 0 else 1 + LowerBound(es[1..], k)
  }

  /** The child to descend into: the first one whose separator to the right exceeds `k`. */
  function Route(keys: seq<int>, k: int): (i: nat)
    ensures i <= |keys| && (forall j :: 0 <= j < i ==> keys[j] <= k) && (i < |keys| ==> k < keys[i])
  {
    if keys == [] || k < keys[0] then 0 else 1 + Route(keys[1..], k)
  }

  predicate Holds<V>(es: seq<Entry<V>>, i: nat, k: int) {
    i < |es| && es[i].key == k
  }

  // ----- what the tree must look like

  datatype Bound = Unbounded | At(key: int)

  predicate Above(lo: Bound, k: int) {
    lo.At? ==> lo.key <= k
  }

  predicate StrictlyAbove(lo: Bound, k: int) {
    lo.At? ==> lo.key < k
  }

  predicate Below(k: int, hi: Bound) {
    hi.At? ==> k < hi.key
  }

  predicate SortedKeys(keys: seq<int>) {
    forall i, j :: 0 <= i < j < |keys| ==> keys[i] < keys[j]
  }

  predicate SortedEntries<V>(es: seq<Entry<V>>) {
    forall i, j :: 0 <= i < j < |es| ==> es[i].key < es[j].key
  }

  predicate Within<V>(lo: Bound, es: seq<Entry<V>>, hi: Bound) {
    forall i :: 0 <= i < |es| ==> Above(lo, es[i].key) && Below(es[i].key, hi)
  }

  predicate KeysWithin(lo: Bound, keys: seq<int>, hi: Bound) {
    forall i :: 0 <= i < |keys| ==> StrictlyAbove(lo, keys[i]) && Below(keys[i], hi)
  }

  /** The bounds that the separators around child `i` give it. */
  function LowOf(lo: Bound, keys: seq<int>, i: nat): Bound
    requires i <= |keys|
  {
    if i == 0 then lo else At(keys[i - 1])
  }

  function HighOf(keys: seq<int>, hi: Bound, i: nat): Bound
    requires i <= |keys|
  {
    if i == |keys| then hi else At(keys[i])
  }

  /** Separators and children match and all leaves are `h` levels down. */
  predicate Shaped<V>(t: Tree<V>, h: nat)
    decreases h
  {
    match t
    case Leaf(_) => h == 0
    case Node(keys, kids) => h > 0 && |kids| == |keys| + 1 && forall i :: 0 <= i < |kids| ==> Shaped(kids[i], h - 1)
  }

  /** Below the number of keys at which a node splits; a cap of 0 stands for no limit. */
  predicate Fits(n: nat, cap: nat) {
    cap > 0 ==> n < cap
  }

  /** A subtree of height `h` with keys from [lo, hi): sorted, separators bound their subtrees,
      equal depth, at least `min` keys here and cap/2 below, and less than `cap` everywhere. */
  ghost predicate Ok<V>(t: Tree<V>, h: nat, cap: nat, lo: Bound, hi: Bound, min: int)
    decreases h, 0
  {
    && min <= Size(t) && Fits(Size(t), cap)
    && match t
       case Leaf(l) => h == 0 && SortedEntries(l.entries) && Within(lo, l.entries, hi)
       case Node(keys, kids) => h > 0 && Body(keys, kids, h - 1, cap, lo, hi)
  }

  /** Separators and the subtrees of height `h` between them. */
  ghost predicate Body<V>(keys: seq<int>, kids: seq<Tree<V>>, h: nat, cap: nat, lo: Bound, hi: Bound)
    decreases h, 1
  {
    && |kids| == |keys| + 1 && SortedKeys(keys) && KeysWithin(lo, keys, hi)
    && forall i :: 0 <= i < |kids| ==> Ok(kids[i], h, cap, LowOf(lo, keys, i), HighOf(keys, hi, i), cap / 2)
  }

  /** The whole tree: the root may be small, but with a cap an inner root has two subtrees. */
  ghost predicate RootOk<V>(t: Tree<V>, h: nat, cap: nat) {
    Ok(t, h, cap, Unbounded, Unbounded, RootMin(h, cap))
  }

  ghost function RootMin(h: nat, cap: nat): nat {
    if h == 0 || cap == 0 then 0 else 1
  }

  /** The two caps of interest for a tree of degree `deg`: none at all, and the degree itself if
      it is odd. */
  predicate Suits(cap: nat, deg: nat) {
    deg >= 2 && (cap == 0 || (cap == deg && deg % 2 == 1))
  }

  lemma {:induction false} OkShaped<V>(t: Tree<V>, h: nat, cap: nat, lo: Bound, hi: Bound, min: int)
    requires Ok(t, h, cap, lo, hi, min)
    ensures Shaped(t, h)
    decreases h
  {
    if t.Node? {
      forall i | 0 <= i < |t.kids| ensures Shaped(t.kids[i], h - 1) {
        OkShaped(t.kids[i], h - 1, cap, LowOf(lo, t.keys, i), HighOf(t.keys, hi, i), cap / 2);
      }
    }
  }

  // ----- leaves and entries in order

  function Leaves<V>(t: Tree<V>): seq<LeafRec<V>>
    decreases t
  {
    match t
    case Leaf(l) => [l]
    case Node(_, kids) => AllLeaves(kids)
  }

  function AllLeaves<V>(kids: seq<Tree<V>>): seq<LeafRec<V>>
    decreases kids
  {
    if kids == [] then [] else Leaves(kids[0]) + AllLeaves(kids[1..])
  }

  function Items<V>(ls: seq<LeafRec<V>>): seq<Entry<V>> {
    if ls == [] then [] else ls[0].entries + Items(ls[1..])
  }

  function Ids<V>(ls: seq<LeafRec<V>>): seq<nat> {
    seq(|ls|, i requires 0 <= i < |ls| => ls[i].id)
  }

  lemma {:induction false} LeavesConcat<V>(a: seq<Tree<V>>, b: seq<Tree<V>>)
    ensures AllLeaves(a + b) == AllLeaves(a) + AllLeaves(b)
  {
    if a == [] {
      assert a + b == b;
    } else {
      assert (a + b)[1..] == a[1..] + b;
      LeavesConcat(a[1..], b);
    }
  }

  lemma LeavesOne<V>(t: Tree<V>)
    ensures AllLeaves([t]) == Leaves(t)
  {
    assert AllLeaves([t]) == Leaves(t) + AllLeaves([]);
  }

  lemma LeavesTwo<V>(t: Tree<V>, u: Tree<V>)
    ensures AllLeaves([t, u]) == Leaves(t) + Leaves(u)
  {
    assert [t, u][1..] == [u];
    LeavesOne(u);
  }

  /** The leaves of a node, with those of one child set apart. */
  lemma LeavesAround<V>(a: seq<Tree<V>>, t: Tree<V>, b: seq<Tree<V>>)
    ensures AllLeaves(a + [t] + b) == AllLeaves(a) + Leaves(t) + AllLeaves(b)
  {
    hide AllLeaves, Leaves;
    LeavesConcat(a, [t]);
    LeavesConcat(a + [t], b);
    LeavesOne(t);
  }

  lemma SplitAt<T>(s: seq<T>, i: nat)
    requires i < |s|
    ensures s == s[..i] + [s[i]] + s[i + 1..]
  {}

  lemma SplitPair<T>(s: seq<T>, i: nat)
    requires i + 1 < |s|
    ensures s == s[..i] + [s[i], s[i + 1]] + s[i + 2..]
  {}

  lemma LeavesAroundPair<V>(a: seq<Tree<V>>, t: Tree<V>, u: Tree<V>, b: seq<Tree<V>>)
    ensures AllLeaves(a + [t, u] + b) == AllLeaves(a) + (Leaves(t) + Leaves(u)) + AllLeaves(b)
  {
    hide AllLeaves, Leaves;
    LeavesConcat(a, [t, u]);
    LeavesConcat(a + [t, u], b);
    LeavesTwo(t, u);
  }

  lemma {:induction false} ItemsConcat<V>(a: seq<LeafRec<V>>, b: seq<LeafRec<V>>)
    ensures Items(a + b) == Items(a) + Items(b)
  {
    if a == [] {
      assert a + b == b;
    } else {
      assert (a + b)[1..] == a[1..] + b;
      ItemsConcat(a[1..], b);
    }
  }

  lemma ItemsOne<V>(l: LeafRec<V>)
    ensures Items([l]) == l.entries
  {
    assert Items([l]) == l.entries + Items([]);
  }

  /** What an operation does to the chain of leaves. */
  datatype Event = Keep | Added(left: nat, right: nat) | Merged(left: nat, right: nat)

  // ----- the ordered list as a finite map

  function InsertAt<T>(s: seq<T>, i: nat, x: T): seq<T>
    requires i <= |s|
  {
    s[..i] + [x] + s[i..]
  }

  function RemoveAt<T>(s: seq<T>, i: nat): seq<T>
    requires i < |s|
  {
    s[..i] + s[i + 1..]
  }

  function Put<V>(es: seq<Entry<V>>, k: int, v: V): seq<Entry<V>> {
    var i := LowerBound(es, k);
    if Holds(es, i, k) then es[i := Entry(k, v)] else InsertAt(es, i, Entry(k, v))
  }

  function Remove<V>(es: seq<Entry<V>>, k: int): seq<Entry<V>> {
    var i := LowerBound(es, k);
    if Holds(es, i, k) then RemoveAt(es, i) else es
  }

  function Get<V>(es: seq<Entry<V>>, k: int): Option<V> {
    var i := LowerBound(es, k);
    if Holds(es, i, k) then Some(es[i].val) else None
  }

  /** The finite map that a sorted list stands for. */
  ghost function MapOf<V>(es: seq<Entry<V>>): map<int, V>
    requires SortedEntries(es)
  {
    map i: int | 0 <= i < |es| :: es[i].key := es[i].val
  }

  lemma GetIsLookup<V>(es: seq<Entry<V>>, k: int)
    requires SortedEntries(es)
    ensures Get(es, k) == if k in MapOf(es) then Some(MapOf(es)[k]) else None
  {
    hide LowerBound;
    var i := LowerBound(es, k);
    if k in MapOf(es) {
      var j :| 0 <= j < |es| && es[j].key == k;
      assert j == i;
    }
  }

  lemma PutSorted<V>(es: seq<Entry<V>>, k: int, v: V)
    requires SortedEntries(es)
    ensures SortedEntries(Put(es, k, v))
  {
    hide LowerBound;
  }

  /** The pairs of a sorted list are those of its map. */
  lemma MapHas<V>(es: seq<Entry<V>>, e: Entry<V>)
    requires SortedEntries(es)
    ensures e in es <==> e.key in MapOf(es) && MapOf(es)[e.key] == e.val
  {
    if e.key in MapOf(es) {
      var j :| 0 <= j < |es| && es[j].key == e.key;
      if e in es {
        var i :| 0 <= i < |es| && es[i] == e;
        assert i == j;
      }
    }
  }

  lemma SameMap<V(!new)>(es: seq<Entry<V>>, m: map<int, V>)
    requires SortedEntries(es) && forall e: Entry<V> :: e in es <==> e.key in m && m[e.key] == e.val
    ensures MapOf(es) == m
  {
    forall k: int | k in m ensures k in MapOf(es) { assert Entry(k, m[k]) in es; }
    forall i | 0 <= i < |es| ensures es[i].key in m && m[es[i].key] == es[i].val { assert es[i] in es; }
  }

  lemma PutHas<V>(es: seq<Entry<V>>, k: int, v: V, e: Entry<V>)
    requires SortedEntries(es)
    ensures e in Put(es, k, v) <==> e == Entry(k, v) || (e.key != k && e in es)
  {
    hide LowerBound;
    var i := LowerBound(es, k);
    assert es == es[..i] + es[i..];
    if Holds(es, i, k) {
      assert es[i..] == [es[i]] + es[i + 1..];
      assert es[i := Entry(k, v)] == es[..i] + [Entry(k, v)] + es[i + 1..];
    }
  }

  lemma PutIsUpdate<V(!new)>(es: seq<Entry<V>>, k: int, v: V)
    requires SortedEntries(es)
    ensures SortedEntries(Put(es, k, v)) && MapOf(Put(es, k, v)) == MapOf(es)[k := v]
  {
    hide Put, MapOf;
    PutSorted(es, k, v);
    forall e: Entry<V> ensures e in Put(es, k, v) <==> e.key in MapOf(es)[k := v] && MapOf(es)[k := v][e.key] == e.val {
      PutHas(es, k, v, e);
      MapHas(es, e);
    }
    SameMap(Put(es, k, v), MapOf(es)[k := v]);
  }

  lemma RemoveSorted<V>(es: seq<Entry<V>>, k: int)
    requires SortedEntries(es)
    ensures SortedEntries(Remove(es, k))
  {
    hide LowerBound;
  }

  lemma RemoveHas<V>(es: seq<Entry<V>>, k: int, e: Entry<V>)
    requires SortedEntries(es)
    ensures e in Remove(es, k) <==> e.key != k && e in es
  {
    hide LowerBound;
    var i := LowerBound(es, k);
    assert es == es[..i] + es[i..];
    if Holds(es, i, k) { assert es[i..] == [es[i]] + es[i + 1..]; }
  }

  lemma RemoveIsRemoval<V(!new)>(es: seq<Entry<V>>, k: int)
    requires SortedEntries(es)
    ensures SortedEntries(Remove(es, k)) && MapOf(Remove(es, k)) == MapOf(es) - {k}
  {
    hide Remove, MapOf;
    RemoveSorted(es, k);
    forall e: Entry<V> ensures e in Remove(es, k) <==> e.key in MapOf(es) - {k} && (MapOf(es) - {k})[e.key] == e.val {
      RemoveHas(es, k, e);
      MapHas(es, e);
    }
    SameMap(Remove(es, k), MapOf(es) - {k});
  }
}
