/** Why merging two lightest trees gives a cheapest code (the loop of huffman/huffman.cpp,
    lines 154-170).

    A binary tree over weighted letters is forgotten down to its slots, the (weight, depth) pairs
    of its leaves. The depths of a tree satisfy Kraft's equality, and that is all the
    argument needs: a lower bound for the merged weights gives one for the weights themselves. */
module HuffmanOptimality {

  datatype Tree = Leaf(letter: int, count: nat) | Branch(left: Tree, right: Tree)

  ghost function Weight(t: Tree): nat {
    match t
    case Leaf(_, count) => count
    case Branch(l, r) => Weight(l) + Weight(r)
  }

  /** Weighted path length of the leaves of `t` when its root lies at `depth`. */
  ghost function Cost(t: Tree, depth: nat): nat {
    match t
    case Leaf(_, count) => count * depth
    case Branch(l, r) => Cost(l, depth + 1) + Cost(r, depth + 1)
  }

  ghost function PathLength(t: Tree): nat {
    Cost(t, 0)
  }

  /** The letters of a tree with their counts, from left to right. */
  ghost function Letters(t: Tree): seq<(int, nat)> {
    match t
    case Leaf(letter, count) => [(letter, count)]
    case Branch(l, r) => Letters(l) + Letters(r)
  }

  /** The sum of the weights of all branches. */
  ghost function Merged(t: Tree): nat {
    match t
    case Leaf(_, _) => 0
    case Branch(l, r) => Weight(t) + Merged(l) + Merged(r)
  }

  lemma Distribute(a: nat, b: nat, d: nat)
    ensures (a + b) * d == a * d + b * d
    ensures a * (d + 1) == a * d + a
  {}

  lemma {:induction false} CostIsMerged(t: Tree, depth: nat)
    ensures Cost(t, depth) == Merged(t) + Weight(t) * depth
  {
    match t
    case Leaf(_, _) =>
    case Branch(l, r) =>
      CostIsMerged(l, depth + 1);
      CostIsMerged(r, depth + 1);
      Distribute(Weight(l), 0, depth);
      Distribute(Weight(r), 0, depth);
      Distribute(Weight(l), Weight(r), depth);
  }

  // ----- slots

  datatype Slot = Slot(weight: nat, depth: nat)

  ghost function Pow2(n: nat): nat {
    if n == 0 then 1 else 2 * Pow2(n - 1)
  }

  ghost function Price(x: Slot): nat {
    x.weight * x.depth
  }

  ghost function Total(s: seq<Slot>): nat {
    if s == [] then 0 else Price(s[0]) + Total(s[1..])
  }

  ghost function Weights(s: seq<Slot>): multiset<nat> {
    if s == [] then multiset{} else multiset{s[0].weight} + Weights(s[1..])
  }

  ghost predicate Within(s: seq<Slot>, deepest: nat) {
    forall k :: 0 <= k < |s| ==> s[k].depth <= deepest
  }

  /** The Kraft sum of the slots, in units of the deepest level. */
  ghost function Kraft(s: seq<Slot>, deepest: nat): nat
    requires Within(s, deepest)
  {
    if s == [] then 0 else Pow2(deepest - s[0].depth) + Kraft(s[1..], deepest)
  }

  ghost predicate Complete(s: seq<Slot>, deepest: nat) {
    Within(s, deepest) && Kraft(s, deepest) == Pow2(deepest)
  }

  // How the sums react to replacing and to dropping a slot.

  lemma {:induction false} ReplaceTotal(s: seq<Slot>, k: nat, x: Slot)
    requires k < |s|
    ensures Total(s[k := x]) + Price(s[k]) == Total(s) + Price(x)
  {
    hide Price;
    if k > 0 {
      assert s[k := x][1..] == s[1..][k - 1 := x];
      ReplaceTotal(s[1..], k - 1, x);
    } else {
      assert s[k := x][1..] == s[1..];
    }
  }

  lemma {:induction false} ReplaceWeights(s: seq<Slot>, k: nat, x: Slot)
    requires k < |s|
    ensures Weights(s[k := x]) + multiset{s[k].weight} == Weights(s) + multiset{x.weight}
  {
    if k > 0 {
      assert s[k := x][1..] == s[1..][k - 1 := x];
      ReplaceWeights(s[1..], k - 1, x);
      var rest, rest' := Weights(s[1..]), Weights(s[1..][k - 1 := x]);
      assert Weights(s[k := x]) + multiset{s[k].weight} == multiset{s[0].weight} + (rest' + multiset{s[k].weight});
      assert Weights(s) + multiset{x.weight} == multiset{s[0].weight} + (rest + multiset{x.weight});
    } else {
      assert s[k := x][1..] == s[1..];
    }
  }

  lemma {:induction false} ReplaceKraft(s: seq<Slot>, k: nat, x: Slot, deepest: nat)
    requires k < |s| && Within(s, deepest) && x.depth <= deepest
    ensures Within(s[k := x], deepest)
    ensures Kraft(s[k := x], deepest) + Pow2(deepest - s[k].depth) == Kraft(s, deepest) + Pow2(deepest - x.depth)
  {
    if k > 0 {
      assert s[k := x][1..] == s[1..][k - 1 := x];
      ReplaceKraft(s[1..], k - 1, x, deepest);
    } else {
      assert s[k := x][1..] == s[1..];
    }
  }

  ghost function Drop(s: seq<Slot>, k: nat): seq<Slot>
    requires k < |s|
  {
    s[..k] + s[k + 1..]
  }

  lemma {:induction false} DropTotal(s: seq<Slot>, k: nat)
    requires k < |s|
    ensures Total(s) == Price(s[k]) + Total(Drop(s, k))
  {
    hide Price;
    if k > 0 {
      assert Drop(s, k)[1..] == Drop(s[1..], k - 1);
      DropTotal(s[1..], k - 1);
    } else {
      assert Drop(s, k) == s[1..];
    }
  }

  lemma {:induction false} DropWeights(s: seq<Slot>, k: nat)
    requires k < |s|
    ensures Weights(s) == Weights(Drop(s, k)) + multiset{s[k].weight}
  {
    if k > 0 {
      assert Drop(s, k)[1..] == Drop(s[1..], k - 1);
      DropWeights(s[1..], k - 1);
    } else {
      assert Drop(s, k) == s[1..];
    }
  }

  lemma {:induction false} DropKraft(s: seq<Slot>, k: nat, deepest: nat)
    requires k < |s| && Within(s, deepest)
    ensures Within(Drop(s, k), deepest)
    ensures Kraft(s, deepest) == Pow2(deepest - s[k].depth) + Kraft(Drop(s, k), deepest)
  {
    if k > 0 {
      assert Drop(s, k)[1..] == Drop(s[1..], k - 1);
      DropKraft(s[1..], k - 1, deepest);
    } else {
      assert Drop(s, k) == s[1..];
    }
  }

  lemma {:induction false} FindWeight(s: seq<Slot>, w: nat) returns (k: nat)
    requires w in Weights(s)
    ensures k < |s| && s[k].weight == w
  {
    if s[0].weight == w {
      k := 0;
    } else {
      k := FindWeight(s[1..], w);
      k := k + 1;
    }
  }

  // ----- two slots at the deepest level

  lemma {:induction false} KraftOneLevelUp(s: seq<Slot>, deepest: nat)
    requires deepest > 0 && Within(s, deepest - 1)
    ensures Within(s, deepest) && Kraft(s, deepest) == 2 * Kraft(s, deepest - 1)
  {
    if s != [] { KraftOneLevelUp(s[1..], deepest); }
  }

  /** An odd Kraft sum needs a slot at the deepest level. */
  lemma {:induction false} OddNeedsDeep(s: seq<Slot>, deepest: nat) returns (k: nat)
    requires Within(s, deepest) && Kraft(s, deepest) % 2 == 1
    ensures k < |s| && s[k].depth == deepest
  {
    if s[0].depth == deepest {
      k := 0;
    } else {
      assert Pow2(deepest - s[0].depth) == 2 * Pow2(deepest - s[0].depth - 1);
      k := OddNeedsDeep(s[1..], deepest);
      k := k + 1;
    }
  }

  lemma {:induction false} FlatKraft(s: seq<Slot>)
    requires Within(s, 0)
    ensures Kraft(s, 0) == |s|
  {
    if s != [] { FlatKraft(s[1..]); }
  }

  lemma TwoSlotsAreDeep(s: seq<Slot>, bound: nat)
    requires |s| >= 2 && Complete(s, bound)
    ensures 0 < bound
  {
    hide Kraft;
    if bound == 0 { FlatKraft(s); }
  }

  lemma {:induction false} DeepPair(s: seq<Slot>, bound: nat) returns (deepest: nat, i: nat, j: nat)
    requires |s| >= 2 && Complete(s, bound)
    ensures 0 < deepest && Complete(s, deepest)
    ensures i < |s| && j < |s| && i != j && s[i].depth == deepest && s[j].depth == deepest
  {
    TwoSlotsAreDeep(s, bound);
    if k :| 0 <= k < |s| && s[k].depth == bound {
      deepest, i := bound, k;
      DropKraft(s, i, deepest);
      j := OddNeedsDeep(Drop(s, i), deepest);
      j := if j < i then j else j + 1;
    } else {
      KraftOneLevelUp(s, bound);
      deepest, i, j := DeepPair(s, bound - 1);
    }
  }

  // ----- the exchange argument

  /** Moving the lighter of two slots down to the depth of the other does not cost more. */
  lemma Exchange(s: seq<Slot>, light: nat, deep: nat, deepest: nat) returns (r: seq<Slot>)
    requires light < |s| && deep < |s| && light != deep && Complete(s, deepest) && s[deep].depth == deepest
    requires s[light].weight <= s[deep].weight
    ensures r == s[light := Slot(s[light].weight, deepest)][deep := Slot(s[deep].weight, s[light].depth)]
    ensures Complete(r, deepest) && Weights(r) == Weights(s) && Total(r) <= Total(s)
  {
    hide Total, Weights, Kraft, Pow2, Price;
    var a, b := s[light], s[deep];
    var a', b' := Slot(a.weight, deepest), Slot(b.weight, a.depth);
    var m := s[light := a'];
    r := m[deep := b'];
    ReplaceTotal(s, light, a');
    ReplaceTotal(m, deep, b');
    ReplaceKraft(s, light, a', deepest);
    ReplaceKraft(m, deep, b', deepest);
    ReplaceWeights(s, light, a');
    Cancel(Weights(m), Weights(s), a.weight);
    ReplaceWeights(m, deep, b');
    Cancel(Weights(r), Weights(m), b.weight);
    PricesExchange(a, b);
  }

  lemma Cancel(m: multiset<nat>, n: multiset<nat>, x: nat)
    requires m + multiset{x} == n + multiset{x}
    ensures m == n
  {
    assert m == m + multiset{x} - multiset{x};
    assert n == n + multiset{x} - multiset{x};
  }

  lemma PricesExchange(a: Slot, b: Slot)
    requires a.weight <= b.weight && a.depth <= b.depth
    ensures Price(Slot(a.weight, b.depth)) + Price(Slot(b.weight, a.depth)) <= Price(a) + Price(b)
  {
    var w, d := b.weight - a.weight, b.depth - a.depth;
    assert w * d >= 0;
    assert w * d == b.weight * b.depth - b.weight * a.depth - a.weight * b.depth + a.weight * a.depth;
  }

  /** Two slots at the deepest level become one, one level up. */
  lemma MergePair(s: seq<Slot>, i: nat, j: nat, deepest: nat) returns (r: seq<Slot>)
    requires i < |s| && j < |s| && i != j && 0 < deepest && Complete(s, deepest)
    requires s[i].depth == s[j].depth == deepest
    ensures Complete(r, deepest) && Total(s) == Total(r) + s[i].weight + s[j].weight
    ensures Weights(r) + multiset{s[i].weight} + multiset{s[j].weight}
         == Weights(s) + multiset{s[i].weight + s[j].weight}
  {
    hide Total, Weights, Kraft, Price;
    var x := Slot(s[i].weight + s[j].weight, deepest - 1);
    var m := s[i := x];
    ReplaceTotal(s, i, x);
    ReplaceKraft(s, i, x, deepest);
    ReplaceWeights(s, i, x);
    DropTotal(m, j);
    DropKraft(m, j, deepest);
    DropWeights(m, j);
    r := Drop(m, j);
    assert Pow2(1) == 2 * Pow2(0);
    PriceOfMerged(s[i].weight, s[j].weight, deepest);
  }

  lemma PriceOfMerged(a: nat, b: nat, d: nat)
    requires 0 < d
    ensures Price(Slot(a + b, d - 1)) + a + b == Price(Slot(a, d)) + Price(Slot(b, d))
  {
    assert (a + b) * (d - 1) == a * d + b * d - a - b;
  }

  /** Every way to give the weights depths that satisfy Kraft's equality costs at least `c`. */
  ghost predicate LowerBound(ws: multiset<nat>, c: nat) {
    forall s, deepest :: Complete(s, deepest) && Weights(s) == ws ==> Total(s) >= c
  }

  /** `a` and `b` are the two smallest elements of `ws`. */
  ghost predicate TwoLeast(ws: multiset<nat>, a: nat, b: nat) {
    && a in ws && b in ws - multiset{a}
    && (forall w :: w in ws ==> a <= w) && (forall w :: w in ws - multiset{a} ==> b <= w)
  }

  ghost function MergeTwo(ws: multiset<nat>, a: nat, b: nat): multiset<nat> {
    ws - multiset{a} - multiset{b} + multiset{a + b}
  }

  /** There is an arrangement, no dearer, with a least weight at the deepest level. */
  lemma LeastGoesDeepest(s: seq<Slot>, bound: nat, a: nat) returns (r: seq<Slot>, deepest: nat, i: nat, q: nat)
    requires Complete(s, bound) && |s| >= 2 && a in Weights(s) && forall w :: w in Weights(s) ==> a <= w
    ensures 0 < deepest && Complete(r, deepest) && Weights(r) == Weights(s) && Total(r) <= Total(s)
    ensures i < |r| && q < |r| && i != q && r[i] == Slot(a, deepest) && r[q].depth == deepest
  {
    hide Total, Kraft, Pow2, Weights;
    var p;
    deepest, p, q := DeepPair(s, bound);
    i := FindWeight(s, a);
    if i == q { p, q := q, p; }
    r := s;
    WeightsHere(s, p);
    if i != p {
      r := Exchange(s, i, p, deepest);
    }
  }

  /** And then one with the second least weight there, too. */
  lemma NextGoesDeepest(s: seq<Slot>, deepest: nat, i: nat, q: nat, b: nat) returns (r: seq<Slot>, j: nat)
    requires Complete(s, deepest) && i < |s| && q < |s| && i != q && s[i].depth == s[q].depth == deepest
    requires b in Weights(s) - multiset{s[i].weight} && forall w :: w in Weights(s) - multiset{s[i].weight} ==> b <= w
    ensures Complete(r, deepest) && Weights(r) == Weights(s) && Total(r) <= Total(s)
    ensures |r| == |s| && j < |r| && i != j && r[i] == s[i] && r[j] == Slot(b, deepest)
  {
    hide Total, Kraft, Pow2, Weights;
    var rest := Drop(s, i);
    DropWeights(s, i);
    assert Weights(rest) == Weights(s) - multiset{s[i].weight};
    j := FindWeight(rest, b);
    j := if j < i then j else j + 1;
    var q' := if q < i then q else q - 1;
    assert rest[q'] == s[q];
    WeightsHere(rest, q');
    r := s;
    if j != q {
      r := Exchange(s, j, q, deepest);
    }
  }

  lemma {:induction false} WeightsHere(s: seq<Slot>, k: nat)
    requires k < |s|
    ensures s[k].weight in Weights(s)
  {
    if k > 0 { WeightsHere(s[1..], k - 1); }
  }

  /** The key step: a bound for the merged weights gives a bound for the weights. */
  lemma LowerBoundStep(ws: multiset<nat>, a: nat, b: nat, c: nat)
    requires TwoLeast(ws, a, b) && LowerBound(MergeTwo(ws, a, b), c)
    ensures LowerBound(ws, c + a + b)
  {
    forall s, bound | Complete(s, bound) && Weights(s) == ws
      ensures Total(s) >= c + a + b
    {
      MergedArrangement(s, bound, a, b, c);
    }
  }

  lemma MergedArrangement(s: seq<Slot>, bound: nat, a: nat, b: nat, c: nat)
    requires Complete(s, bound) && TwoLeast(Weights(s), a, b) && LowerBound(MergeTwo(Weights(s), a, b), c)
    ensures Total(s) >= c + a + b
  {
    hide Total, Complete, Weights, MergeTwo, LowerBound;
    AtLeastTwo(s, a, b);
    var r, deepest, i, q := LeastGoesDeepest(s, bound, a);
    var r', j := NextGoesDeepest(r, deepest, i, q, b);
    var m := MergePair(r', i, j, deepest);
    MergeCancels(Weights(m), Weights(s), a, b);
    UseBound(m, deepest, MergeTwo(Weights(s), a, b), c);
  }

  lemma UseBound(s: seq<Slot>, deepest: nat, ws: multiset<nat>, c: nat)
    requires LowerBound(ws, c) && Complete(s, deepest) && Weights(s) == ws
    ensures Total(s) >= c
  {}

  lemma MergeCancels(m: multiset<nat>, ws: multiset<nat>, a: nat, b: nat)
    requires a in ws && b in ws - multiset{a} && m + multiset{a} + multiset{b} == ws + multiset{a + b}
    ensures m == MergeTwo(ws, a, b)
  {
    var rest := ws - multiset{a} - multiset{b} + multiset{a + b};
    assert m + multiset{a} + multiset{b} == rest + multiset{a} + multiset{b};
    Cancel(m + multiset{a}, rest + multiset{a}, b);
    Cancel(m, rest, a);
  }

  lemma AtLeastTwo(s: seq<Slot>, a: nat, b: nat)
    requires a in Weights(s) && b in Weights(s) - multiset{a}
    ensures |s| >= 2
  {
    hide Weights;
    WeightsSize(s);
    assert |Weights(s) - multiset{a}| == |Weights(s)| - 1;
  }

  lemma {:induction false} WeightsSize(s: seq<Slot>)
    ensures |Weights(s)| == |s|
  {
    if s != [] { WeightsSize(s[1..]); }
  }

  // ----- trees are arrangements

  ghost function Slots(t: Tree, depth: nat): seq<Slot> {
    match t
    case Leaf(_, count) => [Slot(count, depth)]
    case Branch(l, r) => Slots(l, depth + 1) + Slots(r, depth + 1)
  }

  ghost function Height(t: Tree): nat {
    match t
    case Leaf(_, _) => 0
    case Branch(l, r) => 1 + if Height(l) >= Height(r) then Height(l) else Height(r)
  }

  lemma {:induction false} AppendKraft(s: seq<Slot>, t: seq<Slot>, deepest: nat)
    requires Within(s, deepest) && Within(t, deepest)
    ensures Within(s + t, deepest) && Kraft(s + t, deepest) == Kraft(s, deepest) + Kraft(t, deepest)
  {
    hide Pow2;
    if s == [] {
      assert s + t == t;
    } else {
      assert (s + t)[1..] == s[1..] + t;
      AppendKraft(s[1..], t, deepest);
    }
  }

  lemma {:induction false} AppendSums(s: seq<Slot>, t: seq<Slot>)
    ensures Total(s + t) == Total(s) + Total(t) && Weights(s + t) == Weights(s) + Weights(t)
  {
    hide Price;
    if s == [] {
      assert s + t == t;
    } else {
      assert (s + t)[1..] == s[1..] + t;
      AppendSums(s[1..], t);
    }
  }

  lemma {:induction false} TreeIsComplete(t: Tree, depth: nat, deepest: nat)
    requires depth + Height(t) <= deepest
    ensures Within(Slots(t, depth), deepest) && Kraft(Slots(t, depth), deepest) == Pow2(deepest - depth)
    ensures Total(Slots(t, depth)) == Cost(t, depth)
  {
    match t
    case Leaf(_, _) =>
      assert Slots(t, depth)[1..] == [];
    case Branch(l, r) =>
      TreeIsComplete(l, depth + 1, deepest);
      TreeIsComplete(r, depth + 1, deepest);
      AppendKraft(Slots(l, depth + 1), Slots(r, depth + 1), deepest);
      AppendSums(Slots(l, depth + 1), Slots(r, depth + 1));
  }

  /** The counts of a list of letters. */
  ghost function Counts(letters: seq<(int, nat)>): multiset<nat> {
    if letters == [] then multiset{} else multiset{letters[0].1} + Counts(letters[1..])
  }

  lemma {:induction false} CountsAppend(a: seq<(int, nat)>, b: seq<(int, nat)>)
    ensures Counts(a + b) == Counts(a) + Counts(b)
  {
    if a == [] {
      assert a + b == b;
    } else {
      assert (a + b)[1..] == a[1..] + b;
      CountsAppend(a[1..], b);
    }
  }

  lemma {:induction false} TakeOut(b: seq<(int, nat)>, k: nat)
    requires k < |b|
    ensures Counts(b) == multiset{b[k].1} + Counts(b[..k] + b[k + 1..])
  {
    var rest := b[..k] + b[k + 1..];
    if k == 0 {
      assert rest == b[1..];
    } else {
      assert rest[1..] == b[1..][..k - 1] + b[1..][k..];
      TakeOut(b[1..], k - 1);
    }
  }

  lemma WithoutHead<T>(a: seq<T>)
    requires a != []
    ensures multiset(a) == multiset{a[0]} + multiset(a[1..])
  {
    assert a == [a[0]] + a[1..];
  }

  lemma WithoutOne<T>(b: seq<T>, k: nat)
    requires k < |b|
    ensures multiset(b) == multiset{b[k]} + multiset(b[..k] + b[k + 1..])
  {
    assert b == b[..k] + [b[k]] + b[k + 1..];
  }

  /** Finds the first element of `a` in a permutation of `a`. */
  lemma HeadInPermutation<T>(a: seq<T>, b: seq<T>) returns (k: nat)
    requires a != [] && multiset(a) == multiset(b)
    ensures k < |b| && b[k] == a[0] && multiset(a[1..]) == multiset(b[..k] + b[k + 1..])
  {
    assert a[0] in multiset(b);
    k :| 0 <= k < |b| && b[k] == a[0];
    WithoutHead(a);
    WithoutOne(b, k);
    assert multiset(a[1..]) == multiset(a) - multiset{a[0]};
    assert multiset(b[..k] + b[k + 1..]) == multiset(b) - multiset{a[0]};
  }

  lemma {:induction false} CountsOfPermutation(a: seq<(int, nat)>, b: seq<(int, nat)>)
    requires multiset(a) == multiset(b)
    ensures Counts(a) == Counts(b)
  {
    if a == [] {
      assert |multiset(b)| == |b|;
    } else {
      var k := HeadInPermutation(a, b);
      TakeOut(b, k);
      CountsOfPermutation(a[1..], b[..k] + b[k + 1..]);
    }
  }

  lemma {:induction false} SlotWeights(t: Tree, depth: nat)
    ensures Weights(Slots(t, depth)) == Counts(Letters(t))
  {
    match t
    case Leaf(_, _) =>
      assert Slots(t, depth)[1..] == [] && Letters(t)[1..] == [];
    case Branch(l, r) =>
      SlotWeights(l, depth + 1);
      SlotWeights(r, depth + 1);
      CountsAppend(Letters(l), Letters(r));
      AppendSums(Slots(l, depth + 1), Slots(r, depth + 1));
  }

  /** A tree that meets the bound for its counts is at least as good as every tree over the
      same letters and counts. */
  lemma BoundMet(t: Tree, u: Tree)
    requires LowerBound(Counts(Letters(t)), PathLength(t)) && multiset(Letters(t)) == multiset(Letters(u))
    ensures PathLength(t) <= PathLength(u)
  {
    hide Counts, Weights, Kraft, Total;
    CountsOfPermutation(Letters(t), Letters(u));
    SlotWeights(u, 0);
    TreeIsComplete(u, 0, Height(u));
    UseBound(Slots(u, 0), Height(u), Counts(Letters(t)), PathLength(t));
  }
}
