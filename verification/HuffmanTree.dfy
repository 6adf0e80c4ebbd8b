/** Building the code tree as an array of nodes (huffman/huffman.cpp, HuffmanEncoder::BuildTree).

    Nodes refer to each other by index. A node that has no parent yet points to itself; children
    always have lower indices than their parent, which is why both the climb of the encoder and
    the descent of the decoder end. */
module HuffmanTree {
  import opened HuffmanOptimality

  const COMPOUND: int := -1

  datatype Node = Node(letter: int, count: int, parent: int, left: int, right: int)

  // ----- the linked structure

  ghost predicate IsLeaf(x: Node) {
    x.left == -1 && x.right == -1 && x.count >= 0
  }

  ghost predicate IsCompound(nodes: seq<Node>, i: nat)
    requires i < |nodes|
  {
    var x := nodes[i];
    && x.letter == COMPOUND && 0 <= x.left < i && 0 <= x.right < i && x.left != x.right
    && x.count == nodes[x.left].count + nodes[x.right].count
    && nodes[x.left].parent == i && nodes[x.right].parent == i
  }

  ghost predicate IsRoot(nodes: seq<Node>, i: nat)
    requires i < |nodes|
  {
    nodes[i].parent == i
  }

  ghost predicate IsChild(nodes: seq<Node>, i: nat)
    requires i < |nodes|
  {
    var p := nodes[i].parent;
    i < p < |nodes| && !IsLeaf(nodes[p]) && (nodes[p].left == i || nodes[p].right == i)
  }

  ghost predicate LinkedAt(nodes: seq<Node>, i: nat)
    requires i < |nodes|
  {
    (IsLeaf(nodes[i]) || IsCompound(nodes, i)) && (IsRoot(nodes, i) || IsChild(nodes, i))
  }

  ghost predicate Linked(nodes: seq<Node>) {
    forall i: nat :: i < |nodes| ==> LinkedAt(nodes, i)
  }

  /** The tree below node `i`. */
  ghost function TreeOf(nodes: seq<Node>, i: nat): Tree
    requires Linked(nodes) && i < |nodes|
  {
    assert LinkedAt(nodes, i);
    if IsLeaf(nodes[i]) then Leaf(nodes[i].letter, nodes[i].count)
    else Branch(TreeOf(nodes, nodes[i].left), TreeOf(nodes, nodes[i].right))
  }

  lemma {:induction false} CountIsWeight(nodes: seq<Node>, i: nat)
    requires Linked(nodes) && i < |nodes|
    ensures nodes[i].count == Weight(TreeOf(nodes, i))
  {
    assert LinkedAt(nodes, i);
    if !IsLeaf(nodes[i]) {
      CountIsWeight(nodes, nodes[i].left);
      CountIsWeight(nodes, nodes[i].right);
    }
  }

  /** Everything but the parent field agrees. */
  ghost predicate SameButParent(x: Node, y: Node) {
    x.letter == y.letter && x.count == y.count && x.left == y.left && x.right == y.right
  }

  ghost predicate Extends(nodes: seq<Node>, more: seq<Node>) {
    |nodes| <= |more| && forall i :: 0 <= i < |nodes| ==> SameButParent(nodes[i], more[i])
  }

  lemma {:induction false} TreesStay(nodes: seq<Node>, more: seq<Node>, i: nat)
    requires Linked(nodes) && Linked(more) && Extends(nodes, more) && i < |nodes|
    ensures TreeOf(more, i) == TreeOf(nodes, i)
  {
    assert LinkedAt(nodes, i) && LinkedAt(more, i);
    if !IsLeaf(nodes[i]) {
      TreesStay(nodes, more, nodes[i].left);
      TreesStay(nodes, more, nodes[i].right);
    }
  }

  // ----- one merge

  /** The heap holds every root exactly once. */
  ghost predicate AreRoots(nodes: seq<Node>, heap: seq<nat>) {
    forall i: nat :: multiset(heap)[i] == if i < |nodes| && IsRoot(nodes, i) then 1 else 0
  }

  function Adopt(nodes: seq<Node>, a: nat, b: nat): seq<Node>
    requires a < |nodes| && b < |nodes|
  {
    var p := |nodes|;
    var grown := nodes + [Node(COMPOUND, nodes[a].count + nodes[b].count, p, a, b)];
    grown[a := grown[a].(parent := p)][b := grown[b].(parent := p)]
  }

  lemma AdoptLinked(nodes: seq<Node>, a: nat, b: nat)
    requires Linked(nodes) && a < |nodes| && b < |nodes| && a != b && IsRoot(nodes, a) && IsRoot(nodes, b)
    ensures |Adopt(nodes, a, b)| == |nodes| + 1 && Linked(Adopt(nodes, a, b)) && Extends(nodes, Adopt(nodes, a, b))
    ensures forall i: nat :: i <= |nodes| ==>
      (IsRoot(Adopt(nodes, a, b), i) <==> i == |nodes| || (i != a && i != b && IsRoot(nodes, i)))
  {
    var more := Adopt(nodes, a, b);
    forall i: nat | i < |more| ensures LinkedAt(more, i) {
      if i < |nodes| {
        assert LinkedAt(nodes, i);
        if !IsLeaf(nodes[i]) {
          assert IsCompound(nodes, i);
        }
      }
    }
    forall i: nat | i < |nodes| ensures i != a && i != b ==> more[i] == nodes[i] {
    }
    forall i: nat | i < |nodes| && IsRoot(nodes, i) ensures nodes[i].parent < |nodes| {
    }
    forall i: nat | i < |nodes| ensures nodes[i].parent != |nodes| { assert LinkedAt(nodes, i); }
  }

  // ----- what the forest in the heap amounts to

  datatype Tally = Tally(letters: multiset<(int, nat)>, merged: nat, weights: multiset<nat>)

  ghost function Bag(t: Tree): multiset<(int, nat)> {
    match t
    case Leaf(letter, count) => multiset{(letter, count)}
    case Branch(l, r) => Bag(l) + Bag(r)
  }

  lemma {:induction false} BagIsLetters(t: Tree)
    ensures Bag(t) == multiset(Letters(t))
  {
    match t
    case Leaf(_, _) =>
    case Branch(l, r) =>
      BagIsLetters(l);
      BagIsLetters(r);
  }

  ghost function TallyOf(t: Tree): Tally {
    Tally(Bag(t), Merged(t), multiset{Weight(t)})
  }

  ghost function Plus(a: Tally, b: Tally): Tally {
    Tally(a.letters + b.letters, a.merged + b.merged, a.weights + b.weights)
  }

  ghost predicate InRange(nodes: seq<Node>, heap: seq<nat>) {
    forall k :: 0 <= k < |heap| ==> heap[k] < |nodes|
  }

  ghost function TallyAll(nodes: seq<Node>, heap: seq<nat>): Tally
    requires Linked(nodes) && InRange(nodes, heap)
  {
    if heap == [] then Tally(multiset{}, 0, multiset{})
    else Plus(TallyOf(TreeOf(nodes, heap[0])), TallyAll(nodes, heap[1..]))
  }

  lemma {:induction false} TallyTakeOut(nodes: seq<Node>, heap: seq<nat>, k: nat)
    requires Linked(nodes) && InRange(nodes, heap) && k < |heap|
    ensures InRange(nodes, heap[..k] + heap[k + 1..])
    ensures TallyAll(nodes, heap) == Plus(TallyOf(TreeOf(nodes, heap[k])), TallyAll(nodes, heap[..k] + heap[k + 1..]))
  {
    hide TreeOf, TallyOf, Linked, Plus;
    var rest := heap[..k] + heap[k + 1..];
    if k == 0 {
      assert rest == heap[1..];
    } else {
      assert rest[1..] == heap[1..][..k - 1] + heap[1..][k..] && rest[0] == heap[0];
      TallyTakeOut(nodes, heap[1..], k - 1);
      PlusSwaps(TallyOf(TreeOf(nodes, heap[0])), TallyOf(TreeOf(nodes, heap[k])), TallyAll(nodes, rest[1..]));
    }
  }

  lemma PlusSwaps(a: Tally, b: Tally, c: Tally)
    ensures Plus(a, Plus(b, c)) == Plus(b, Plus(a, c))
  {}

  lemma {:induction false} TallyOfPermutation(nodes: seq<Node>, a: seq<nat>, b: seq<nat>)
    requires Linked(nodes) && InRange(nodes, a) && InRange(nodes, b) && multiset(a) == multiset(b)
    ensures TallyAll(nodes, a) == TallyAll(nodes, b)
  {
    hide TreeOf, TallyOf, Linked, Plus;
    if a == [] {
      assert |multiset(b)| == |b|;
    } else {
      var k := HeadInPermutation(a, b);
      TallyTakeOut(nodes, b, k);
      TallyOfPermutation(nodes, a[1..], b[..k] + b[k + 1..]);
    }
  }

  lemma {:induction false} TallyStays(nodes: seq<Node>, more: seq<Node>, heap: seq<nat>)
    requires Linked(nodes) && Linked(more) && Extends(nodes, more) && InRange(nodes, heap)
    ensures InRange(more, heap) && TallyAll(more, heap) == TallyAll(nodes, heap)
  {
    hide TreeOf, TallyOf, Linked, Plus;
    if heap != [] {
      TreesStay(nodes, more, heap[0]);
      TallyStays(nodes, more, heap[1..]);
    }
  }

  /** The weights in the tally are the counts of the nodes in the heap. */
  lemma {:induction false} WeightsAreCounts(nodes: seq<Node>, heap: seq<nat>, w: nat) returns (k: nat)
    requires Linked(nodes) && InRange(nodes, heap) && w in TallyAll(nodes, heap).weights
    ensures k < |heap| && nodes[heap[k]].count == w
  {
    CountIsWeight(nodes, heap[0]);
    if w == nodes[heap[0]].count {
      k := 0;
    } else {
      k := WeightsAreCounts(nodes, heap[1..], w);
      k := k + 1;
    }
  }

  /** Taking `a` out of the heap takes its tree out of the tally. */
  lemma TallyPop(nodes: seq<Node>, heap: seq<nat>, a: nat, rest: seq<nat>)
    requires Linked(nodes) && InRange(nodes, heap) && multiset(heap) == multiset{a} + multiset(rest)
    ensures a < |nodes| && InRange(nodes, rest)
    ensures TallyAll(nodes, heap) == Plus(TallyOf(TreeOf(nodes, a)), TallyAll(nodes, rest))
  {
    hide TreeOf, TallyOf, Linked, Plus;
    forall i | i in [a] + rest ensures i in heap { assert i in multiset([a] + rest); }
    assert forall k :: 0 <= k < |rest| ==> rest[k] in [a] + rest;
    assert a in [a] + rest;
    TallyOfPermutation(nodes, heap, [a] + rest);
    assert ([a] + rest)[1..] == rest;
  }

  ghost predicate IsLightest(nodes: seq<Node>, heap: seq<nat>, a: nat)
    requires InRange(nodes, heap) && a < |nodes|
  {
    forall k :: 0 <= k < |heap| ==> nodes[a].count <= nodes[heap[k]].count
  }

  lemma LightestIsLeast(nodes: seq<Node>, heap: seq<nat>, a: nat)
    requires Linked(nodes) && InRange(nodes, heap) && a < |nodes| && IsLightest(nodes, heap, a)
    ensures forall w :: w in TallyAll(nodes, heap).weights ==> Weight(TreeOf(nodes, a)) <= w
  {
    hide TreeOf, TallyAll, Linked;
    CountIsWeight(nodes, a);
    forall w | w in TallyAll(nodes, heap).weights ensures nodes[a].count <= w {
      var k := WeightsAreCounts(nodes, heap, w);
    }
  }

  /** The tally before and after a merge, in terms of the trees involved. */
  lemma MergeTally(nodes: seq<Node>, heap: seq<nat>, a: nat, rest1: seq<nat>, b: nat, rest2: seq<nat>)
    requires Linked(nodes) && InRange(nodes, heap) && InRange(nodes, rest1) && InRange(nodes, rest2)
    requires multiset(heap) == multiset{a} + multiset(rest1) && multiset(rest1) == multiset{b} + multiset(rest2)
    requires a < |nodes| && b < |nodes| && a != b && IsRoot(nodes, a) && IsRoot(nodes, b)
    ensures Linked(Adopt(nodes, a, b)) && InRange(Adopt(nodes, a, b), rest2 + [|nodes|])
    ensures var s, t, rest := TreeOf(nodes, a), TreeOf(nodes, b), TallyAll(nodes, rest2);
            && TallyAll(nodes, heap) == Plus(TallyOf(s), Plus(TallyOf(t), rest))
            && TallyAll(nodes, rest1) == Plus(TallyOf(t), rest)
            && TallyAll(Adopt(nodes, a, b), rest2 + [|nodes|]) == Plus(TallyOf(Branch(s, t)), rest)
  {
    hide Linked, TallyAll, Plus, TallyOf, Adopt, TreeOf;
    var more, p := Adopt(nodes, a, b), |nodes|;
    AdoptLinked(nodes, a, b);
    TallyPop(nodes, heap, a, rest1);
    TallyPop(nodes, rest1, b, rest2);
    TallyStays(nodes, more, rest2);
    AdoptTree(nodes, a, b);
    assert multiset(rest2 + [p]) == multiset{p} + multiset(rest2);
    TallyPop(more, rest2 + [p], p, rest2);
  }

  lemma AdoptTree(nodes: seq<Node>, a: nat, b: nat)
    requires Linked(nodes) && a < |nodes| && b < |nodes| && a != b && IsRoot(nodes, a) && IsRoot(nodes, b)
    ensures Linked(Adopt(nodes, a, b)) && |Adopt(nodes, a, b)| == |nodes| + 1
    ensures TreeOf(Adopt(nodes, a, b), |nodes|) == Branch(TreeOf(nodes, a), TreeOf(nodes, b))
  {
    var more := Adopt(nodes, a, b);
    AdoptLinked(nodes, a, b);
    TreesStay(nodes, more, a);
    TreesStay(nodes, more, b);
    assert more[|nodes|].left == a && more[|nodes|].right == b && LinkedAt(more, |nodes|);
  }

  // Merging two trees keeps the letters, adds the weight of the new branch to the merged
  // weights, and merges the two weights.

  lemma BranchUnfolds(s: Tree, t: Tree)
    ensures Bag(Branch(s, t)) == Bag(s) + Bag(t) && Weight(Branch(s, t)) == Weight(s) + Weight(t)
    ensures Merged(Branch(s, t)) == Weight(s) + Weight(t) + Merged(s) + Merged(t)
  {}

  lemma MergeKeepsLetters(s: Tree, t: Tree, rest: Tally)
    ensures var was, now := Plus(TallyOf(s), Plus(TallyOf(t), rest)), Plus(TallyOf(Branch(s, t)), rest);
            now.letters == was.letters && now.merged == was.merged + Weight(s) + Weight(t)
  {
    hide Weight, Bag, Merged;
    BranchUnfolds(s, t);
    assert Bag(s) + Bag(t) + rest.letters == Bag(s) + (Bag(t) + rest.letters);
  }

  lemma WeightsBefore(s: Tree, t: Tree, rest: Tally)
    ensures var was := Plus(TallyOf(s), Plus(TallyOf(t), rest)).weights;
            && Weight(s) in was && Weight(t) in was - multiset{Weight(s)}
            && was - multiset{Weight(s)} == Plus(TallyOf(t), rest).weights
  {
    hide Weight, Bag, Merged;
    var w := Plus(TallyOf(t), rest).weights;
    assert multiset{Weight(s)} + w - multiset{Weight(s)} == w;
  }

  lemma DropAdded(m: multiset<nat>, x: nat)
    ensures multiset{x} + m - multiset{x} == m
  {}

  lemma MergeTwoAdded(u: nat, v: nat, w: multiset<nat>)
    ensures multiset{u + v} + w == MergeTwo(multiset{u} + (multiset{v} + w), u, v)
  {
    DropAdded(multiset{v} + w, u);
    DropAdded(w, v);
  }

  lemma TalliedWeights(t: Tree, rest: Tally)
    ensures Plus(TallyOf(t), rest).weights == multiset{Weight(t)} + rest.weights
  {
    hide Weight, Bag, Merged;
  }

  lemma WeightsAfter(s: Tree, t: Tree, rest: Tally)
    ensures var was, now := Plus(TallyOf(s), Plus(TallyOf(t), rest)), Plus(TallyOf(Branch(s, t)), rest);
            now.weights == MergeTwo(was.weights, Weight(s), Weight(t))
  {
    hide *;
    TalliedWeights(t, rest);
    TalliedWeights(s, Plus(TallyOf(t), rest));
    TalliedWeights(Branch(s, t), rest);
    BranchUnfolds(s, t);
    MergeTwoAdded(Weight(s), Weight(t), rest.weights);
  }

  /** The invariant of the merging loop: the forest holds the given letters, and a bound for its
      weights plus what was merged so far is a bound for the letters' counts. */
  ghost predicate Progress(letters: seq<(int, nat)>, t: Tally) {
    && t.letters == multiset(letters)
    && forall c: nat :: LowerBound(t.weights, c) ==> LowerBound(Counts(letters), c + t.merged)
  }

  lemma MergeProgress(letters: seq<(int, nat)>, s: Tree, t: Tree, rest: Tally)
    requires var was := Plus(TallyOf(s), Plus(TallyOf(t), rest));
             Progress(letters, was) && TwoLeast(was.weights, Weight(s), Weight(t))
    ensures Progress(letters, Plus(TallyOf(Branch(s, t)), rest))
  {
    hide LowerBound, Counts, MergeTwo, TallyOf, Plus, TwoLeast;
    MergeKeepsLetters(s, t, rest);
    WeightsAfter(s, t, rest);
    var was, now := Plus(TallyOf(s), Plus(TallyOf(t), rest)), Plus(TallyOf(Branch(s, t)), rest);
    forall c: nat | LowerBound(now.weights, c) ensures LowerBound(Counts(letters), c + now.merged) {
      LowerBoundStep(was.weights, Weight(s), Weight(t), c);
      assert c + Weight(s) + Weight(t) + was.merged == c + now.merged;
    }
  }

  /** One round of the loop. */
  lemma RoundProgress(letters: seq<(int, nat)>, nodes: seq<Node>, heap: seq<nat>, a: nat, rest1: seq<nat>, b: nat,
                      rest2: seq<nat>)
    requires Linked(nodes) && InRange(nodes, heap) && InRange(nodes, rest1) && InRange(nodes, rest2)
    requires multiset(heap) == multiset{a} + multiset(rest1) && multiset(rest1) == multiset{b} + multiset(rest2)
    requires a < |nodes| && b < |nodes| && a != b && IsRoot(nodes, a) && IsRoot(nodes, b)
    requires IsLightest(nodes, heap, a) && IsLightest(nodes, rest1, b)
    requires Progress(letters, TallyAll(nodes, heap))
    ensures Linked(Adopt(nodes, a, b)) && InRange(Adopt(nodes, a, b), rest2 + [|nodes|])
    ensures Progress(letters, TallyAll(Adopt(nodes, a, b), rest2 + [|nodes|]))
  {
    hide Linked, TallyAll, Plus, TallyOf, Adopt, TreeOf, IsLightest, Progress, InRange, IsRoot;
    MergeTally(nodes, heap, a, rest1, b, rest2);
    var s, t, rest := TreeOf(nodes, a), TreeOf(nodes, b), TallyAll(nodes, rest2);
    WeightsBefore(s, t, rest);
    LightestIsLeast(nodes, heap, a);
    LightestIsLeast(nodes, rest1, b);
    MergeProgress(letters, s, t, rest);
  }

  // ----- the program

  /** pop_heap with pop_back: takes a node of least count out of the heap. Nothing is said about
      which one of several, or about the order of the others. */
  method PopMin(nodes: seq<Node>, heap: seq<nat>) returns (least: nat, rest: seq<nat>)
    requires |heap| > 0 && InRange(nodes, heap)
    ensures multiset(heap) == multiset{least} + multiset(rest)
    ensures least < |nodes| && IsLightest(nodes, heap, least)
  {
    var k := 0;
    for l := 1 to |heap|
      invariant k < |heap| && forall m :: 0 <= m < l ==> nodes[heap[k]].count <= nodes[heap[m]].count
    {
      if nodes[heap[l]].count < nodes[heap[k]].count { k := l; }
    }
    least, rest := heap[k], heap[..k] + heap[k + 1..];
    WithoutOne(heap, k);
  }

  /** What is left of a heap of roots after two pops. */
  lemma RootsAfterPops(nodes: seq<Node>, heap: seq<nat>, a: nat, rest1: seq<nat>, b: nat, rest2: seq<nat>)
    requires Linked(nodes) && AreRoots(nodes, heap) && InRange(nodes, rest1) && InRange(nodes, rest2)
    requires multiset(heap) == multiset{a} + multiset(rest1) && multiset(rest1) == multiset{b} + multiset(rest2)
    ensures a < |nodes| && b < |nodes| && a != b && IsRoot(nodes, a) && IsRoot(nodes, b)
    ensures AreRoots(Adopt(nodes, a, b), rest2 + [|nodes|])
  {
    hide Linked, IsRoot, Adopt;
    assert a in multiset(heap) && b in multiset(rest1) && multiset(rest1)[a] == 0;
    assert b in multiset(heap);
    AdoptLinked(nodes, a, b);
    var p := |nodes|;
    assert multiset(rest2 + [p]) == multiset(rest2) + multiset{p};
    forall i: nat
      ensures multiset(rest2)[i] == multiset(heap)[i] - (if i == a then 1 else 0) - (if i == b then 1 else 0)
    {}
  }

  /** The first nodes are leaves for the given letters, in order; all others are compound. */
  ghost predicate LeavesFirst(nodes: seq<Node>, letters: seq<(int, nat)>) {
    && |letters| <= |nodes|
    && (forall i :: 0 <= i < |letters| ==>
          nodes[i].letter == letters[i].0 && nodes[i].count == letters[i].1 && IsLeaf(nodes[i]))
    && (forall i :: |letters| <= i < |nodes| ==> !IsLeaf(nodes[i]))
  }

  /** The whole state of the construction when `heap` is left to be merged. */
  ghost predicate Building(letters: seq<(int, nat)>, nodes: seq<Node>, heap: seq<nat>) {
    && Linked(nodes) && AreRoots(nodes, heap) && InRange(nodes, heap) && LeavesFirst(nodes, letters)
    && (nodes != [] ==> IsRoot(nodes, |nodes| - 1)) && |nodes| + |heap| == 2 * |letters|
    && Progress(letters, TallyAll(nodes, heap))
  }

  /** All letters are leaves of the one tree below the last node, at the least possible cost. */
  ghost predicate Finished(letters: seq<(int, nat)>, nodes: seq<Node>) {
    && nodes != [] && Linked(nodes) && LeavesFirst(nodes, letters) && |nodes| == 2 * |letters| - 1
    && (forall i: nat :: i < |nodes| ==> (IsRoot(nodes, i) <==> i == |nodes| - 1))
    && multiset(Letters(TreeOf(nodes, |nodes| - 1))) == multiset(letters)
  }

  ghost predicate Cheapest(t: Tree) {
    forall u :: multiset(Letters(u)) == multiset(Letters(t)) ==> PathLength(t) <= PathLength(u)
  }

  ghost function Fresh(letters: seq<(int, nat)>): seq<Node> {
    seq(|letters|, i requires 0 <= i < |letters| => Node(letters[i].0, letters[i].1, i, -1, -1))
  }

  lemma {:induction false} FreshTally(letters: seq<(int, nat)>, heap: seq<nat>, k: nat)
    requires Linked(Fresh(letters)) && k <= |letters| == |heap| && forall i :: 0 <= i < |heap| ==> heap[i] == i
    ensures InRange(Fresh(letters), heap[k..])
    ensures var t := TallyAll(Fresh(letters), heap[k..]);
            t.letters == multiset(letters[k..]) && t.merged == 0 && t.weights == Counts(letters[k..])
    decreases |letters| - k
  {
    hide Linked, TreeOf, TallyOf, Fresh;
    FreshSize(letters);
    if k < |letters| {
      FreshTally(letters, heap, k + 1);
      assert heap[k..][1..] == heap[k + 1..] && letters[k..][1..] == letters[k + 1..];
      assert letters[k..] == [letters[k]] + letters[k + 1..];
      FreshLeaf(letters, k);
    }
  }

  lemma FreshSize(letters: seq<(int, nat)>)
    ensures |Fresh(letters)| == |letters|
  {}

  lemma FreshLeaf(letters: seq<(int, nat)>, k: nat)
    requires Linked(Fresh(letters)) && k < |letters|
    ensures TallyOf(TreeOf(Fresh(letters), k)) == Tally(multiset{letters[k]}, 0, multiset{letters[k].1})
  {
    hide Linked;
    assert TreeOf(Fresh(letters), k) == Leaf(letters[k].0, letters[k].1);
  }

  lemma FreshLinked(letters: seq<(int, nat)>)
    ensures Linked(Fresh(letters)) && LeavesFirst(Fresh(letters), letters)
    ensures forall i: nat :: i < |letters| ==> IsRoot(Fresh(letters), i)
  {
    var nodes := Fresh(letters);
    forall i: nat | i < |nodes| ensures LinkedAt(nodes, i) {}
  }

  lemma StartBuilding(letters: seq<(int, nat)>, heap: seq<nat>)
    requires |letters| == |heap| && forall i :: 0 <= i < |heap| ==> heap[i] == i
    ensures Building(letters, Fresh(letters), heap)
  {
    hide Linked, LeavesFirst, TallyAll, Fresh, IsRoot, LowerBound, Counts;
    FreshLinked(letters);
    FreshSize(letters);
    FreshTally(letters, heap, 0);
    assert heap[0..] == heap && letters[0..] == letters;
    IdentityHeap(heap, |heap|);
    assert heap[..|heap|] == heap;
  }

  lemma {:induction false} IdentityHeap(heap: seq<nat>, k: nat)
    requires k <= |heap| && forall i :: 0 <= i < |heap| ==> heap[i] == i
    ensures forall i: nat :: multiset(heap[..k])[i] == if i < k then 1 else 0
  {
    if k > 0 {
      IdentityHeap(heap, k - 1);
      assert heap[..k] == heap[..k - 1] + [heap[k - 1]];
    }
  }

  lemma BuildStep(letters: seq<(int, nat)>, nodes: seq<Node>, heap: seq<nat>, a: nat, rest1: seq<nat>, b: nat,
                  rest2: seq<nat>)
    requires Building(letters, nodes, heap)
    requires multiset(heap) == multiset{a} + multiset(rest1) && multiset(rest1) == multiset{b} + multiset(rest2)
    requires InRange(nodes, rest1) && a < |nodes| && b < |nodes| && IsLightest(nodes, heap, a)
    requires IsLightest(nodes, rest1, b)
    ensures Building(letters, Adopt(nodes, a, b), rest2 + [|nodes|])
  {
    hide Linked, AreRoots, TallyAll, Progress, IsLightest;
    PoppedInRange(nodes, heap, a, rest1);
    PoppedInRange(nodes, rest1, b, rest2);
    RootsAfterPops(nodes, heap, a, rest1, b, rest2);
    RoundProgress(letters, nodes, heap, a, rest1, b, rest2);
  }

  lemma OneRoot(nodes: seq<Node>, heap: seq<nat>)
    requires AreRoots(nodes, heap) && |heap| == 1 && (nodes != [] ==> IsRoot(nodes, |nodes| - 1))
    ensures nodes != [] && heap == [|nodes| - 1]
    ensures forall i: nat :: i < |nodes| ==> (IsRoot(nodes, i) <==> i == |nodes| - 1)
  {
    var r := heap[0];
    assert heap == [r] && multiset(heap) == multiset{r};
    assert multiset(heap)[r] == 1 && r < |nodes|;
    assert multiset(heap)[|nodes| - 1] == 1;
  }

  lemma TallyOfOne(nodes: seq<Node>, r: nat)
    requires Linked(nodes) && r < |nodes|
    ensures TallyAll(nodes, [r]) == TallyOf(TreeOf(nodes, r))
  {
    hide Linked, TreeOf, TallyOf;
    assert [r][1..] == [];
  }

  lemma ProgressMeetsBound(letters: seq<(int, nat)>, t: Tree)
    requires Progress(letters, TallyOf(t))
    ensures multiset(Letters(t)) == multiset(letters) && LowerBound(Counts(Letters(t)), PathLength(t))
  {
    hide Counts, Cost, Merged, Letters, Weight, Bag;
    BagIsLetters(t);
    assert LowerBound(TallyOf(t).weights, 0);
    CostIsMerged(t, 0);
    CountsOfPermutation(letters, Letters(t));
  }

  lemma BuildEnd(letters: seq<(int, nat)>, nodes: seq<Node>, heap: seq<nat>)
    requires Building(letters, nodes, heap) && |heap| == 1
    ensures Finished(letters, nodes) && heap == [|nodes| - 1] && Cheapest(TreeOf(nodes, |nodes| - 1))
  {
    hide Linked, AreRoots, TallyAll, Progress, TallyOf, TreeOf, LeavesFirst, LowerBound, PathLength, Letters;
    OneRoot(nodes, heap);
    var t := TreeOf(nodes, |nodes| - 1);
    TallyOfOne(nodes, |nodes| - 1);
    ProgressMeetsBound(letters, t);
    forall u | multiset(Letters(u)) == multiset(Letters(t)) ensures PathLength(t) <= PathLength(u) {
      BoundMet(t, u);
    }
  }

  lemma SomeElement(s: set<int>)
    ensures s != {} ==> exists x :: x in s
  {
    if forall x :: x !in s { assert s == {}; }
  }

  lemma {:induction false} LeastOf(s: set<int>) returns (least: int)
    requires s != {}
    ensures least in s && forall x :: x in s ==> least <= x
  {
    SomeElement(s);
    var x :| x in s;
    var rest := s - {x};
    assert s == rest + {x};
    if rest == {} {
      least := x;
    } else {
      least := LeastOf(rest);
      if x < least { least := x; }
    }
  }

  ghost predicate Ascending(s: seq<int>) {
    forall i, j :: 0 <= i < j < |s| ==> s[i] < s[j]
  }

  /** The order in which std::map is walked. */
  method SortedKeys(m: map<int, nat>) returns (keys: seq<int>)
    ensures Ascending(keys) && (forall k :: k in m ==> k in keys) && (forall i :: 0 <= i < |keys| ==> keys[i] in m)
  {
    keys := [];
    var left := m.Keys;
    while left != {}
      invariant left <= m.Keys && Ascending(keys)
      invariant forall k :: k in m ==> k in left || k in keys
      invariant forall i :: 0 <= i < |keys| ==> keys[i] in m
      invariant forall i, k :: 0 <= i < |keys| && k in left ==> keys[i] < k
      decreases left
    {
      ghost var least := LeastOf(left);
      assert least in left && forall l :: l in left ==> least <= l;
      var k :| k in left && forall l :: l in left ==> k <= l;
      keys, left := keys + [k], left - {k};
    }
  }

  /** The letters with their counts, in the order of the leaves. */
  ghost function LetterList(keys: seq<int>, m: map<int, nat>): seq<(int, nat)>
    requires forall i :: 0 <= i < |keys| ==> keys[i] in m
  {
    seq(|keys|, i requires 0 <= i < |keys| => (keys[i], m[keys[i]]))
  }

  lemma LetterListFacts(keys: seq<int>, m: map<int, nat>)
    requires Ascending(keys) && (forall k :: k in m ==> k in keys) && (forall i :: 0 <= i < |keys| ==> keys[i] in m)
    ensures |LetterList(keys, m)| == |keys| && (keys == [] <==> m == map[])
    ensures forall i :: 0 <= i < |keys| ==> keys[i] in m && LetterList(keys, m)[i] == (keys[i], m[keys[i]])
    ensures forall c, n :: (c, n) in LetterList(keys, m) <==> c in m && m[c] == n
  {
    forall c | c in m ensures (c, m[c]) in LetterList(keys, m) {
      var i :| 0 <= i < |keys| && keys[i] == c;
      assert LetterList(keys, m)[i] == (c, m[c]);
    }
    if keys == [] { assert m.Keys == {}; } else { assert keys[0] in keys; }
  }

  lemma NoNodes(letters: seq<(int, nat)>, nodes: seq<Node>, heap: seq<nat>)
    requires Building(letters, nodes, heap) && heap == []
    ensures nodes == []
  {
    assert forall i: nat :: multiset(heap)[i] == 0;
  }

  lemma PoppedInRange(nodes: seq<Node>, heap: seq<nat>, a: nat, rest: seq<nat>)
    requires InRange(nodes, heap) && multiset(heap) == multiset{a} + multiset(rest)
    ensures InRange(nodes, rest) && |rest| == |heap| - 1
  {
    assert |multiset(heap)| == |heap| && |multiset(rest)| == |rest|;
    forall k | 0 <= k < |rest| ensures rest[k] in heap {
      assert rest[k] in multiset(rest);
      assert rest[k] in multiset(heap);
    }
  }

  class HuffmanEncoder {
    var letterCount: map<int, nat>
    var nodeVec: seq<Node>
    var minHeap: seq<nat>
    var nodeIdx: map<int, nat>

    constructor (letterCount: map<int, nat>)
      ensures this.letterCount == letterCount && nodeVec == [] && minHeap == [] && nodeIdx == map[]
    {
      this.letterCount, nodeVec, minHeap, nodeIdx := letterCount, [], [], map[];
    }

    /** Builds the tree of a cheapest code for the counted letters. */
    method BuildTree() returns (ghost letters: seq<(int, nat)>)
      requires nodeVec == [] && minHeap == [] && nodeIdx == map[]
      modifies this`nodeVec, this`minHeap, this`nodeIdx
      ensures forall c, n :: (c, n) in letters <==> c in letterCount && letterCount[c] == n
      ensures forall i, j :: 0 <= i < j < |letters| ==> letters[i].0 < letters[j].0
      ensures forall c :: c in nodeIdx <==> c in letterCount
      ensures forall i :: 0 <= i < |letters| ==> letters[i].0 in nodeIdx && nodeIdx[letters[i].0] == i
      ensures letterCount == map[] ==> nodeVec == [] && minHeap == []
      ensures letterCount != map[] ==> Finished(letters, nodeVec) && minHeap == [|nodeVec| - 1]
      ensures letterCount != map[] ==> Cheapest(TreeOf(nodeVec, |nodeVec| - 1))
    {
      hide Building, Finished, Cheapest, Fresh, LetterList;
      var keys := SortedKeys(letterCount);
      letters := LetterList(keys, letterCount);
      LetterListFacts(keys, letterCount);
      MakeLeaves(keys, letters);
      StartBuilding(letters, minHeap);
      MergeAll(letters);
      assert |letters| == |keys|;
      if letterCount == map[] {
        NoNodes(letters, nodeVec, minHeap);
      } else {
        BuildEnd(letters, nodeVec, minHeap);
      }
    }

    /** One leaf for every letter, all of them in the heap. */
    method MakeLeaves(keys: seq<int>, ghost letters: seq<(int, nat)>)
      requires nodeVec == [] && minHeap == [] && nodeIdx == map[] && Ascending(keys)
      requires (forall i :: 0 <= i < |keys| ==> keys[i] in letterCount) && letters == LetterList(keys, letterCount)
      modifies this`nodeVec, this`minHeap, this`nodeIdx
      ensures nodeVec == Fresh(letters) && |minHeap| == |letters|
      ensures forall i :: 0 <= i < |minHeap| ==> minHeap[i] == i
      ensures forall k :: k in keys <==> k in nodeIdx
      ensures forall i :: 0 <= i < |keys| ==> keys[i] in nodeIdx && nodeIdx[keys[i]] == i
    {
      for t := 0 to |keys|
        invariant nodeVec == Fresh(letters)[..t] && minHeap == [] && nodeIdx == map[]
      {
        nodeVec := nodeVec + [Node(keys[t], letterCount[keys[t]], t, -1, -1)];
      }
      for i := 0 to |nodeVec|
        invariant nodeVec == Fresh(letters) && |minHeap| == i
        invariant forall k :: 0 <= k < i ==> minHeap[k] == k
        invariant forall k :: k in keys[..i] <==> k in nodeIdx
        invariant forall k :: 0 <= k < i ==> keys[k] in nodeIdx && nodeIdx[keys[k]] == k
      {
        nodeIdx := nodeIdx[nodeVec[i].letter := i];
        minHeap := minHeap + [i];
      }
    }

    /** Merges the two lightest trees until one is left. */
    method MergeAll(ghost letters: seq<(int, nat)>)
      requires Building(letters, nodeVec, minHeap) && |minHeap| == |letters|
      modifies this`nodeVec, this`minHeap
      ensures Building(letters, nodeVec, minHeap) && |minHeap| == if letters == [] then 0 else 1
    {
      hide Linked, AreRoots, TallyAll, Progress, LeavesFirst, Adopt, IsLightest;
      while |minHeap| > 1
        invariant Building(letters, nodeVec, minHeap) && (minHeap == [] <==> letters == [])
        decreases |minHeap|
      {
        var min1, rest1 := PopMin(nodeVec, minHeap);
        PoppedInRange(nodeVec, minHeap, min1, rest1);
        var min2, rest2 := PopMin(nodeVec, rest1);
        PoppedInRange(nodeVec, rest1, min2, rest2);
        BuildStep(letters, nodeVec, minHeap, min1, rest1, min2, rest2);
        nodeVec, minHeap := Adopt(nodeVec, min1, min2), rest2 + [|nodeVec|];
      }
    }
  }
}
