/** Coding a file with the tree and reading it back (huffman/huffman.cpp, lines 173-297). */
module HuffmanCodec {
  import opened Options
  import opened HuffmanTree
  import opened HuffmanBits
  import opened HuffmanOptimality

  // ----- characters

  /** A byte read from a file, as a signed char. */
  function ToChar(b: Byte): int {
    if b < 128 then b else b - 256
  }

  /** What printing a letter with %c writes. */
  function ToByte(letter: int): Byte {
    letter % 256
  }

  // ----- codes: up from a leaf, down from the root

  /** The bits on the way from the root down to node `i`. */
  ghost function CodeOf(nodes: seq<Node>, i: nat): seq<bool>
    requires Linked(nodes) && i < |nodes|
    decreases |nodes| - i
  {
    assert LinkedAt(nodes, i);
    if IsRoot(nodes, i) then []
    else CodeOf(nodes, nodes[i].parent) + [nodes[nodes[i].parent].left != i]
  }

  datatype Descent = Reached(leaf: nat, rest: seq<bool>) | Stuck

  /** The decoder's walk: on to a child while the node is marked as compound. It is stuck when
      it would leave the array or read behind the last bit. */
  ghost function Descend(nodes: seq<Node>, curr: int, bits: seq<bool>): (d: Descent)
    ensures d.Reached? ==> d.leaf < |nodes| && |d.rest| <= |bits|
    decreases |bits|
  {
    if !(0 <= curr < |nodes|) then Stuck
    else if nodes[curr].letter != COMPOUND then Reached(curr, bits)
    else if bits == [] then Stuck
    else Descend(nodes, if bits[0] then nodes[curr].right else nodes[curr].left, bits[1..])
  }

  /** Following the code of a node from the root arrives at that node. */
  lemma {:induction false} DescendAlongCode(nodes: seq<Node>, root: nat, i: nat, tail: seq<bool>)
    requires Linked(nodes) && root < |nodes| && i < |nodes|
    requires forall k: nat :: k < |nodes| && IsRoot(nodes, k) ==> k == root
    ensures Descend(nodes, root, CodeOf(nodes, i) + tail) == Descend(nodes, i, tail)
    decreases |nodes| - i
  {
    hide Linked, Descend;
    LinkedHere(nodes, i);
    if IsRoot(nodes, i) {
      assert CodeOf(nodes, i) + tail == tail;
    } else {
      var p := nodes[i].parent;
      var bit := nodes[p].left != i;
      LinkedHere(nodes, p);
      DescendAlongCode(nodes, root, p, [bit] + tail);
      assert CodeOf(nodes, i) + tail == CodeOf(nodes, p) + ([bit] + tail);
      DescendOnce(nodes, p, bit, tail);
    }
  }

  lemma LinkedHere(nodes: seq<Node>, i: nat)
    requires Linked(nodes) && i < |nodes|
    ensures LinkedAt(nodes, i)
  {}

  lemma DescendOnce(nodes: seq<Node>, p: nat, bit: bool, tail: seq<bool>)
    requires p < |nodes| && nodes[p].letter == COMPOUND
    ensures Descend(nodes, p, [bit] + tail) == Descend(nodes, if bit then nodes[p].right else nodes[p].left, tail)
  {
    assert ([bit] + tail)[1..] == tail;
  }

  // ----- whole texts

  /** Every byte of the text has a leaf. */
  ghost predicate Covered(nodes: seq<Node>, idx: map<int, nat>, text: seq<Byte>) {
    forall k :: 0 <= k < |text| ==> ToChar(text[k]) in idx && idx[ToChar(text[k])] < |nodes|
  }

  ghost function AllBits(nodes: seq<Node>, idx: map<int, nat>, text: seq<Byte>): seq<bool>
    requires Linked(nodes) && Covered(nodes, idx, text)
  {
    if text == [] then [] else CodeOf(nodes, idx[ToChar(text[0])]) + AllBits(nodes, idx, text[1..])
  }

  /** The decoder's outer loop. `None` stands for a run that is stuck or never ends. */
  ghost function DecodeAll(nodes: seq<Node>, bits: seq<bool>): Option<seq<Byte>>
    decreases |bits|
  {
    if bits == [] then Some([])
    else
      var d := Descend(nodes, |nodes| - 1, bits);
      if d.Stuck? || |d.rest| >= |bits| then None
      else
        var more := DecodeAll(nodes, d.rest);
        if more.None? then None else Some([ToByte(nodes[d.leaf].letter)] + more.value)
  }

  /** A finished tree, with an index of its leaves that covers the text. */
  ghost predicate Ready(nodes: seq<Node>, idx: map<int, nat>, text: seq<Byte>) {
    && nodes != [] && Linked(nodes) && Covered(nodes, idx, text)
    && (forall k: nat :: k < |nodes| && IsRoot(nodes, k) ==> k == |nodes| - 1)
    && (forall c :: c in idx ==> idx[c] < |nodes| && IsLeaf(nodes[idx[c]]) && nodes[idx[c]].letter == c)
  }

  lemma CodeNotEmpty(nodes: seq<Node>, i: nat)
    requires Linked(nodes) && i < |nodes| && !IsRoot(nodes, i)
    ensures CodeOf(nodes, i) != []
  {}

  lemma ReadyTail(nodes: seq<Node>, idx: map<int, nat>, text: seq<Byte>)
    requires Ready(nodes, idx, text) && text != []
    ensures Ready(nodes, idx, text[1..])
  {}

  /** What the decoder makes of the code of the first byte. */
  lemma FirstByte(nodes: seq<Node>, idx: map<int, nat>, text: seq<Byte>)
    requires Ready(nodes, idx, text) && text != [] && !IsLeaf(nodes[|nodes| - 1])
    ensures var bits, i := AllBits(nodes, idx, text), idx[ToChar(text[0])];
            && |AllBits(nodes, idx, text[1..])| < |bits|
            && Descend(nodes, |nodes| - 1, bits) ==
                 if text[0] == 255 then Stuck else Reached(i, AllBits(nodes, idx, text[1..]))
  {
    hide Linked, CodeOf, DecodeAll;
    var i := idx[ToChar(text[0])];
    var rest := AllBits(nodes, idx, text[1..]);
    assert i < |nodes| && IsLeaf(nodes[i]);
    LinkedHere(nodes, i);
    CodeNotEmpty(nodes, i);
    DescendAlongCode(nodes, |nodes| - 1, i, rest);
  }

  /** The byte 255 becomes the letter -1, which the decoder takes for a compound node. */
  ghost predicate Unmarked(text: seq<Byte>) {
    forall k :: 0 <= k < |text| ==> text[k] != 255
  }

  /** With two or more letters, decoding gives the text back exactly if no byte is 255. */
  lemma {:induction false} DecodeAllBits(nodes: seq<Node>, idx: map<int, nat>, text: seq<Byte>)
    requires Ready(nodes, idx, text) && !IsLeaf(nodes[|nodes| - 1])
    ensures DecodeAll(nodes, AllBits(nodes, idx, text)) == if Unmarked(text) then Some(text) else None
  {
    hide Ready, Descend, AllBits, IsLeaf;
    if text == [] {
      NoBits(nodes, idx);
    } else {
      FirstByte(nodes, idx, text);
      ReadyTail(nodes, idx, text);
      DecodeAllBits(nodes, idx, text[1..]);
      if text[0] != 255 {
        LetterBack(nodes, idx, text);
        assert Unmarked(text) <==> Unmarked(text[1..]) by {
          assert forall k :: 0 <= k < |text| - 1 ==> text[1..][k] == text[k + 1];
        }
        assert text == [text[0]] + text[1..];
      }
    }
  }

  lemma NoBits(nodes: seq<Node>, idx: map<int, nat>)
    requires Ready(nodes, idx, [])
    ensures AllBits(nodes, idx, []) == []
  {}

  lemma LetterBack(nodes: seq<Node>, idx: map<int, nat>, text: seq<Byte>)
    requires Ready(nodes, idx, text) && text != []
    ensures ToChar(text[0]) in idx && idx[ToChar(text[0])] < |nodes|
    ensures ToByte(nodes[idx[ToChar(text[0])]].letter) == text[0]
  {}

  /** A single letter has the empty code, and nothing comes back. */
  lemma {:induction false} SingleLetter(nodes: seq<Node>, idx: map<int, nat>, text: seq<Byte>)
    requires Ready(nodes, idx, text) && |nodes| == 1 && IsRoot(nodes, 0)
    ensures AllBits(nodes, idx, text) == []
  {
    if text != [] {
      ReadyTail(nodes, idx, text);
      SingleLetter(nodes, idx, text[1..]);
    }
  }

  // ----- integers and nodes in a file, lowest byte first

  const INT_MAX: int := 0x7fff_ffff

  ghost predicate IsInt(x: int) {
    -0x8000_0000 <= x <= INT_MAX
  }

  function IntBytes(x: int): (b: seq<Byte>)
    ensures |b| == 4
  {
    [x % 256, x / 256 % 256, x / 256 / 256 % 256, x / 256 / 256 / 256 % 256]
  }

  function IntFrom(b: seq<Byte>): int
    requires |b| >= 4
  {
    var u := b[0] as int + 256 * (b[1] as int) + 65536 * (b[2] as int) + 16777216 * (b[3] as int);
    if u >= 0x8000_0000 then u - 0x1_0000_0000 else u
  }

  lemma IntRoundTrip(x: int, more: seq<Byte>)
    requires IsInt(x)
    ensures IntFrom(IntBytes(x) + more) == x
  {
    var q := x / 256;
    var r := q / 256;
    var s := r / 256;
    assert x == 256 * q + x % 256 && q == 256 * r + q % 256 && r == 256 * s + r % 256 && -128 <= s < 128;
    assert s % 256 == if s < 0 then s + 256 else s;
  }

  function NodeBytes(x: Node): (b: seq<Byte>)
    ensures |b| == 20
  {
    IntBytes(x.letter) + IntBytes(x.count) + IntBytes(x.parent) + IntBytes(x.left) + IntBytes(x.right)
  }

  function NodeFrom(b: seq<Byte>): Node
    requires |b| >= 20
  {
    Node(IntFrom(b), IntFrom(b[4..]), IntFrom(b[8..]), IntFrom(b[12..]), IntFrom(b[16..]))
  }

  ghost predicate NodeFits(x: Node) {
    IsInt(x.letter) && IsInt(x.count) && IsInt(x.parent) && IsInt(x.left) && IsInt(x.right)
  }

  lemma NodeRoundTrip(x: Node, more: seq<Byte>)
    requires NodeFits(x)
    ensures NodeFrom(NodeBytes(x) + more) == x
  {
    hide IntBytes, IntFrom;
    var b := NodeBytes(x) + more;
    var e := IntBytes(x.right) + more;
    var d := IntBytes(x.left) + e;
    var c := IntBytes(x.parent) + d;
    var a := IntBytes(x.count) + c;
    assert b == IntBytes(x.letter) + a && b[4..] == a && b[8..] == c && b[12..] == d && b[16..] == e;
    IntRoundTrip(x.letter, a);
    IntRoundTrip(x.count, c);
    IntRoundTrip(x.parent, d);
    IntRoundTrip(x.left, e);
    IntRoundTrip(x.right, more);
  }

  // ----- the length of the coded text

  /** Sum of a value per letter over a text, and over counted letters. */
  ghost function TextSum(text: seq<Byte>, value: map<int, nat>): nat
    requires forall k :: 0 <= k < |text| ==> ToChar(text[k]) in value
  {
    if text == [] then 0 else TextSum(text[..|text| - 1], value) + value[ToChar(text[|text| - 1])]
  }

  ghost function CountedSum(letters: seq<(int, nat)>, value: map<int, nat>): nat
    requires forall k :: 0 <= k < |letters| ==> letters[k].0 in value
  {
    if letters == [] then 0 else letters[0].1 * value[letters[0].0] + CountedSum(letters[1..], value)
  }

  ghost function CountOf(text: seq<Byte>, c: int): nat {
    if text == [] then 0 else CountOf(text[..|text| - 1], c) + if ToChar(text[|text| - 1]) == c then 1 else 0
  }

  /** The letters are distinct and come with their numbers of occurrences. */
  ghost predicate Counted(letters: seq<(int, nat)>, text: seq<Byte>) {
    && (forall k :: 0 <= k < |letters| ==> letters[k].1 == CountOf(text, letters[k].0))
    && (forall i, j :: 0 <= i < j < |letters| ==> letters[i].0 < letters[j].0)
  }

  ghost predicate Valued(letters: seq<(int, nat)>, value: map<int, nat>) {
    forall k :: 0 <= k < |letters| ==> letters[k].0 in value
  }

  ghost predicate TextValued(text: seq<Byte>, value: map<int, nat>) {
    forall k :: 0 <= k < |text| ==> ToChar(text[k]) in value
  }

  lemma {:induction false} CountedSumAppend(a: seq<(int, nat)>, b: seq<(int, nat)>, value: map<int, nat>)
    requires Valued(a, value) && Valued(b, value)
    ensures Valued(a + b, value) && CountedSum(a + b, value) == CountedSum(a, value) + CountedSum(b, value)
  {
    if a == [] {
      assert a + b == b;
    } else {
      assert (a + b)[1..] == a[1..] + b;
      CountedSumAppend(a[1..], b, value);
    }
  }

  lemma {:induction false} CountedSumTakeOut(b: seq<(int, nat)>, k: nat, value: map<int, nat>)
    requires Valued(b, value) && k < |b|
    ensures Valued(b[..k] + b[k + 1..], value)
    ensures CountedSum(b, value) == b[k].1 * value[b[k].0] + CountedSum(b[..k] + b[k + 1..], value)
  {
    var rest := b[..k] + b[k + 1..];
    if k == 0 {
      assert rest == b[1..];
    } else {
      assert rest[1..] == b[1..][..k - 1] + b[1..][k..];
      CountedSumTakeOut(b[1..], k - 1, value);
    }
  }

  lemma {:induction false} CountedSumOfPermutation(a: seq<(int, nat)>, b: seq<(int, nat)>, value: map<int, nat>)
    requires Valued(a, value) && Valued(b, value) && multiset(a) == multiset(b)
    ensures CountedSum(a, value) == CountedSum(b, value)
  {
    if a == [] {
      assert |multiset(b)| == |b|;
    } else {
      var k := HeadInPermutation(a, b);
      CountedSumTakeOut(b, k, value);
      CountedSumOfPermutation(a[1..], b[..k] + b[k + 1..], value);
    }
  }

  /** As `CountedSum`, with the counts taken from the text. */
  ghost function KeySum(letters: seq<(int, nat)>, text: seq<Byte>, value: map<int, nat>): nat
    requires Valued(letters, value)
  {
    if letters == [] then 0
    else CountOf(text, letters[0].0) * value[letters[0].0] + KeySum(letters[1..], text, value)
  }

  lemma {:induction false} KeySumIsCountedSum(letters: seq<(int, nat)>, text: seq<Byte>, value: map<int, nat>)
    requires Valued(letters, value) && Counted(letters, text)
    ensures KeySum(letters, text, value) == CountedSum(letters, value)
  {
    hide CountOf;
    if letters != [] { KeySumIsCountedSum(letters[1..], text, value); }
  }

  /** One byte more adds the value of its letter, if that is among the letters. */
  lemma {:induction false} KeySumStep(letters: seq<(int, nat)>, text: seq<Byte>, b: Byte, value: map<int, nat>)
    requires Valued(letters, value) && forall i, j :: 0 <= i < j < |letters| ==> letters[i].0 < letters[j].0
    ensures (forall k :: 0 <= k < |letters| ==> letters[k].0 != ToChar(b)) ==>
              KeySum(letters, text + [b], value) == KeySum(letters, text, value)
    ensures (exists k :: 0 <= k < |letters| && letters[k].0 == ToChar(b)) ==>
              ToChar(b) in value && KeySum(letters, text + [b], value) == KeySum(letters, text,
                value) + value[ToChar(b)]
  {
    hide CountOf, ToChar;
    if letters != [] {
      var c := letters[0].0;
      CountSnoc(text, b, c);
      assert (CountOf(text, c) + 1) * value[c] == CountOf(text, c) * value[c] + value[c];
      KeySumStep(letters[1..], text, b, value);
      assert forall k :: 1 <= k < |letters| ==> letters[1..][k - 1] == letters[k];
    }
  }

  lemma CountSnoc(text: seq<Byte>, b: Byte, c: int)
    ensures CountOf(text + [b], c) == CountOf(text, c) + if ToChar(b) == c then 1 else 0
  {
    var more := text + [b];
    assert more[..|more| - 1] == text;
  }

  ghost predicate Listed(letters: seq<(int, nat)>, text: seq<Byte>) {
    forall k :: 0 <= k < |text| ==> exists j :: 0 <= j < |letters| && letters[j].0 == ToChar(text[k])
  }

  lemma {:induction false} KeySumIsTextSum(letters: seq<(int, nat)>, text: seq<Byte>, value: map<int, nat>)
    requires Valued(letters, value) && TextValued(text, value) && Listed(letters, text)
    requires forall i, j :: 0 <= i < j < |letters| ==> letters[i].0 < letters[j].0
    ensures KeySum(letters, text, value) == TextSum(text, value)
  {
    hide KeySum, ToChar;
    if text == [] {
      KeySumOfNothing(letters, value);
    } else {
      var t, b := text[..|text| - 1], text[|text| - 1];
      assert text == t + [b];
      KeySumIsTextSum(letters, t, value);
      KeySumStep(letters, t, b, value);
    }
  }

  lemma {:induction false} KeySumOfNothing(letters: seq<(int, nat)>, value: map<int, nat>)
    requires Valued(letters, value)
    ensures KeySum(letters, [], value) == 0
  {
    if letters != [] { KeySumOfNothing(letters[1..], value); }
  }

  /** Each leaf is where the index says, and `value` is the length of its code. */
  ghost predicate CodeLengths(nodes: seq<Node>, idx: map<int, nat>, value: map<int, nat>)
    requires Linked(nodes)
  {
    forall i: nat :: i < |nodes| && IsLeaf(nodes[i]) ==>
      nodes[i].letter in idx && idx[nodes[i].letter] == i && nodes[i].letter in value
        && value[nodes[i].letter] == |CodeOf(nodes, i)|
  }

  lemma LeafCost(nodes: seq<Node>, idx: map<int, nat>, value: map<int, nat>, i: nat)
    requires Linked(nodes) && i < |nodes| && CodeLengths(nodes, idx, value) && IsLeaf(nodes[i])
    ensures Valued(Letters(TreeOf(nodes, i)), value)
    ensures Cost(TreeOf(nodes, i), |CodeOf(nodes, i)|) == CountedSum(Letters(TreeOf(nodes, i)), value)
  {
    hide Linked, CodeOf;
    assert Letters(TreeOf(nodes, i))[1..] == [];
  }

  lemma ChildrenOf(nodes: seq<Node>, i: nat)
    requires Linked(nodes) && i < |nodes| && !IsLeaf(nodes[i])
    ensures 0 <= nodes[i].left < i && 0 <= nodes[i].right < i
    ensures TreeOf(nodes, i) == Branch(TreeOf(nodes, nodes[i].left), TreeOf(nodes, nodes[i].right))
    ensures |CodeOf(nodes, nodes[i].left)| == |CodeOf(nodes, nodes[i].right)| == |CodeOf(nodes, i)| + 1
  {
    LinkedHere(nodes, i);
    LinkedHere(nodes, nodes[i].left);
    LinkedHere(nodes, nodes[i].right);
  }

  /** The weighted path length of the tree is the sum of the code lengths over the counts. */
  lemma {:induction false} CostIsCountedSum(nodes: seq<Node>, idx: map<int, nat>, value: map<int, nat>, i: nat)
    requires Linked(nodes) && i < |nodes| && CodeLengths(nodes, idx, value)
    ensures Valued(Letters(TreeOf(nodes, i)), value)
    ensures Cost(TreeOf(nodes, i), |CodeOf(nodes, i)|) == CountedSum(Letters(TreeOf(nodes, i)), value)
  {
    hide Linked, CodeOf, TreeOf, CodeLengths, CountedSum, Valued;
    if IsLeaf(nodes[i]) {
      LeafCost(nodes, idx, value, i);
    } else {
      ChildrenOf(nodes, i);
      var l, r := nodes[i].left, nodes[i].right;
      CostIsCountedSum(nodes, idx, value, l);
      CostIsCountedSum(nodes, idx, value, r);
      CountedSumAppend(Letters(TreeOf(nodes, l)), Letters(TreeOf(nodes, r)), value);
    }
  }

  lemma {:induction false} AllBitsSnoc(nodes: seq<Node>, idx: map<int, nat>, text: seq<Byte>, b: Byte)
    requires Linked(nodes) && Covered(nodes, idx, text + [b])
    ensures Covered(nodes, idx, text) && ToChar(b) in idx && idx[ToChar(b)] < |nodes|
    ensures AllBits(nodes, idx, text + [b]) == AllBits(nodes, idx, text) + CodeOf(nodes, idx[ToChar(b)])
  {
    hide Linked, CodeOf, ToChar;
    var more := text + [b];
    assert more[|text|] == b;
    assert forall k :: 0 <= k < |text| ==> more[k] == text[k];
    if text == [] {
      assert more[1..] == [];
    } else {
      assert more[1..] == text[1..] + [b];
      AllBitsSnoc(nodes, idx, text[1..], b);
    }
  }

  lemma {:induction false} BitsAreTextSum(nodes: seq<Node>, idx: map<int, nat>, value: map<int, nat>, text: seq<Byte>)
    requires Linked(nodes) && Covered(nodes, idx, text) && TextValued(text, value)
    requires forall k :: 0 <= k < |text| ==> value[ToChar(text[k])] == |CodeOf(nodes, idx[ToChar(text[k])])|
    ensures |AllBits(nodes, idx, text)| == TextSum(text, value)
  {
    hide Linked, CodeOf, AllBits, ToChar;
    if text == [] {
      EmptyBits(nodes, idx);
    } else {
      var t, b := text[..|text| - 1], text[|text| - 1];
      assert text == t + [b];
      AllBitsSnoc(nodes, idx, t, b);
      BitsAreTextSum(nodes, idx, value, t);
    }
  }

  lemma EmptyBits(nodes: seq<Node>, idx: map<int, nat>)
    requires Linked(nodes)
    ensures AllBits(nodes, idx, []) == []
  {}

  // ----- what the encoder works with

  /** The letters of the text, counted, with the finished tree and the index of its leaves. */
  ghost predicate Prepared(text: seq<Byte>, letters: seq<(int, nat)>, nodes: seq<Node>, idx: map<int, nat>) {
    && Finished(letters, nodes) && Counted(letters, text) && Listed(letters, text)
    && (forall k :: 0 <= k < |letters| ==> -128 <= letters[k].0 < 128 && letters[k].0 in idx && idx[letters[k].0] == k)
    && (forall k :: 0 <= k < |letters| ==> letters[k].1 > 0)
    && (forall c :: c in idx ==> exists k :: 0 <= k < |letters| && letters[k].0 == c)
  }

  lemma PreparedIsReady(text: seq<Byte>, letters: seq<(int, nat)>, nodes: seq<Node>, idx: map<int, nat>)
    requires Prepared(text, letters, nodes, idx)
    ensures Ready(nodes, idx, text)
  {
    hide Linked, Counted;
  }

  lemma PreparedLengths(text: seq<Byte>, letters: seq<(int, nat)>, nodes: seq<Node>, idx: map<int, nat>)
      returns (value: map<int, nat>)
    requires Prepared(text, letters, nodes, idx)
    ensures CodeLengths(nodes, idx, value) && Valued(letters, value) && TextValued(text, value)
    ensures Covered(nodes, idx, text)
    ensures forall k :: 0 <= k < |text| ==> value[ToChar(text[k])] == |CodeOf(nodes, idx[ToChar(text[k])])|
  {
    hide Linked, Counted, CodeOf, ToChar;
    PreparedIsReady(text, letters, nodes, idx);
    assert forall c :: c in idx ==> idx[c] < |nodes|;
    value := map c | c in idx :: |CodeOf(nodes, idx[c])|;
  }

  /** The encoder writes as many bits as the weighted path length of its tree, and no tree over
      the same counted letters has a smaller one. */
  lemma FewestBits(text: seq<Byte>, letters: seq<(int, nat)>, nodes: seq<Node>, idx: map<int, nat>)
    requires Prepared(text, letters, nodes, idx)
    ensures Covered(nodes, idx, text) && |AllBits(nodes, idx, text)| == PathLength(TreeOf(nodes, |nodes| - 1))
  {
    hide Linked, TreeOf, CodeLengths, Valued, TextValued, Covered, Listed, CountedSum, KeySum, TextSum, AllBits,
         Letters, LeavesFirst;
    var value := PreparedLengths(text, letters, nodes, idx);
    var t := TreeOf(nodes, |nodes| - 1);
    CostIsCountedSum(nodes, idx, value, |nodes| - 1);
    CountedSumOfPermutation(Letters(t), letters, value);
    KeySumIsCountedSum(letters, text, value);
    KeySumIsTextSum(letters, text, value);
    BitsAreTextSum(nodes, idx, value, text);
  }

  // ----- everything written fits into an int

  lemma {:induction false} WeightIsSum(t: Tree, ones: map<int, nat>)
    requires Valued(Letters(t), ones) && forall c :: c in ones ==> ones[c] == 1
    ensures Weight(t) == CountedSum(Letters(t), ones)
  {
    hide CountedSum, Valued;
    match t
    case Leaf(letter, count) =>
      OneValued(letter, count, ones);
      OneLetterSum(letter, count, ones);
    case Branch(l, r) =>
      ValuedParts(Letters(l), Letters(r), ones);
      WeightIsSum(l, ones);
      WeightIsSum(r, ones);
      CountedSumAppend(Letters(l), Letters(r), ones);
  }

  lemma ValuedParts(a: seq<(int, nat)>, b: seq<(int, nat)>, value: map<int, nat>)
    requires Valued(a + b, value)
    ensures Valued(a, value) && Valued(b, value)
  {
    assert forall k :: 0 <= k < |a| ==> (a + b)[k] == a[k];
    assert forall k :: 0 <= k < |b| ==> (a + b)[|a| + k] == b[k];
  }

  lemma OneValued(letter: int, count: nat, value: map<int, nat>)
    requires Valued([(letter, count)], value)
    ensures letter in value
  {
    assert [(letter, count)][0].0 == letter;
  }

  lemma OneLetterSum(letter: int, count: nat, ones: map<int, nat>)
    requires letter in ones && ones[letter] == 1
    ensures CountedSum([(letter, count)], ones) == count
  {
    assert [(letter, count)][1..] == [];
  }

  lemma {:induction false} OnesSumToLength(text: seq<Byte>, ones: map<int, nat>)
    requires TextValued(text, ones) && forall c :: c in ones ==> ones[c] == 1
    ensures TextSum(text, ones) == |text|
  {
    if text != [] { OnesSumToLength(text[..|text| - 1], ones); }
  }

  lemma {:induction false} CountBelowRoot(nodes: seq<Node>, i: nat)
    requires Linked(nodes) && i < |nodes| && forall k: nat :: k < |nodes| && IsRoot(nodes, k) ==> k == |nodes| - 1
    ensures nodes[i].count <= nodes[|nodes| - 1].count
    decreases |nodes| - i
  {
    hide Linked;
    LinkedHere(nodes, i);
    if !IsRoot(nodes, i) {
      var p := nodes[i].parent;
      LinkedHere(nodes, p);
      LinkedHere(nodes, nodes[p].left);
      LinkedHere(nodes, nodes[p].right);
      CountIsWeight(nodes, nodes[p].left);
      CountIsWeight(nodes, nodes[p].right);
      CountBelowRoot(nodes, p);
    }
  }

  lemma RootCount(text: seq<Byte>, letters: seq<(int, nat)>, nodes: seq<Node>, idx: map<int, nat>)
    requires Prepared(text, letters, nodes, idx)
    ensures nodes[|nodes| - 1].count == |text|
  {
    hide Linked, TreeOf, CodeLengths, CountedSum, KeySum, TextSum, Letters, LeavesFirst, ToChar;
    var value := PreparedLengths(text, letters, nodes, idx);
    var ones: map<int, nat> := map c | c in value :: 1;
    var t := TreeOf(nodes, |nodes| - 1);
    CostIsCountedSum(nodes, idx, value, |nodes| - 1);
    CountIsWeight(nodes, |nodes| - 1);
    WeightIsSum(t, ones);
    CountedSumOfPermutation(Letters(t), letters, ones);
    KeySumIsCountedSum(letters, text, ones);
    KeySumIsTextSum(letters, text, ones);
    OnesSumToLength(text, ones);
  }

  lemma {:induction false} AscendingFrom(letters: seq<(int, nat)>, k: nat)
    requires k < |letters| && letters[0].0 >= -128
    requires forall i, j :: 0 <= i < j < |letters| ==> letters[i].0 < letters[j].0
    ensures letters[k].0 >= -128 + k
  {
    if k > 0 { AscendingFrom(letters, k - 1); }
  }

  ghost predicate AllFit(nodes: seq<Node>) {
    |nodes| <= 511 && forall i :: 0 <= i < |nodes| ==> NodeFits(nodes[i])
  }

  lemma PreparedFits(text: seq<Byte>, letters: seq<(int, nat)>, nodes: seq<Node>, idx: map<int, nat>)
    requires Prepared(text, letters, nodes, idx) && |text| <= INT_MAX
    ensures AllFit(nodes)
  {
    hide Linked, Letters, TreeOf, Listed, CountOf;
    RootCount(text, letters, nodes, idx);
    if |letters| > 0 { AscendingFrom(letters, |letters| - 1); }
    forall i: nat | i < |nodes| ensures NodeFits(nodes[i]) {
      LinkedHere(nodes, i);
      CountBelowRoot(nodes, i);
      CountIsWeight(nodes, i);
    }
  }

  // ----- the file

  ghost function NodesBytes(nodes: seq<Node>): seq<Byte> {
    if nodes == [] then [] else NodeBytes(nodes[0]) + NodesBytes(nodes[1..])
  }

  ghost function NodesFrom(b: seq<Byte>, n: nat): seq<Node>
    requires |b| >= 20 * n
  {
    if n == 0 then [] else [NodeFrom(b)] + NodesFrom(b[20..], n - 1)
  }

  lemma {:induction false} NodesRoundTrip(nodes: seq<Node>, more: seq<Byte>)
    requires forall i :: 0 <= i < |nodes| ==> NodeFits(nodes[i])
    ensures |NodesBytes(nodes)| == 20 * |nodes| && NodesFrom(NodesBytes(nodes) + more, |nodes|) == nodes
  {
    hide NodeFrom, NodeBytes;
    if nodes != [] {
      var rest := NodesBytes(nodes[1..]) + more;
      var b := NodesBytes(nodes) + more;
      assert b == NodeBytes(nodes[0]) + rest;
      assert b[20..] == rest;
      NodeRoundTrip(nodes[0], rest);
      NodesRoundTrip(nodes[1..], more);
    }
  }

  /** nnodes, node array, nbits, bit array. */
  ghost function FileOf(nodes: seq<Node>, nbits: int, packed: seq<Byte>): seq<Byte> {
    IntBytes(|nodes|) + NodesBytes(nodes) + IntBytes(nbits) + packed
  }

  ghost function BitsOf(b: seq<Byte>, n: nat): seq<bool>
    requires n <= 8 * |b|
  {
    seq(n, k requires 0 <= k < n => BitAt(b, k))
  }

  /** Everything the decoder reads: the tree, the number of bits, the bits. */
  ghost function DecodeFile(file: seq<Byte>): Option<seq<Byte>> {
    if |file| < 4 then None
    else
      var n := IntFrom(file);
      if n < 0 || |file| < 8 + 20 * n then None
      else
        var nodes, nbits, packed := NodesFrom(file[4..], n), IntFrom(file[4 + 20 * n..]), file[8 + 20 * n..];
        if nbits <= 0 then Some([])
        else if nbits > 8 * |packed| then None
        else DecodeAll(nodes, BitsOf(packed, nbits))
  }

  lemma ReadBack(nodes: seq<Node>, nbits: int, packed: seq<Byte>)
    requires AllFit(nodes) && IsInt(nbits)
    ensures var file, n := FileOf(nodes, nbits, packed), |nodes|;
            && |file| == 8 + 20 * n + |packed| && IntFrom(file) == n && NodesFrom(file[4..], n) == nodes
            && IntFrom(file[4 + 20 * n..]) == nbits && file[8 + 20 * n..] == packed
  {
    hide IntBytes, IntFrom, NodesBytes, NodesFrom, NodeFits;
    var n := |nodes|;
    var tail := IntBytes(nbits) + packed;
    var file := FileOf(nodes, nbits, packed);
    NodesRoundTrip(nodes, tail);
    assert file == IntBytes(n) + (NodesBytes(nodes) + tail);
    IntRoundTrip(n, NodesBytes(nodes) + tail);
    assert file[4..] == NodesBytes(nodes) + tail;
    assert file[4 + 20 * n..] == tail;
    IntRoundTrip(nbits, packed);
    assert file[8 + 20 * n..] == packed;
  }

  /** There are two different bytes in the text. */
  ghost predicate TwoLetters(text: seq<Byte>) {
    exists i, j :: 0 <= i < j < |text| && text[i] != text[j]
  }

  lemma {:induction false} Occurrence(text: seq<Byte>, c: int) returns (k: nat)
    requires CountOf(text, c) > 0
    ensures k < |text| && ToChar(text[k]) == c
  {
    if ToChar(text[|text| - 1]) == c {
      k := |text| - 1;
    } else {
      k := Occurrence(text[..|text| - 1], c);
    }
  }

  lemma TwoLettersInTree(text: seq<Byte>, letters: seq<(int, nat)>, nodes: seq<Node>, idx: map<int, nat>)
    requires Prepared(text, letters, nodes, idx)
    ensures TwoLetters(text) <==> !IsLeaf(nodes[|nodes| - 1])
    ensures IsLeaf(nodes[|nodes| - 1]) ==> |nodes| == 1 && IsRoot(nodes, 0)
  {
    hide Linked, Letters, TreeOf, CountOf;
    if |letters| >= 2 {
      assert letters[0].0 < letters[1].0;
      var i := Occurrence(text, letters[0].0);
      var j := Occurrence(text, letters[1].0);
      if i < j { assert text[i] != text[j]; } else { assert text[j] != text[i]; }
    }
    if i, j :| 0 <= i < j < |text| && text[i] != text[j] {
      var a :| 0 <= a < |letters| && letters[a].0 == ToChar(text[i]);
      var b :| 0 <= b < |letters| && letters[b].0 == ToChar(text[j]);
      assert a != b;
    }
  }

  lemma BitsBack(packed: seq<Byte>, bits: seq<bool>)
    requires Packs(packed, bits)
    ensures |bits| <= 8 * |packed| && BitsOf(packed, |bits|) == bits
  {
    hide BitAt;
    forall k: nat | k < |bits| ensures BitsOf(packed, |bits|)[k] == bits[k] { assert BitAt(packed, 0 + k) == bits[k]; }
  }

  /** The round trip through a file: the text comes back exactly if it has two different bytes
      and none of them is 255. */
  lemma FileRoundTrip(text: seq<Byte>, letters: seq<(int, nat)>, nodes: seq<Node>, idx: map<int, nat>,
                      packed: seq<Byte>)
    requires Prepared(text, letters, nodes, idx) && text != [] && |text| <= INT_MAX
    requires Covered(nodes, idx, text) && |AllBits(nodes, idx, text)| <= INT_MAX
    requires Packs(packed, AllBits(nodes, idx, text))
    ensures DecodeFile(FileOf(nodes, |AllBits(nodes, idx, text)|, packed)) == Some(text)
       <==> TwoLetters(text) && Unmarked(text)
  {
    hide Linked, Prepared, Ready, Covered, AllBits, FileOf, NodesFrom, IntFrom, BitsOf, DecodeAll, Packs, IsLeaf,
         IsRoot,
         TwoLetters, Unmarked, AllFit;
    PreparedRoot(text, letters, nodes, idx);
    var bits := AllBits(nodes, idx, text);
    PreparedFits(text, letters, nodes, idx);
    PreparedIsReady(text, letters, nodes, idx);
    TwoLettersInTree(text, letters, nodes, idx);
    ReadBack(nodes, |bits|, packed);
    BitsBack(packed, bits);
    if TwoLetters(text) {
      FirstByte(nodes, idx, text);
      DecodeAllBits(nodes, idx, text);
    } else {
      SingleLetter(nodes, idx, text);
    }
  }

  lemma PreparedRoot(text: seq<Byte>, letters: seq<(int, nat)>, nodes: seq<Node>, idx: map<int, nat>)
    requires Prepared(text, letters, nodes, idx)
    ensures nodes != [] && Linked(nodes) && multiset(Letters(TreeOf(nodes, |nodes| - 1))) == multiset(letters)
  {}

  // ----- the encoder

  method CountLetters(text: seq<Byte>) returns (count: map<int, nat>)
    ensures forall c :: c in count ==> -128 <= c < 128 && count[c] == CountOf(text, c) > 0
    ensures forall k :: 0 <= k < |text| ==> ToChar(text[k]) in count
  {
    hide CountOf;
    count := map[];
    CountNone();
    for k := 0 to |text|
      invariant forall c :: CountOf(text[..k], c) == if c in count then count[c] else 0
      invariant forall c :: c in count ==> -128 <= c < 128 && count[c] > 0
      invariant forall l :: 0 <= l < k ==> ToChar(text[l]) in count
    {
      var c := ToChar(text[k]);
      assert text[..k + 1] == text[..k] + [text[k]];
      forall d { CountSnoc(text[..k], text[k], d); }
      count := count[c := (if c in count then count[c] else 0) + 1];
    }
    assert text[..|text|] == text;
  }

  lemma CountNone()
    ensures forall c :: CountOf([], c) == 0
  {}

  ghost function Reversed(s: seq<bool>): seq<bool> {
    if s == [] then [] else [s[|s| - 1]] + Reversed(s[..|s| - 1])
  }

  /** Climbs from a leaf to the root; the code is what was collected, backwards. */
  method Climb(nodes: seq<Node>, leaf: nat) returns (codeVec: seq<bool>)
    requires Linked(nodes) && leaf < |nodes|
    ensures Reversed(codeVec) == CodeOf(nodes, leaf)
  {
    hide Linked, CodeOf, Reversed;
    codeVec := [];
    var i := leaf;
    LinkedHere(nodes, i);
    assert CodeOf(nodes, i) + Reversed([]) == CodeOf(nodes, i) by { ReversedNil(); }
    while nodes[i].parent != i
      invariant i < |nodes| && LinkedAt(nodes, i)
      invariant CodeOf(nodes, leaf) == CodeOf(nodes, i) + Reversed(codeVec)
      decreases |nodes| - i
    {
      var parent := nodes[i].parent;
      var bit := nodes[parent].left != i;
      CodeStep(nodes, i);
      ReversedSnoc(codeVec, bit);
      assert CodeOf(nodes, parent) + [bit] + Reversed(codeVec) == CodeOf(nodes, parent) + ([bit] + Reversed(codeVec));
      codeVec := codeVec + [bit];
      i := parent;
      LinkedHere(nodes, i);
    }
    CodeStep(nodes, i);
  }

  lemma CodeStep(nodes: seq<Node>, i: nat)
    requires Linked(nodes) && i < |nodes|
    ensures IsRoot(nodes, i) ==> CodeOf(nodes, i) == []
    ensures !IsRoot(nodes, i) ==>
              && i < nodes[i].parent < |nodes|
              && CodeOf(nodes, i) == CodeOf(nodes, nodes[i].parent) + [nodes[nodes[i].parent].left != i]
  {
    LinkedHere(nodes, i);
  }

  lemma ReversedNil()
    ensures Reversed([]) == []
  {}

  lemma ReversedSnoc(s: seq<bool>, b: bool)
    ensures Reversed(s + [b]) == [b] + Reversed(s)
  {
    assert (s + [b])[..|s|] == s;
  }

  /** What has been written behind `start`, and what waits in the buffer, is `bits`. */
  ghost predicate Written(file: seq<Byte>, start: nat, done: seq<bool>, waiting: seq<bool>, bits: seq<bool>,
                          nbits: nat) {
    && start <= |file| && |done| % 8 == 0 && Packs(file[start..], done) && nbits == |done| && done + waiting == bits
  }

  lemma WriteOut(file: seq<Byte>, start: nat, done: seq<bool>, waiting: seq<bool>, bits: seq<bool>, nbits: nat,
                 file': seq<Byte>)
    requires Written(file, start, done, waiting, bits, nbits) && file <= file' && Packs(file'[|file|..], waiting)
    ensures Packs(file'[start..], bits)
    ensures |waiting| % 8 == 0 ==> Written(file', start, bits, [], bits, nbits + |waiting|)
  {
    hide Holds;
    PacksAppend(file[start..], done, file'[|file|..], waiting);
    assert file'[start..] == file[start..] + file'[|file|..];
    assert bits + [] == bits;
  }

  /** Adds the bits of one code, last collected first, writing the buffer whenever it is full. */
  method EmitCode(bitvec: BitVec, codeVec: seq<bool>, file: seq<Byte>, start: nat, nbits: nat, ghost done: seq<bool>,
                  ghost bits: seq<bool>)
      returns (file': seq<Byte>, nbits': nat, ghost done': seq<bool>)
    requires bitvec.Valid() && !bitvec.Full() && Written(file, start, done, bitvec.bits, bits, nbits)
    modifies bitvec, bitvec.vec
    ensures bitvec.Valid() && !bitvec.Full() && |file| <= |file'| && file'[..start] == file[..start]
    ensures Written(file', start, done', bitvec.bits, bits + Reversed(codeVec), nbits')
  {
    file', nbits', done' := file, nbits, done;
    var code := codeVec;
    ghost var sofar := bits;
    assert bits + Reversed(codeVec) == sofar + Reversed(code);
    while code != []
      invariant bitvec.Valid() && !bitvec.Full() && |file| <= |file'| && file'[..start] == file[..start]
      invariant Written(file', start, done', bitvec.bits, sofar, nbits')
      invariant sofar + Reversed(code) == bits + Reversed(codeVec)
      decreases |code|
    {
      hide Packs, Reversed;
      var b := code[|code| - 1];
      ghost var rest := code[..|code| - 1];
      ReversedStep(code);
      bitvec.Add(b);
      WaitOne(file', start, done', bitvec.bits[..|bitvec.bits| - 1], b, sofar, nbits');
      assert sofar + [b] + Reversed(rest) == sofar + ([b] + Reversed(rest));
      code, sofar := code[..|code| - 1], sofar + [b];
      if bitvec.Full() {
        ghost var before, waiting := file', bitvec.bits;
        var n;
        file', n := bitvec.Output(file');
        WriteOut(before, start, done', waiting, sofar, nbits', file');
        assert file'[..start] == before[..start];
        nbits', done' := nbits' + n, sofar;
      }
    }
    assert sofar + Reversed([]) == sofar;
  }

  lemma ReversedStep(code: seq<bool>)
    requires code != []
    ensures Reversed(code) == [code[|code| - 1]] + Reversed(code[..|code| - 1])
  {}

  lemma WaitOne(file: seq<Byte>, start: nat, done: seq<bool>, waiting: seq<bool>, b: bool, bits: seq<bool>, nbits: nat)
    requires Written(file, start, done, waiting, bits, nbits)
    ensures Written(file, start, done, waiting + [b], bits + [b], nbits)
  {
    hide Packs;
    assert done + waiting + [b] == done + (waiting + [b]);
  }

  /** Appends the codes of the whole text to the file and counts the bits. */
  method EncodeLetters(text: seq<Byte>, nodes: seq<Node>, idx: map<int, nat>, file: seq<Byte>)
      returns (file': seq<Byte>, nbits: nat)
    requires Linked(nodes) && Covered(nodes, idx, text)
    ensures file <= file' && Packs(file'[|file|..], AllBits(nodes, idx, text)) && nbits == |AllBits(nodes, idx, text)|
  {
    hide Linked, AllBits, CodeOf, Packs, Holds, Reversed, ToChar;
    var bitvec := new BitVec();
    file', nbits := file, 0;
    ghost var done: seq<bool> := [];
    EmptyBits(nodes, idx);
    NothingWritten(file);
    assert text[..0] == [];
    for k := 0 to |text|
      invariant bitvec.Valid() && !bitvec.Full() && fresh(bitvec) && fresh(bitvec.vec)
      invariant |file| <= |file'| && file'[..|file|] == file && Covered(nodes, idx, text[..k])
      invariant Written(file', |file|, done, bitvec.bits, AllBits(nodes, idx, text[..k]), nbits)
    {
      assert text[..k + 1] == text[..k] + [text[k]];
      AllBitsSnoc(nodes, idx, text[..k], text[k]);
      var codeVec := Climb(nodes, idx[ToChar(text[k])]);
      file', nbits, done := EmitCode(bitvec, codeVec, file', |file|, nbits, done, AllBits(nodes, idx, text[..k]));
    }
    assert text[..|text|] == text;
    ghost var before, waiting := file', bitvec.bits;
    var n;
    file', n := bitvec.Output(file');
    WriteOut(before, |file|, done, waiting, AllBits(nodes, idx, text), nbits, file');
    assert file'[..|file|] == before[..|file|] == file;
    nbits := nbits + n;
  }

  lemma NothingWritten(file: seq<Byte>)
    ensures Written(file, |file|, [], [], [], 0) && file[..|file|] == file
  {}

  method OutputTree(nodes: seq<Node>) returns (file: seq<Byte>)
    ensures file == IntBytes(|nodes|) + NodesBytes(nodes)
  {
    hide IntBytes, NodeBytes;
    file := IntBytes(|nodes|);
    for i := 0 to |nodes|
      invariant file == IntBytes(|nodes|) + NodesBytes(nodes[..i])
    {
      assert nodes[..i + 1] == nodes[..i] + [nodes[i]];
      NodesBytesSnoc(nodes[..i], nodes[i]);
      file := file + NodeBytes(nodes[i]);
    }
    assert nodes[..|nodes|] == nodes;
  }

  lemma {:induction false} NodesBytesSnoc(nodes: seq<Node>, x: Node)
    ensures NodesBytes(nodes + [x]) == NodesBytes(nodes) + NodeBytes(x)
  {
    hide NodeBytes;
    if nodes == [] {
      assert (nodes + [x])[1..] == [];
    } else {
      assert (nodes + [x])[1..] == nodes[1..] + [x];
      NodesBytesSnoc(nodes[1..], x);
    }
  }

  lemma CountsArePrepared(text: seq<Byte>, count: map<int, nat>, letters: seq<(int, nat)>, nodes: seq<Node>,
                          idx: map<int, nat>)
    requires forall c :: c in count ==> -128 <= c < 128 && count[c] == CountOf(text, c) > 0
    requires forall k :: 0 <= k < |text| ==> ToChar(text[k]) in count
    requires forall c, n :: (c, n) in letters <==> c in count && count[c] == n
    requires forall i, j :: 0 <= i < j < |letters| ==> letters[i].0 < letters[j].0
    requires forall c :: c in idx <==> c in count
    requires forall i :: 0 <= i < |letters| ==> letters[i].0 in idx && idx[letters[i].0] == i
    requires Finished(letters, nodes)
    ensures Prepared(text, letters, nodes, idx)
  {
    hide Finished, CountOf, ToChar;
    forall k | 0 <= k < |letters| ensures letters[k].0 in count && letters[k].1 == count[letters[k].0] {
      assert (letters[k].0, letters[k].1) in letters;
    }
    forall c | c in count ensures exists k :: 0 <= k < |letters| && letters[k].0 == c {
      assert (c, count[c]) in letters;
    }
  }

  /** Codes a text. The program gives up on the empty text (its check on the heap fails). */
  method Encode(text: seq<Byte>)
      returns (ok: bool, file: seq<Byte>, nbits: nat, ghost letters: seq<(int, nat)>, ghost tree: Tree)
    requires |text| <= INT_MAX
    ensures ok <==> text != []
    ensures ok ==> Counted(letters, text) && Listed(letters, text) && multiset(Letters(tree)) == multiset(letters)
    ensures ok ==> nbits == PathLength(tree) && Cheapest(tree)
    ensures ok && nbits <= INT_MAX ==> (DecodeFile(file) == Some(text) <==> TwoLetters(text) && Unmarked(text))
  {
    hide Counted, Listed, Finished, Cheapest, Covered, AllBits, Packs, CountOf, ToChar, DecodeFile, TwoLetters,
         Unmarked,
         PathLength, Letters, TreeOf, IntBytes, NodesBytes;
    var count := CountLetters(text);
    var encoder := new HuffmanEncoder(count);
    letters := encoder.BuildTree();
    var nodes, idx := encoder.nodeVec, encoder.nodeIdx;
    CountsEmpty(text, count);
    if |encoder.minHeap| != 1 {
      ok, file, nbits, tree := false, [], 0, Leaf(0, 0);
      return;
    }
    CountsArePrepared(text, count, letters, nodes, idx);
    PreparedRoot(text, letters, nodes, idx);
    FewestBits(text, letters, nodes, idx);
    ok, tree := true, TreeOf(nodes, |nodes| - 1);
    file := OutputTree(nodes);
    var offset := |file|;
    file := file + [0, 0, 0, 0];
    file, nbits := EncodeLetters(text, nodes, idx, file);
    ghost var packed := file[offset + 4..];
    file := file[..offset] + IntBytes(nbits) + file[offset + 4..];
    assert file == FileOf(nodes, nbits, packed);
    if nbits <= INT_MAX { FileRoundTrip(text, letters, nodes, idx, packed); }
  }

  lemma CountsEmpty(text: seq<Byte>, count: map<int, nat>)
    requires forall c :: c in count ==> count[c] == CountOf(text, c) > 0
    requires forall k :: 0 <= k < |text| ==> ToChar(text[k]) in count
    ensures count == map[] <==> text == []
  {
    if text == [] {
      CountNone();
      assert forall c :: c !in count;
      assert count == map[];
    } else {
      assert ToChar(text[0]) in count;
    }
  }

  // ----- the decoder

  /** Walks down to a leaf, bit by bit. */
  method ReadLetter(nodes: seq<Node>, stream: BitStream) returns (ok: bool, leaf: nat)
    requires stream.Valid()
    modifies stream, stream.buf
    ensures ok ==> stream.Valid() && Descend(nodes, |nodes| - 1, old(stream.bits)) == Reached(leaf, stream.bits)
    ensures !ok ==> Descend(nodes, |nodes| - 1, old(stream.bits)).Stuck?
  {
    var curr := |nodes| - 1;
    ghost var start := stream.bits;
    while true
      invariant stream.Valid() && Descend(nodes, |nodes| - 1, start) == Descend(nodes, curr, stream.bits)
      decreases |stream.bits|
    {
      if !(0 <= curr < |nodes|) { return false, 0; }
      if nodes[curr].letter != COMPOUND { return true, curr; }
      if stream.Empty() { return false, 0; }
      ghost var bits := stream.bits;
      var bit := stream.Get();
      curr := if !bit then nodes[curr].left else nodes[curr].right;
    }
  }

  /** Decodes a file; `None` when the run gets stuck or would print for ever. */
  method Decode(file: seq<Byte>) returns (text: Option<seq<Byte>>)
    ensures text == DecodeFile(file)
  {
    if |file| < 4 { return None; }
    var n := IntFrom(file);
    if n < 0 || |file| < 8 + 20 * n { return None; }
    var nodes := ReadNodes(file[4..], n);
    var nbits := IntFrom(file[4 + 20 * n..]);
    var packed := file[8 + 20 * n..];
    if nbits <= 0 { return Some([]); }
    if nbits > 8 * |packed| { return None; }
    BitsHeld(packed, nbits);
    var stream := new BitStream(packed, nbits, BitsOf(packed, nbits));
    text := ReadText(nodes, stream);
  }

  lemma BitsHeld(packed: seq<Byte>, n: nat)
    requires n <= 8 * |packed|
    ensures Holds(packed, 0, BitsOf(packed, n))
  {
    hide BitAt;
    assert forall k: nat :: k < n ==> BitsOf(packed, n)[k] == BitAt(packed, 0 + k);
  }

  method ReadNodes(b: seq<Byte>, n: nat) returns (nodes: seq<Node>)
    requires |b| >= 20 * n
    ensures nodes == NodesFrom(b, n)
  {
    hide NodeFrom, NodesFrom;
    nodes := [];
    assert b[0..] == b && [] + NodesFrom(b, n) == NodesFrom(b, n);
    for i := 0 to n
      invariant nodes + NodesFrom(b[20 * i..], n - i) == NodesFrom(b, n)
    {
      NodesFromStep(b, i, n);
      var x := NodeFrom(b[20 * i..]);
      assert nodes + ([x] + NodesFrom(b[20 * (i + 1)..], n - i - 1)) == nodes + [x] + NodesFrom(b[20 * (i + 1)..],
        n - i - 1);
      nodes := nodes + [x];
    }
    NoNodesLeft(b[20 * n..]);
  }

  lemma NoNodesLeft(b: seq<Byte>)
    ensures NodesFrom(b, 0) == []
  {}

  lemma NodesFromStep(b: seq<Byte>, i: nat, n: nat)
    requires i < n && |b| >= 20 * n
    ensures NodesFrom(b[20 * i..], n - i) == [NodeFrom(b[20 * i..])] + NodesFrom(b[20 * (i + 1)..], n - i - 1)
  {
    hide NodeFrom;
    assert b[20 * i..][20..] == b[20 * (i + 1)..];
  }

  method ReadText(nodes: seq<Node>, stream: BitStream) returns (text: Option<seq<Byte>>)
    requires stream.Valid()
    modifies stream, stream.buf
    ensures text == DecodeAll(nodes, old(stream.bits))
  {
    hide Descend, ToByte, Prepend;
    var out := [];
    ghost var all := DecodeAll(nodes, stream.bits);
    PrependNil(all);
    while !stream.Empty()
      invariant stream.Valid()
      invariant all == Prepend(out, DecodeAll(nodes, stream.bits))
      decreases |stream.bits|
    {
      var before := stream.remainBits;
      ghost var bits := stream.bits;
      PrependNone(out);
      var ok, leaf := ReadLetter(nodes, stream);
      if !ok || stream.remainBits >= before { return None; }
      PrependSnoc(out, ToByte(nodes[leaf].letter), DecodeAll(nodes, stream.bits));
      out := out + [ToByte(nodes[leaf].letter)];
    }
    PrependEnd(out);
    text := Some(out);
  }

  ghost function Prepend(a: seq<Byte>, b: Option<seq<Byte>>): Option<seq<Byte>> {
    if b.None? then None else Some(a + b.value)
  }

  lemma PrependNil(b: Option<seq<Byte>>)
    ensures Prepend([], b) == b
  {
    if b.Some? { assert [] + b.value == b.value; }
  }

  lemma PrependNone(a: seq<Byte>)
    ensures Prepend(a, None) == None
  {}

  lemma PrependEnd(a: seq<Byte>)
    ensures Prepend(a, Some([])) == Some(a)
  {
    assert a + [] == a;
  }

  lemma PrependSnoc(a: seq<Byte>, x: Byte, b: Option<seq<Byte>>)
    ensures Prepend(a + [x], b) == Prepend(a, if b.None? then None else Some([x] + b.value))
  {
    if b.Some? { assert a + [x] + b.value == a + ([x] + b.value); }
  }
}
