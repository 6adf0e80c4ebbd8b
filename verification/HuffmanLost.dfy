/** Two texts that do not come back: one with a single letter, and one with the byte 255. */
module HuffmanLost {
  import opened Options
  import opened HuffmanOptimality
  import opened HuffmanTree
  import opened HuffmanBits
  import opened HuffmanCodec

  // ----- one letter has an empty code

  const SEVENS: seq<Byte> := [7, 7]
  const ONE := [Node(7, 2, 0, -1, -1)]

  lemma OneLinked()
    ensures Linked(ONE) && TreeOf(ONE, 0) == Leaf(7, 2) && CodeOf(ONE, 0) == []
  {
    assert LinkedAt(ONE, 0);
  }

  lemma SevensCounted(c: int)
    ensures CountOf(SEVENS, c) == if c == 7 then 2 else 0
  {
    assert SEVENS[..1] == [7] && SEVENS[..1][..0] == [];
    assert CountOf(SEVENS[..1], c) == if c == 7 then 1 else 0;
  }

  lemma OnePrepared()
    ensures Prepared(SEVENS, [(7, 2)], ONE, map[7 := 0]) && Covered(ONE, map[7 := 0], SEVENS)
    ensures Linked(ONE) && AllBits(ONE, map[7 := 0], SEVENS) == []
  {
    hide CountOf, TreeOf, CodeOf, Linked;
    OneLinked();
    SevensCounted(7);
    var letters: seq<(int, nat)> := [(7, 2)];
    assert letters[0].0 == 7;
    assert SEVENS[1..] == [7] && SEVENS[1..][1..] == [];
    assert AllBits(ONE, map[7 := 0], SEVENS[1..]) == [];
  }

  /** The file for 7, 7 has no bits, and the decoder prints nothing. */
  lemma OneLetterIsLost()
    ensures Prepared(SEVENS, [(7, 2)], ONE, map[7 := 0]) && Packs([], [])
    ensures DecodeFile(FileOf(ONE, 0, [])) == Some([])
  {
    hide Prepared, FileOf, NodesFrom, IntFrom, DecodeAll;
    OnePrepared();
    PreparedFits(SEVENS, [(7, 2)], ONE, map[7 := 0]);
    ReadBack(ONE, 0, []);
  }

  // ----- the letter -1 looks like a compound node

  const MARKED: seq<Byte> := [255, 0]
  const TWO := [Node(-1, 1, 2, -1, -1), Node(0, 1, 2, -1, -1), Node(-1, 2, 2, 0, 1)]
  const INDEX: map<int, nat> := map[-1 := 0, 0 := 1]

  lemma TwoLinked()
    ensures Linked(TWO) && TreeOf(TWO, 2) == Branch(Leaf(-1, 1), Leaf(0, 1))
    ensures CodeOf(TWO, 0) == [false] && CodeOf(TWO, 1) == [true]
  {
    assert LinkedAt(TWO, 0) && LinkedAt(TWO, 1) && LinkedAt(TWO, 2);
    assert TreeOf(TWO, 0) == Leaf(-1, 1) && TreeOf(TWO, 1) == Leaf(0, 1);
    assert CodeOf(TWO, 2) == [];
  }

  lemma MarkedCounted(c: int)
    ensures CountOf(MARKED, c) == if c == -1 || c == 0 then 1 else 0
  {
    assert MARKED[..1] == [255] && MARKED[..1][..0] == [];
    assert CountOf(MARKED[..1], c) == if c == -1 then 1 else 0;
  }

  lemma TwoFinished()
    ensures Finished([(-1, 1), (0, 1)], TWO)
  {
    hide Linked, TreeOf, CodeOf;
    TwoLinked();
  }

  lemma TwoPrepared()
    ensures Prepared(MARKED, [(-1, 1), (0, 1)], TWO, INDEX)
  {
    hide Finished, CountOf;
    TwoFinished();
    MarkedCounted(-1);
    MarkedCounted(0);
    var letters: seq<(int, nat)> := [(-1, 1), (0, 1)];
    assert letters[0].0 == -1 && letters[1].0 == 0;
  }

  lemma MarkedBits()
    ensures Linked(TWO) && Covered(TWO, INDEX, MARKED) && AllBits(TWO, INDEX, MARKED) == [false, true]
    ensures Packs([2], [false, true])
  {
    TwoLinked();
    assert MARKED[1..] == [0] && MARKED[1..][1..] == [];
    assert AllBits(TWO, INDEX, MARKED[1..]) == [true] + [];
    assert BitOf(2, 1) == BitOf(1, 0) && !BitOf(2, 0);
  }

  /** The file for 255, 0 sends the decoder below a leaf. */
  lemma MarkedByteIsLost()
    ensures Prepared(MARKED, [(-1, 1), (0, 1)], TWO, INDEX) && Packs([2], [false, true])
    ensures DecodeFile(FileOf(TWO, 2, [2])) == None
  {
    hide Prepared, FileOf, NodesFrom, IntFrom, Packs, BitsOf;
    TwoPrepared();
    MarkedBits();
    PreparedFits(MARKED, [(-1, 1), (0, 1)], TWO, INDEX);
    ReadBack(TWO, 2, [2]);
    BitsBack([2], [false, true]);
    assert [false, true][1..] == [true];
    assert Descend(TWO, 2, [false, true]) == Descend(TWO, 0, [true]) == Descend(TWO, -1, [true][1..]) == Stuck;
  }
}
