/** The first-fit allocator inside one page of a disk-based tree (diskbased_bplus_tree/arena.c).

    The page is an array of 4-byte words; an offset is a byte offset, as in the program. Every
    block starts with a two-word list node: its size in 8-byte units and, while it is free, the
    offset of the next free block. */
module Arena {

  const PAGE_SIZE: int := 4096
  const NODE: int := 8                    // sizeof(list_node), the allocation unit
  const HEADER: int := 16                 // sizeof(btree_node): the list head lies right behind it
  const START: int := HEADER + NODE
  const WORDS: nat := 1024

  datatype Block = Block(units: int, free: bool)

  /** The blocks of a page, by offset. */
  type Blocks = map<int, Block>

  ghost function End(b: Blocks, p: int): int
    requires p in b
  {
    p + b[p].units * NODE
  }

  // ----- tilings

  ghost predicate Aligned(p: int) {
    p % NODE == 0
  }

  lemma AlignedShift(p: int, k: int)
    requires Aligned(p)
    ensures Aligned(p + k * NODE)
  {}

  ghost predicate Placed(b: Blocks, p: int)
    requires p in b
  {
    && START <= p && Aligned(p) && 1 <= b[p].units && End(b, p) <= PAGE_SIZE
    && (End(b, p) == PAGE_SIZE || End(b, p) in b)
  }

  /** The blocks cover the whole area behind the list head, without overlap. */
  ghost predicate Tiled(b: Blocks) {
    && START in b
    && (forall p :: p in b ==> Placed(b, p))
    && (forall p, q :: p in b && q in b && p < q ==> End(b, p) <= q)
  }

  /** No free block is followed by a free block. */
  ghost predicate Coalesced(b: Blocks) {
    forall p :: p in b && b[p].free && End(b, p) in b ==> !b[End(b, p)].free
  }

  ghost predicate WellFormed(b: Blocks) {
    Tiled(b) && Coalesced(b)
  }

  ghost function Initial(): Blocks {
    map[START := Block((PAGE_SIZE - START) / NODE, true)]
  }

  /** The blocks handed out and not returned, with their sizes. */
  ghost function Live(b: Blocks): map<int, int> {
    map p | p in b && !b[p].free :: b[p].units
  }

  ghost predicate IsFree(b: Blocks, p: int) {
    p in b && b[p].free
  }

  // ----- the live blocks determine everything else

  lemma SameBlock(b: Blocks, c: Blocks, p: int)
    requires WellFormed(b) && WellFormed(c) && Live(b) == Live(c) && p in b && p in c
    ensures b[p] == c[p]
  {
    if !b[p].free || !c[p].free {
      assert p in Live(b) <==> p in Live(c);
      assert Live(b)[p] == Live(c)[p];
    } else {
      EndNotInside(b, c, p);
      EndNotInside(c, b, p);
    }
  }

  lemma EndNotInside(b: Blocks, c: Blocks, p: int)
    requires WellFormed(b) && WellFormed(c) && Live(b) == Live(c) && IsFree(b, p) && IsFree(c, p)
    ensures End(b, p) >= End(c, p)
  {
    var e := End(b, p);
    assert Placed(b, p) && Placed(c, p);
    if e != PAGE_SIZE {
      assert e in Live(b) && Live(b) == Live(c);
      assert e in c;
    }
  }

  lemma SameOffsets(b: Blocks, c: Blocks, x: int)
    requires WellFormed(b) && WellFormed(c) && Live(b) == Live(c) && x in b
    ensures x in c
  {
    hide Live;
    var p := START;
    assert Placed(b, x);
    while p != x
      invariant p in b && p in c && p <= x
      decreases x - p
    {
      SameBlock(b, c, p);
      assert Placed(b, p) && Placed(c, p) && End(b, p) == End(c, p) <= x < PAGE_SIZE;
      p := End(b, p);
    }
  }

  /** The free list has no choice: two well-formed pages with the same live blocks are equal. */
  lemma LiveDetermines(b: Blocks, c: Blocks)
    requires WellFormed(b) && WellFormed(c) && Live(b) == Live(c)
    ensures b == c
  {
    hide Live, WellFormed;
    forall p ensures p in b <==> p in c {
      if p in b { SameOffsets(b, c, p); }
      if p in c { SameOffsets(c, b, p); }
    }
    forall p | p in b ensures b[p] == c[p] { SameBlock(b, c, p); }
  }

  lemma InitialWellFormed()
    ensures WellFormed(Initial()) && Live(Initial()) == map[]
  {}

  /** Returning everything, in any order, restores the initial single block. */
  lemma AllReturned(b: Blocks)
    requires WellFormed(b) && Live(b) == map[]
    ensures b == Initial()
  {
    InitialWellFormed();
    LiveDetermines(b, Initial());
  }

  // ----- allocation

  /** Number of units for a request: the payload rounded up, and one for the list node. The program
      divides an unsigned number and keeps its low 32 bits, which also rounds down below 0. */
  function Units(nbytes: int): int {
    (nbytes + NODE - 1) / NODE + 1
  }

  /** `p` is the lowest free block with at least `n` units. */
  ghost predicate FirstFit(b: Blocks, n: int, p: int) {
    IsFree(b, p) && b[p].units >= n && forall q :: IsFree(b, q) && q < p ==> b[q].units < n
  }

  /** What is handed out begins inside the block that was found if and only if the request is for
      more than -8 bytes; below that the program writes behind the end of the block. */
  lemma PlaceInsideWhen(b: Blocks, nbytes: int, p: int)
    requires FirstFit(b, Units(nbytes), p)
    ensures p <= p + (b[p].units - Units(nbytes)) * NODE < End(b, p) <==> nbytes > -NODE
  {}

  ghost function Mark(b: Blocks, p: int, free: bool): Blocks
    requires p in b
  {
    b[p := Block(b[p].units, free)]
  }

  lemma MarkTiled(b: Blocks, p: int, free: bool)
    requires Tiled(b) && p in b
    ensures Tiled(Mark(b, p, free))
  {
    var c := Mark(b, p, free);
    assert forall q :: q in c <==> q in b;
    assert forall q :: q in c ==> End(c, q) == End(b, q);
    forall q | q in c ensures Placed(c, q) { assert Placed(b, q); }
  }

  /** Where the last `n` units of a block start. */
  ghost function Cut(b: Blocks, n: int, p: int): int
    requires p in b
  {
    End(b, p) - n * NODE
  }

  /** The last `n` units of a block made a block of their own. */
  ghost function Split(b: Blocks, n: int, p: int): Blocks
    requires p in b
  {
    b[p := Block(b[p].units - n, b[p].free)][Cut(b, n, p) := Block(n, b[p].free)]
  }

  /** The cut lies inside the block, hence at no other block. */
  lemma CutIsInside(b: Blocks, n: int, p: int)
    requires Tiled(b) && p in b && 1 <= n < b[p].units
    ensures Cut(b, n, p) !in b && p < Cut(b, n, p) < End(b, p)
  {
    assert Placed(b, p);
    assert forall q :: q in b && p < q ==> End(b, p) <= q;
  }

  lemma SplitEnds(b: Blocks, n: int, p: int, q: int)
    requires Tiled(b) && p in b && 1 <= n < b[p].units && q in Split(b, n, p)
    ensures var cut := Cut(b, n, p);
            if q == cut then End(Split(b, n, p), q) == End(b, p)
            else q in b && End(Split(b, n, p), q) == if q == p then cut else End(b, q)
  {
    CutIsInside(b, n, p);
  }

  lemma SplitPlaced(b: Blocks, n: int, p: int, q: int)
    requires Tiled(b) && p in b && 1 <= n < b[p].units && q in Split(b, n, p)
    ensures Placed(Split(b, n, p), q)
  {
    hide Aligned;
    CutIsInside(b, n, p);
    SplitEnds(b, n, p, q);
    assert Placed(b, p);
    if q == Cut(b, n, p) {
      AlignedShift(p, b[p].units - n);
    } else {
      assert Placed(b, q);
    }
  }

  lemma SplitTiled(b: Blocks, n: int, p: int)
    requires Tiled(b) && p in b && 1 <= n < b[p].units
    ensures Tiled(Split(b, n, p))
  {
    var c, cut := Split(b, n, p), Cut(b, n, p);
    CutIsInside(b, n, p);
    assert forall q :: q in c <==> q in b || q == cut;
    forall q | q in c ensures Placed(c, q) { SplitPlaced(b, n, p, q); }
    forall q, r | q in c && r in c && q < r ensures End(c, q) <= r {
      hide Cut, Split, End, Placed;
      SplitEnds(b, n, p, q);
      if q == cut {
        assert p < r && r in b && End(b, p) <= r;
      } else if r == cut {
        assert q == p || q < p;
        assert q < p ==> End(b, q) <= p;
      } else {
        assert End(b, q) <= r;
      }
    }
  }

  ghost function Allocate(b: Blocks, n: int, p: int): Blocks
    requires p in b
  {
    if b[p].units == n then Mark(b, p, false) else Mark(Split(b, n, p), Cut(b, n, p), false)
  }

  lemma AllocateTiled(b: Blocks, n: int, p: int)
    requires Tiled(b) && p in b && 1 <= n <= b[p].units
    ensures Tiled(Allocate(b, n, p))
  {
    hide Tiled;
    if b[p].units == n {
      MarkTiled(b, p, false);
    } else {
      SplitTiled(b, n, p);
      MarkTiled(Split(b, n, p), Cut(b, n, p), false);
    }
  }

  lemma AllocateLive(b: Blocks, n: int, p: int)
    requires Tiled(b) && IsFree(b, p) && 1 <= n <= b[p].units
    ensures Cut(b, n, p) !in Live(b) && Live(Allocate(b, n, p)) == Live(b)[Cut(b, n, p) := n]
  {
    hide Aligned;
    if n < b[p].units { CutIsInside(b, n, p); }
  }

  lemma MarkUsedCoalesced(b: Blocks, p: int)
    requires Coalesced(b) && p in b
    ensures Coalesced(Mark(b, p, false))
  {
    var c := Mark(b, p, false);
    forall q | q in c && c[q].free && End(c, q) in c ensures !c[End(c, q)].free {
      assert End(c, q) == End(b, q);
    }
  }

  lemma SplitCoalesced(b: Blocks, n: int, p: int, q: int)
    requires WellFormed(b) && IsFree(b, p) && 1 <= n < b[p].units
    requires var c := Mark(Split(b, n, p), Cut(b, n, p), false); q in c && c[q].free && End(c, q) in c
    ensures var c := Mark(Split(b, n, p), Cut(b, n, p), false); !c[End(c, q)].free
  {
    CutIsInside(b, n, p);
    SplitEnds(b, n, p, q);
    hide Tiled;
    if q != p {
      assert End(b, q) != p;
    }
  }

  lemma AllocateCoalesced(b: Blocks, n: int, p: int)
    requires WellFormed(b) && IsFree(b, p) && 1 <= n <= b[p].units
    ensures Coalesced(Allocate(b, n, p))
  {
    if n == b[p].units {
      MarkUsedCoalesced(b, p);
    } else {
      hide Tiled, Mark, Split, Cut;
      var c := Allocate(b, n, p);
      forall q | q in c && c[q].free && End(c, q) in c ensures !c[End(c, q)].free {
        SplitCoalesced(b, n, p, q);
      }
    }
  }

  /** Allocation keeps the page well formed and adds exactly the new block to the live ones. */
  lemma AllocateWellFormed(b: Blocks, n: int, p: int)
    requires WellFormed(b) && IsFree(b, p) && 1 <= n <= b[p].units
    ensures WellFormed(Allocate(b, n, p))
    ensures Cut(b, n, p) !in Live(b) && Live(Allocate(b, n, p)) == Live(b)[Cut(b, n, p) := n]
    ensures b[p].units == n ==> Cut(b, n, p) == p
  {
    hide Tiled, Coalesced, Allocate, Live;
    AllocateTiled(b, n, p);
    AllocateLive(b, n, p);
    AllocateCoalesced(b, n, p);
  }

  /** Returning a block right after it was handed out restores the page's blocks exactly. */
  lemma ReleaseUndoesAllocate(b: Blocks, n: int, p: int, c: Blocks)
    requires WellFormed(b) && IsFree(b, p) && 1 <= n <= b[p].units
    requires WellFormed(c) && Live(c) == Live(Allocate(b, n, p)) - {Cut(b, n, p)}
    ensures c == b
  {
    hide WellFormed, Live, Allocate, Cut;
    AllocateWellFormed(b, n, p);
    LiveDetermines(c, b);
  }

  // ----- release

  /** A block joined with the one behind it. */
  ghost function Join(b: Blocks, p: int): Blocks
    requires p in b && End(b, p) in b
  {
    (b - {End(b, p)})[p := Block(b[p].units + b[End(b, p)].units, b[p].free)]
  }

  lemma JoinEnds(b: Blocks, p: int, q: int)
    requires Tiled(b) && p in b && End(b, p) in b && q in Join(b, p)
    ensures q in b && q != End(b, p) && End(Join(b, p), q) == if q == p then End(b, End(b, p)) else End(b, q)
  {
    assert Placed(b, p);
  }

  lemma EndsDiffer(b: Blocks, p: int, q: int)
    requires Tiled(b) && p in b && q in b && p != q
    ensures End(b, p) != End(b, q)
  {
    hide Aligned;
    assert Placed(b, p) && Placed(b, q);
  }

  lemma JoinTiled(b: Blocks, p: int)
    requires Tiled(b) && p in b && End(b, p) in b
    ensures Tiled(Join(b, p))
  {
    hide Aligned;
    var c, e := Join(b, p), End(b, p);
    assert Placed(b, p) && Placed(b, e) && Placed(b, START);
    assert forall q :: q in c <==> q in b && q != e;
    forall q | q in c ensures Placed(c, q) {
      JoinEnds(b, p, q);
      assert Placed(b, q);
      if q != p { EndsDiffer(b, p, q); }
    }
    forall q, r | q in c && r in c && q < r ensures End(c, q) <= r {
      hide Join, End;
      JoinEnds(b, p, q);
      if q == p {
        assert e <= r;
        assert End(b, e) <= r;
      } else {
        assert End(b, q) <= r;
      }
    }
  }

  /** Coalesced, except that `p` may touch free blocks in front and, if `both`, behind. */
  ghost predicate CoalescedBut(b: Blocks, p: int, both: bool) {
    forall q :: IsFree(b, q) && IsFree(b, End(b, q)) ==> End(b, q) == p || (both && q == p)
  }

  lemma MarkFreeLive(b: Blocks, p: int)
    requires p in b
    ensures Live(Mark(b, p, true)) == Live(b) - {p}
  {}

  lemma MarkFreeCoalesced(b: Blocks, p: int)
    requires Coalesced(b) && p in b
    ensures CoalescedBut(Mark(b, p, true), p, true)
  {
    var c := Mark(b, p, true);
    forall q | IsFree(c, q) && IsFree(c, End(c, q)) ensures End(c, q) == p || q == p {
      assert End(c, q) == End(b, q);
    }
  }

  lemma JoinLive(b: Blocks, p: int)
    requires Tiled(b) && IsFree(b, p) && IsFree(b, End(b, p))
    ensures Live(Join(b, p)) == Live(b)
  {}

  /** Joining the returned block with the free block behind it. */
  lemma JoinBehind(b: Blocks, p: int)
    requires Tiled(b) && CoalescedBut(b, p, true) && IsFree(b, p) && IsFree(b, End(b, p))
    ensures Tiled(Join(b, p)) && CoalescedBut(Join(b, p), p, false) && Live(Join(b, p)) == Live(b)
  {
    JoinTiled(b, p);
    JoinLive(b, p);
    var c, e := Join(b, p), End(b, p);
    assert Placed(b, p) && Placed(b, e) && !IsFree(b, End(b, e));
    hide Live;
    forall q | IsFree(c, q) && IsFree(c, End(c, q)) ensures End(c, q) == p {
      JoinEnds(b, p, q);
    }
  }

  /** Joining the free block in front with the returned block. */
  lemma JoinFront(b: Blocks, l: int)
    requires Tiled(b) && IsFree(b, l) && IsFree(b, End(b, l)) && CoalescedBut(b, End(b, l), false)
    ensures WellFormed(Join(b, l)) && Live(Join(b, l)) == Live(b)
  {
    JoinTiled(b, l);
    JoinLive(b, l);
    var c, p := Join(b, l), End(b, l);
    assert Placed(b, l) && Placed(b, p);
    hide Live;
    forall q | q in c && c[q].free && End(c, q) in c ensures !c[End(c, q)].free {
      JoinEnds(b, l, q);
    }
  }

  // ----- the page

  ghost predicate Inside(p: int) {
    0 <= p && p + NODE <= PAGE_SIZE && Aligned(p)
  }

  ghost function SizeAt(mem: seq<int>, p: int): int
    requires |mem| == WORDS && Inside(p)
  {
    mem[p / 4]
  }

  ghost function NextAt(mem: seq<int>, p: int): int
    requires |mem| == WORDS && Inside(p)
  {
    mem[p / 4 + 1]
  }

  ghost function SetSize(mem: seq<int>, p: int, v: int): (m: seq<int>)
    requires |mem| == WORDS && Inside(p)
    ensures |m| == WORDS
  {
    mem[p / 4 := v]
  }

  ghost function SetNext(mem: seq<int>, p: int, v: int): (m: seq<int>)
    requires |mem| == WORDS && Inside(p)
    ensures |m| == WORDS
  {
    mem[p / 4 + 1 := v]
  }

  lemma PutSize(mem: seq<int>, p: int, v: int, q: int)
    requires |mem| == WORDS && Inside(p) && Inside(q)
    ensures SizeAt(SetSize(mem, p, v), q) == if p == q then v else SizeAt(mem, q)
    ensures NextAt(SetSize(mem, p, v), q) == NextAt(mem, q)
  {
    WordsApart(p, q);
  }

  /** Where the words of two nodes lie. */
  lemma WordsApart(p: int, q: int)
    requires Inside(p) && Inside(q)
    ensures p / 4 == q / 4 <==> p == q
    ensures p / 4 != q / 4 + 1 && q / 4 != p / 4 + 1
  {}

  lemma PutNext(mem: seq<int>, p: int, v: int, q: int)
    requires |mem| == WORDS && Inside(p) && Inside(q)
    ensures NextAt(SetNext(mem, p, v), q) == if p == q then v else NextAt(mem, q)
    ensures SizeAt(SetNext(mem, p, v), q) == SizeAt(mem, q)
  {
    WordsApart(p, q);
  }

  /** `q` is the lowest free block behind `p`, or 0 when there is none. */
  ghost predicate IsNextFree(b: Blocks, p: int, q: int) {
    if q == 0 then forall r :: IsFree(b, r) ==> r <= p
    else IsFree(b, q) && p < q && forall r :: IsFree(b, r) && p < r ==> q <= r
  }

  /** A node of the free list: the list head or a free block. */
  ghost predicate IsListNode(b: Blocks, p: int) {
    p == HEADER || IsFree(b, p)
  }

  /** Every block starts with its size; the blocks in `but` are not considered. */
  ghost predicate SizesStored(mem: seq<int>, b: Blocks, but: set<int>)
    requires |mem| == WORDS
  {
    && Inside(HEADER) && SizeAt(mem, HEADER) == 0
    && forall p :: p in b ==> p != HEADER && Inside(p) && (p !in but ==> SizeAt(mem, p) == b[p].units)
  }

  /** The free list is stored in ascending order; the links of the nodes in `but` are not considered. */
  ghost predicate LinksStored(mem: seq<int>, b: Blocks, but: set<int>)
    requires |mem| == WORDS
  {
    forall p :: IsListNode(b, p) ==> Inside(p) && (p !in but ==> IsNextFree(b, p, NextAt(mem, p)))
  }

  ghost predicate Stored(mem: seq<int>, b: Blocks) {
    |mem| == WORDS && SizesStored(mem, b, {}) && LinksStored(mem, b, {})
  }

  // ----- single writes

  lemma WriteSize(mem: seq<int>, b: Blocks, p: int, sizeBut: set<int>, linkBut: set<int>)
    requires |mem| == WORDS && p in b && SizesStored(mem, b, sizeBut) && LinksStored(mem, b, linkBut)
    ensures Inside(p)
    ensures SizesStored(SetSize(mem, p, b[p].units), b, sizeBut - {p})
    ensures LinksStored(SetSize(mem, p, b[p].units), b, linkBut)
  {
    hide SizeAt, NextAt, Inside, IsNextFree, SetSize;
    var v := b[p].units;
    var mem' := SetSize(mem, p, v);
    PutSize(mem, p, v, HEADER);
    forall q | q in b && q !in sizeBut - {p} ensures SizeAt(mem', q) == b[q].units { PutSize(mem, p, v, q); }
    forall q | IsListNode(b, q) ensures NextAt(mem', q) == NextAt(mem, q) { PutSize(mem, p, v, q); }
  }

  lemma WriteLink(mem: seq<int>, b: Blocks, p: int, v: int, sizeBut: set<int>, linkBut: set<int>)
    requires |mem| == WORDS && SizesStored(mem, b, sizeBut) && LinksStored(mem, b, linkBut)
    requires IsListNode(b, p) && IsNextFree(b, p, v)
    ensures Inside(p)
    ensures SizesStored(SetNext(mem, p, v), b, sizeBut) && LinksStored(SetNext(mem, p, v), b, linkBut - {p})
  {
    hide SizeAt, NextAt, Inside, IsNextFree, SetNext;
    var mem' := SetNext(mem, p, v);
    PutNext(mem, p, v, HEADER);
    forall q | q in b ensures SizeAt(mem', q) == SizeAt(mem, q) { PutNext(mem, p, v, q); }
    forall q | IsListNode(b, q) ensures NextAt(mem', q) == if p == q then v else NextAt(mem, q) {
      PutNext(mem, p, v, q);
    }
  }

  // ----- changes of the blocks over an unchanged page

  lemma AllInside(b: Blocks)
    requires Tiled(b)
    ensures Inside(HEADER) && forall p :: p in b ==> HEADER < p && Inside(p)
  {
    forall p | p in b ensures HEADER < p && Inside(p) { assert Placed(b, p); }
  }

  lemma MarkFacts(b: Blocks, p: int, free: bool)
    requires p in b
    ensures var c := Mark(b, p, free);
            && p in c && (forall q :: IsFree(c, q) <==> if q == p then free else IsFree(b, q))
            && (forall q :: q in c ==> q in b && c[q].units == b[q].units && End(c, q) == End(b, q))
  {}

  lemma JoinFacts(b: Blocks, p: int)
    requires Tiled(b) && IsFree(b, p) && IsFree(b, End(b, p))
    ensures var c, e := Join(b, p), End(b, p);
            && p < e && e != 0 && IsFree(c, p) && c[p].units == b[p].units + b[e].units
            && (forall q :: IsFree(c, q) <==> IsFree(b, q) && q != e)
            && (forall q :: q in c ==> q in b && (q != p ==> c[q].units == b[q].units))
            && (forall q :: IsFree(b, q) && p < q ==> e <= q)
  {
    assert Placed(b, p) && Placed(b, End(b, p));
  }

  lemma AllocateFacts(b: Blocks, n: int, p: int)
    requires Tiled(b) && IsFree(b, p) && 1 <= n < b[p].units
    ensures var c, cut := Allocate(b, n, p), Cut(b, n, p);
            && p in c && cut in c && p < cut && cut == p + (b[p].units - n) * NODE
            && c[p].units == b[p].units - n && c[cut].units == n
            && (forall q :: IsFree(c, q) <==> IsFree(b, q))
            && (forall q :: q in c && q != cut ==> q in b && (q != p ==> c[q].units == b[q].units))
  {
    CutIsInside(b, n, p);
  }

  /** One free block more, between `prev` and its successor. */
  lemma AddFree(b: Blocks, c: Blocks, prev: int, p: int, next: int)
    requires forall x :: IsFree(c, x) <==> if x == p then true else IsFree(b, x)
    requires IsNextFree(b, prev, next) && prev < p && p != 0 && (next == 0 || p < next)
    ensures IsNextFree(c, prev, p) && IsNextFree(c, p, next)
    ensures forall q, r ::
              && IsNextFree(b, q, r) && q != prev
              && (q < prev ==> IsFree(b, prev)) && (prev < q ==> IsFree(b, q)) ==>
                IsNextFree(c, q, r)
  {
    hide IsFree;
  }

  /** One free block less, the successor of `prev`. */
  lemma DropFree(b: Blocks, c: Blocks, prev: int, p: int, next: int)
    requires forall x :: IsFree(c, x) <==> if x == p then false else IsFree(b, x)
    requires IsNextFree(b, prev, p) && p != 0 && IsNextFree(b, p, next)
    ensures IsNextFree(c, prev, next)
    ensures forall q, r ::
              && IsNextFree(b, q, r) && q != prev && q != p
              && (q < prev ==> IsFree(b, prev)) && (prev < q ==> IsFree(b, q)) ==>
                IsNextFree(c, q, r)
  {
    hide IsFree;
  }

  lemma SameFree(b: Blocks, c: Blocks)
    requires forall x :: IsFree(c, x) <==> IsFree(b, x)
    ensures forall q, r :: IsNextFree(b, q, r) ==> IsNextFree(c, q, r)
  {
    hide IsFree;
  }

  lemma UseStored(mem: seq<int>, b: Blocks, prev: int, p: int)
    requires Stored(mem, b) && Tiled(b) && IsFree(b, p) && IsListNode(b, prev) && IsNextFree(b, prev, p) && p != 0
    ensures var c := Mark(b, p, false);
            && SizesStored(mem, c, {}) && LinksStored(mem, c, {prev})
            && IsNextFree(c, prev, NextAt(mem, p))
  {
    hide Tiled, Mark, End, SizeAt, NextAt, Inside, IsNextFree;
    AllInside(b);
    MarkFacts(b, p, false);
    assert IsListNode(b, p);
    DropFree(b, Mark(b, p, false), prev, p, NextAt(mem, p));
  }

  lemma SplitStored(mem: seq<int>, b: Blocks, n: int, p: int)
    requires Stored(mem, b) && Tiled(b) && IsFree(b, p) && 1 <= n < b[p].units
    ensures var c := Allocate(b, n, p);
            Tiled(c) && SizesStored(mem, c, {p, Cut(b, n, p)}) && LinksStored(mem, c, {})
  {
    hide Tiled, Allocate, Cut, SizeAt, NextAt, Inside, IsNextFree;
    AllocateFacts(b, n, p);
    AllocateTiled(b, n, p);
    AllInside(Allocate(b, n, p));
    SameFree(b, Allocate(b, n, p));
  }

  lemma FreeStored(mem: seq<int>, b: Blocks, prev: int, p: int, next: int)
    requires Stored(mem, b) && Tiled(b) && p in b && !b[p].free && IsListNode(b, prev) && IsNextFree(b, prev, next)
    requires prev < p && p != 0 && (next == 0 || p < next)
    ensures var c := Mark(b, p, true);
            && SizesStored(mem, c, {}) && LinksStored(mem, c, {prev, p})
            && IsNextFree(c, prev, p) && IsNextFree(c, p, next)
  {
    hide Tiled, Mark, End, SizeAt, NextAt, Inside, IsNextFree;
    AllInside(b);
    MarkFacts(b, p, true);
    AddFree(b, Mark(b, p, true), prev, p, next);
  }

  /** Here the node in front of the vanishing block is `p` itself. */
  lemma JoinStored(mem: seq<int>, b: Blocks, p: int, next: int, linkBut: set<int>)
    requires |mem| == WORDS && Tiled(b) && IsFree(b, p) && IsFree(b, End(b, p))
    requires SizesStored(mem, b, {}) && LinksStored(mem, b, linkBut)
    requires IsNextFree(b, End(b, p), next)
    ensures var c := Join(b, p);
            && SizesStored(mem, c, {p}) && LinksStored(mem, c, linkBut + {p}) && IsNextFree(c, p, next)
            && (forall q :: q < p && IsNextFree(b, q, p) ==> IsNextFree(c, q, p))
  {
    hide Tiled, Join, End, SizeAt, NextAt, Inside, IsNextFree;
    AllInside(b);
    JoinFacts(b, p);
    SuccessorOf(b, p, End(b, p));
    DropFree(b, Join(b, p), p, End(b, p), next);
  }

  lemma SuccessorOf(b: Blocks, p: int, e: int)
    requires IsFree(b, e) && p < e && e != 0 && forall q :: IsFree(b, q) && p < q ==> e <= q
    ensures IsNextFree(b, p, e)
  {}

  // ----- the program

  /** Walking the list finds the first fit, or shows that there is none. */
  lemma ListEnd(b: Blocks, n: int, prev: int, p: int)
    requires IsNextFree(b, prev, p) && forall q :: IsFree(b, q) && q <= prev ==> b[q].units < n
    ensures p == 0 ==> forall q :: IsFree(b, q) ==> b[q].units < n
    ensures p != 0 && b[p].units >= n ==> FirstFit(b, n, p)
    ensures p != 0 && b[p].units < n ==> forall q :: IsFree(b, q) && q <= p ==> b[q].units < n
  {}

  lemma NextIsFree(b: Blocks, prev: int, p: int)
    requires IsNextFree(b, prev, p) && p != 0
    ensures IsFree(b, p) && prev < p
  {}

  /** The writes for a block of exactly the right size. */
  lemma ExactFit(mem: seq<int>, b: Blocks, prev: int, p: int)
    requires WellFormed(b) && Stored(mem, b) && IsListNode(b, prev) && IsNextFree(b, prev, p) && p != 0
    ensures Inside(prev) && Inside(p)
    ensures Stored(SetNext(mem, prev, NextAt(mem, p)), Allocate(b, b[p].units, p))
  {
    hide Tiled, Coalesced, Mark, SizesStored, LinksStored, Inside, IsNextFree, SetNext, NextAt;
    AllInside(b);
    NextIsFree(b, prev, p);
    UseStored(mem, b, prev, p);
    MarkFacts(b, p, false);
    WriteLink(mem, Mark(b, p, false), prev, NextAt(mem, p), {}, {prev});
    assert {prev} - {prev} == {};
  }

  /** The writes for a larger block: it is shortened, and its tail gets a size of its own. */
  lemma TailFit(mem: seq<int>, b: Blocks, n: int, p: int)
    requires WellFormed(b) && Stored(mem, b) && IsFree(b, p) && 1 <= n < b[p].units
    ensures Inside(p) && Inside(Cut(b, n, p)) && Cut(b, n, p) == p + (b[p].units - n) * NODE > p
    ensures Stored(SetSize(SetSize(mem, p, b[p].units - n), Cut(b, n, p), n), Allocate(b, n, p))
  {
    hide Tiled, Coalesced, Allocate, Cut, SizesStored, LinksStored, Inside, SetSize;
    AllocateFacts(b, n, p);
    SplitStored(mem, b, n, p);
    var c, cut := Allocate(b, n, p), Cut(b, n, p);
    AllInside(c);
    WriteSize(mem, c, p, {p, cut}, {});
    WriteSize(SetSize(mem, p, c[p].units), c, cut, {p, cut} - {p}, {});
    assert {p, cut} - {p} - {cut} == {};
  }

  /** Half way through a release: block `p` is free and joined with what is behind it, but the
      list node `prev` in front of it does not lead to it yet. */
  ghost predicate HalfFreed(mem: seq<int>, b: Blocks, prev: int, p: int) {
    && |mem| == WORDS && Tiled(b) && CoalescedBut(b, p, false)
    && IsFree(b, p) && IsListNode(b, prev) && HEADER <= prev < p && IsNextFree(b, prev, p)
    && SizesStored(mem, b, {}) && LinksStored(mem, b, {prev})
  }

  /** The state of the page when the walk of a release has found the place of block `p`. */
  ghost predicate PlaceFound(mem: seq<int>, b: Blocks, prev: int, p: int, next: int) {
    && WellFormed(b) && Stored(mem, b) && p in b && !b[p].free && HEADER < p
    && IsListNode(b, prev) && HEADER <= prev < p && IsNextFree(b, prev, next) && (next == 0 || p < next)
  }

  /** The free block behind, if it is adjacent, is the next one in the list. */
  lemma BehindIsNext(mem: seq<int>, b: Blocks, prev: int, p: int, next: int)
    requires PlaceFound(mem, b, prev, p, next)
    ensures p < End(b, p) && (End(b, p) == next <==> IsFree(b, End(b, p)))
  {
    assert Placed(b, p);
    if IsFree(b, End(b, p)) { assert next != 0 && next <= End(b, p); }
  }

  lemma CoalescedBehind(b: Blocks, p: int)
    requires CoalescedBut(b, p, true) && p in b && !IsFree(b, End(b, p))
    ensures CoalescedBut(b, p, false)
  {}

  /** The first half of a release when the block behind is in use. */
  lemma FreeLinkOnly(mem: seq<int>, b: Blocks, prev: int, p: int, next: int)
    requires PlaceFound(mem, b, prev, p, next) && End(b, p) != next
    ensures Inside(p)
    ensures var c := Mark(b, p, true);
            HalfFreed(SetNext(mem, p, next), c, prev, p) && Live(c) == Live(b) - {p}
  {
    hide Tiled, Coalesced, CoalescedBut, Mark, End, Live, SizesStored, LinksStored, Inside, IsNextFree, SetNext;
    var c := Mark(b, p, true);
    BehindIsNext(mem, b, prev, p, next);
    FreeStored(mem, b, prev, p, next);
    MarkTiled(b, p, true);
    MarkFacts(b, p, true);
    MarkFreeLive(b, p);
    MarkFreeCoalesced(b, p);
    CoalescedBehind(c, p);
    WriteLink(mem, c, p, next, {}, {prev, p});
    assert {prev, p} - {p} == {prev};
  }

  lemma ListLink(mem: seq<int>, b: Blocks, p: int, but: set<int>)
    requires |mem| == WORDS && LinksStored(mem, b, but) && IsListNode(b, p) && p !in but
    ensures Inside(p) && IsNextFree(b, p, NextAt(mem, p))
  {}

  /** The first half of a release when the block behind is free. */
  lemma FreeJoinBehind(mem: seq<int>, b: Blocks, prev: int, p: int, next: int)
    requires PlaceFound(mem, b, prev, p, next) && End(b, p) == next
    ensures Inside(p) && Inside(next) && IsFree(b, next)
    ensures var b1 := Mark(b, p, true); p in b1 && End(b1, p) in b1
    ensures var c := Join(Mark(b, p, true), p);
            && HalfFreed(SetNext(SetSize(mem, p, b[p].units + b[next].units), p, NextAt(mem, next)), c, prev, p)
            && Live(c) == Live(b) - {p}
  {
    hide Tiled, Coalesced, CoalescedBut, Mark, Join, End, Live, SizesStored, LinksStored, Inside, IsNextFree, SetNext,
         SetSize, NextAt;
    var b1 := Mark(b, p, true);
    BehindIsNext(mem, b, prev, p, next);
    NextIsFree(b, prev, next);
    FreeStored(mem, b, prev, p, next);
    MarkTiled(b, p, true);
    MarkFacts(b, p, true);
    MarkFreeLive(b, p);
    MarkFreeCoalesced(b, p);
    ListLink(mem, b1, next, {prev, p});
    var c, v := Join(b1, p), NextAt(mem, next);
    JoinBehind(b1, p);
    JoinFacts(b1, p);
    JoinStored(mem, b1, p, v, {prev, p});
    assert {prev, p} + {p} == {prev, p} && {p} - {p} == {} && {prev, p} - {p} == {prev};
    WriteSize(mem, c, p, {p}, {prev, p});
    WriteLink(SetSize(mem, p, c[p].units), c, p, v, {}, {prev, p});
  }

  lemma OnlyPrevTouches(b: Blocks, prev: int, p: int, q: int)
    requires Tiled(b) && IsListNode(b, prev) && IsNextFree(b, prev, p) && p != 0 && IsFree(b, q) && q != prev
    ensures End(b, q) != p
  {
    hide Aligned;
    assert Placed(b, q);
    if q < prev { assert End(b, q) <= prev; }
  }

  /** The free block in front, if it is adjacent, is the list node the walk stopped at. */
  lemma FrontIsPrev(mem: seq<int>, b: Blocks, prev: int, p: int)
    requires HalfFreed(mem, b, prev, p)
    ensures Inside(prev) && (SizeAt(mem, prev) * NODE + prev == p <==> IsFree(b, prev) && End(b, prev) == p)
    ensures p in b && (IsFree(b, prev) ==> SizeAt(mem, prev) == b[prev].units)
    ensures !(IsFree(b, prev) && End(b, prev) == p) ==> WellFormed(b)
  {
    hide Aligned;
    AllInside(b);
    if prev == HEADER {
      assert Placed(b, p);
    }
    if !(IsFree(b, prev) && End(b, prev) == p) {
      forall q | IsFree(b, q) && q != prev ensures End(b, q) != p { OnlyPrevTouches(b, prev, p, q); }
    }
  }

  /** The second half of a release when the block in front is in use. */
  lemma LinkFront(mem: seq<int>, b: Blocks, prev: int, p: int)
    requires HalfFreed(mem, b, prev, p)
    ensures Inside(prev) && Stored(SetNext(mem, prev, p), b)
  {
    hide Tiled, CoalescedBut, SetNext, Inside, SizesStored, LinksStored, IsNextFree;
    WriteLink(mem, b, prev, p, {}, {prev});
    assert {prev} - {prev} == {};
  }

  lemma BlockSize(mem: seq<int>, b: Blocks, p: int)
    requires |mem| == WORDS && SizesStored(mem, b, {}) && p in b
    ensures Inside(p) && SizeAt(mem, p) == b[p].units
  {}

  /** The second half of a release when the block in front is free. */
  lemma FreeJoinFront(mem: seq<int>, b: Blocks, prev: int, p: int)
    requires HalfFreed(mem, b, prev, p) && IsFree(b, prev) && End(b, prev) == p
    ensures Inside(prev) && Inside(p) && SizeAt(mem, p) == b[p].units
    ensures var c := Join(b, prev);
            && WellFormed(c) && Live(c) == Live(b)
            && Stored(SetNext(SetSize(mem, prev, b[prev].units + b[p].units), prev, NextAt(mem, p)), c)
  {
    hide Tiled, Coalesced, CoalescedBut, WellFormed, Join, End, Live, SizesStored, LinksStored, Inside, IsNextFree,
         SetNext, SetSize, NextAt;
    ListLink(mem, b, p, {prev});
    BlockSize(mem, b, p);
    var c, v := Join(b, prev), NextAt(mem, p);
    JoinFront(b, prev);
    JoinFacts(b, prev);
    JoinStored(mem, b, prev, v, {prev});
    assert {prev} + {prev} == {prev} && {prev} - {prev} == {};
    WriteSize(mem, c, prev, {prev}, {prev});
    WriteLink(SetSize(mem, prev, c[prev].units), c, prev, v, {}, {prev});
  }

  // ----- what the writes leave alone

  /** The words of the node's own header, and all words behind the list nodes of live blocks. */
  ghost predicate Untouched(mem: seq<int>, mem': seq<int>, live: map<int, int>) {
    && |mem| == |mem'| == WORDS && (forall x :: 0 <= x < HEADER / 4 ==> mem'[x] == mem[x])
    && forall p, x :: p in live && p / 4 + 2 <= x < p / 4 + 2 * live[p] && 0 <= x < WORDS ==> mem'[x] == mem[x]
  }

  /** Only the list node at `q` is written. */
  ghost predicate NodeWritten(mem: seq<int>, mem': seq<int>, q: int) {
    && |mem| == |mem'| == WORDS
    && forall x :: 0 <= x < WORDS && x != q / 4 && x != q / 4 + 1 ==> mem'[x] == mem[x]
  }

  lemma NodeWriteLeaves(b: Blocks, mem: seq<int>, mem': seq<int>, q: int)
    requires Tiled(b) && (q in b || q == HEADER) && NodeWritten(mem, mem', q)
    ensures Untouched(mem, mem', Live(b))
  {
    hide Aligned, Tiled;
    AllInside(b);
    forall p, x | p in Live(b) && p / 4 + 2 <= x < p / 4 + 2 * Live(b)[p] && 0 <= x < WORDS
      ensures mem'[x] == mem[x]
    {
      PayloadApart(b, p, x - p / 4, q);
    }
  }

  lemma UntouchedSame(mem: seq<int>, live: map<int, int>)
    requires |mem| == WORDS
    ensures Untouched(mem, mem, live)
  {}

  lemma HeaderStays(mem: seq<int>, mem': seq<int>, live: map<int, int>)
    requires Untouched(mem, mem', live)
    ensures |mem'| == |mem| == WORDS && mem'[2] == mem[2]
  {}

  lemma UntouchedTwice(mem: seq<int>, mem': seq<int>, mem'': seq<int>, live: map<int, int>, fewer: map<int, int>)
    requires Untouched(mem, mem', live) && Untouched(mem', mem'', live)
    requires forall p :: p in fewer ==> p in live && live[p] == fewer[p]
    ensures Untouched(mem, mem'', fewer)
  {}

  lemma WellFormedIsTiled(b: Blocks)
    requires WellFormed(b)
    ensures Tiled(b)
  {}

  lemma LinkLeaves(mem: seq<int>, b: Blocks, q: int, v: int)
    requires |mem| == WORDS && Tiled(b) && (q in b || q == HEADER)
    ensures Inside(q) && Untouched(mem, SetNext(mem, q, v), Live(b))
  {
    hide Tiled, Live, Untouched;
    AllInside(b);
    NodeWriteLeaves(b, mem, SetNext(mem, q, v), q);
  }

  lemma NodeLeaves(mem: seq<int>, b: Blocks, q: int, size: int, v: int)
    requires |mem| == WORDS && Tiled(b) && q in b
    ensures Inside(q) && Untouched(mem, SetNext(SetSize(mem, q, size), q, v), Live(b))
  {
    hide Tiled, Live, Untouched;
    AllInside(b);
    NodeWriteLeaves(b, mem, SetNext(SetSize(mem, q, size), q, v), q);
  }

  lemma TailLeaves(mem: seq<int>, b: Blocks, n: int, p: int)
    requires |mem| == WORDS && WellFormed(b) && IsFree(b, p) && 1 <= n < b[p].units
    ensures Inside(p) && Inside(Cut(b, n, p))
    ensures Untouched(mem, SetSize(SetSize(mem, p, b[p].units - n), Cut(b, n, p), n), Live(b))
  {
    hide Tiled, Coalesced, Allocate, Cut, Live, Untouched;
    var c, cut := Allocate(b, n, p), Cut(b, n, p);
    AllocateFacts(b, n, p);
    AllocateWellFormed(b, n, p);
    AllInside(c);
    var mem1 := SetSize(mem, p, b[p].units - n);
    NodeWriteLeaves(c, mem, mem1, p);
    NodeWriteLeaves(c, mem1, SetSize(mem1, cut, n), cut);
    UntouchedTwice(mem, mem1, SetSize(mem1, cut, n), Live(c), Live(b));
  }

  lemma InitialStored(mem: seq<int>)
    requires |mem| == WORDS && mem[4] == 0 && mem[5] == START && mem[6] == (PAGE_SIZE - START) / NODE && mem[7] == 0
    ensures Stored(mem, Initial())
  {}

  class Page {
    const mem: array<int>
    ghost var blocks: Blocks

    ghost predicate Valid()
      reads this, mem
    {
      mem.Length == WORDS && mem[2] == HEADER && WellFormed(blocks) && Stored(mem[..], blocks)
    }

    /** btree_node_init with arena_init: an empty leaf whose page is one free block. */
    constructor ()
      ensures Valid() && fresh(mem) && blocks == Initial()
      ensures mem[0] == 1 && mem[1] == 0 && mem[3] == 0
    {
      mem := new int[WORDS](_ => 0);
      blocks := Initial();
      new;
      hide WellFormed, Stored, Initial;
      InitialWellFormed();
      mem[0], mem[1], mem[2], mem[3] := 1, 0, HEADER, 0;
      var header := mem[2];
      var start := header + NODE;
      mem[start / 4] := (PAGE_SIZE - start) / NODE;
      mem[start / 4 + 1] := 0;
      mem[header / 4] := 0;
      mem[header / 4 + 1] := start;
      InitialStored(mem[..]);
    }

    /** Takes the whole of a free block off the list, or cuts its tail off. */
    method TakeTail(prev: int, ptr: int, nunits: int) returns (at: int)
      requires Valid() && IsListNode(blocks, prev) && IsNextFree(blocks, prev, ptr) && ptr != 0
      requires IsFree(blocks, ptr) && 1 <= nunits <= blocks[ptr].units
      modifies this, mem
      ensures Valid() && ptr <= at == Cut(old(blocks), nunits, ptr) && blocks == Allocate(old(blocks), nunits, ptr)
      ensures Untouched(old(mem[..]), mem[..], Live(old(blocks)))
    {
      hide WellFormed, LinksStored, SizesStored, Cut, Allocate, Live, Untouched, IsNextFree;
      ghost var m0, b0 := mem[..], blocks;
      StoredSize(m0, b0, ptr);
      AllocateWellFormed(b0, nunits, ptr);
      WellFormedIsTiled(b0);
      at := ptr;
      if mem[ptr / 4] == nunits {
        ExactFit(m0, b0, prev, ptr);
        mem[prev / 4 + 1] := mem[ptr / 4 + 1];
        assert mem[..] == SetNext(m0, prev, NextAt(m0, ptr));
        LinkLeaves(m0, b0, prev, NextAt(m0, ptr));
      } else {
        TailFit(m0, b0, nunits, ptr);
        mem[ptr / 4] := mem[ptr / 4] - nunits;
        at := ptr + mem[ptr / 4] * NODE;
        mem[at / 4] := nunits;
        assert mem[..] == SetSize(SetSize(m0, ptr, b0[ptr].units - nunits), at, nunits);
        TailLeaves(m0, b0, nunits, ptr);
      }
      HeaderStays(m0, mem[..], Live(b0));
      blocks := Allocate(b0, nunits, ptr);
    }

    /** Hands out the tail of the first block that is large enough; 0 when none is. */
    method Alloc(nbytes: int) returns (mp: int)
      requires Valid() && nbytes > -NODE
      modifies this, mem
      ensures Valid()
      ensures mp == 0 <==> forall q :: IsFree(old(blocks), q) ==> old(blocks)[q].units < Units(nbytes)
      ensures mp == 0 ==> blocks == old(blocks)
      ensures mp != 0 ==>
                && (exists p ::
                      FirstFit(old(blocks), Units(nbytes), p) && mp - NODE == Cut(old(blocks), Units(nbytes), p))
                && mp - NODE !in Live(old(blocks))
                && Live(blocks) == Live(old(blocks))[mp - NODE := Units(nbytes)]
      ensures Untouched(old(mem[..]), mem[..], Live(old(blocks)))
    {
      hide WellFormed, LinksStored, SizesStored, FirstFit, Cut, Allocate, Live, Untouched;
      UntouchedSame(mem[..], Live(blocks));
      var header := mem[2];
      var nunits := Units(nbytes);
      var prev := header;
      StoredLink(mem[..], blocks, header);
      HeaderFirst(blocks);
      var ptr := mem[header / 4 + 1];
      while ptr != 0
        invariant mem[..] == old(mem[..]) && blocks == old(blocks)
        invariant IsListNode(blocks, prev) && HEADER <= prev && Inside(prev) && IsNextFree(blocks, prev, ptr)
        invariant forall q :: IsFree(blocks, q) && q <= prev ==> blocks[q].units < nunits
        decreases PAGE_SIZE - prev
      {
        ghost var m0, b0 := mem[..], blocks;
        StoredSize(m0, b0, ptr);
        StoredLink(m0, b0, ptr);
        ListEnd(b0, nunits, prev, ptr);
        if mem[ptr / 4] >= nunits {
          AllocateWellFormed(b0, nunits, ptr);
          var at := TakeTail(prev, ptr, nunits);
          return at + NODE;
        }
        prev := ptr;
        ptr := mem[ptr / 4 + 1];
      }
      ListEnd(blocks, nunits, prev, ptr);
      return 0;
    }

    /** Walks the list to the two nodes that `ptr` lies between; 0 stands for the end. */
    method FindPlace(ptr: int) returns (prev: int, p: int)
      requires Valid() && ptr in Live(blocks)
      ensures PlaceFound(mem[..], blocks, prev, ptr, p) && Inside(ptr) && mem[ptr / 4] == blocks[ptr].units
    {
      hide WellFormed, LinksStored, SizesStored, Live;
      LiveBlock(mem[..], blocks, ptr);
      var header := mem[2];
      StoredLink(mem[..], blocks, header);
      prev, p := header, mem[header / 4 + 1];
      while p != 0 && p < ptr
        invariant IsListNode(blocks, prev) && HEADER <= prev < ptr && IsNextFree(blocks, prev, p)
        decreases PAGE_SIZE - prev
      {
        StoredLink(mem[..], blocks, p);
        prev, p := p, mem[p / 4 + 1];
      }
    }

    /** Takes a block back and joins it with its free neighbours. */
    method Free(mp: int)
      requires Valid() && mp - NODE in Live(blocks)
      modifies this, mem
      ensures Valid() && Live(blocks) == Live(old(blocks)) - {mp - NODE}
      ensures Untouched(old(mem[..]), mem[..], Live(blocks))
    {
      hide WellFormed, LinksStored, SizesStored, Mark, Join, Live, Aligned, IsNextFree, Tiled, CoalescedBut;
      var ptr := mp - NODE;
      var prev, p := FindPlace(ptr);
      assert p == 0 || p > ptr;
      ghost var m0, b0 := mem[..], blocks;
      WellFormedIsTiled(b0);
      if ptr + mem[ptr / 4] * NODE == p {
        FreeJoinBehind(m0, b0, prev, ptr, p);
        StoredSize(m0, b0, p);
        mem[ptr / 4] := mem[ptr / 4] + mem[p / 4];
        mem[ptr / 4 + 1] := mem[p / 4 + 1];
        assert mem[..] == SetNext(SetSize(m0, ptr, b0[ptr].units + b0[p].units), ptr, NextAt(m0, p));
        blocks := Join(Mark(b0, ptr, true), ptr);
        NodeLeaves(m0, b0, ptr, b0[ptr].units + b0[p].units, NextAt(m0, p));
      } else {
        FreeLinkOnly(m0, b0, prev, ptr, p);
        mem[ptr / 4 + 1] := p;
        assert mem[..] == SetNext(m0, ptr, p);
        blocks := Mark(b0, ptr, true);
        LinkLeaves(m0, b0, ptr, p);
      }
      ghost var m1 := mem[..];
      LinkPlace(prev, ptr);
      UntouchedTwice(m0, m1, mem[..], Live(blocks), Live(blocks));
    }

    /** Makes the node in front lead to `ptr`, or swallow it. */
    method LinkPlace(prev: int, ptr: int)
      requires mem.Length == WORDS && mem[2] == HEADER && HalfFreed(mem[..], blocks, prev, ptr)
      modifies this, mem
      ensures Valid() && Live(blocks) == Live(old(blocks)) && Untouched(old(mem[..]), mem[..], Live(blocks))
    {
      hide WellFormed, LinksStored, SizesStored, Mark, Join, Live, Aligned, IsNextFree, Tiled, CoalescedBut;
      ghost var m1, b1 := mem[..], blocks;
      FrontIsPrev(m1, b1, prev, ptr);
      if prev + mem[prev / 4] * NODE == ptr {
        FreeJoinFront(m1, b1, prev, ptr);
        mem[prev / 4] := mem[prev / 4] + mem[ptr / 4];
        mem[prev / 4 + 1] := mem[ptr / 4 + 1];
        assert mem[..] == SetNext(SetSize(m1, prev, b1[prev].units + b1[ptr].units), prev, NextAt(m1, ptr));
        blocks := Join(b1, prev);
        NodeLeaves(m1, b1, prev, b1[prev].units + b1[ptr].units, NextAt(m1, ptr));
      } else {
        LinkFront(m1, b1, prev, ptr);
        mem[prev / 4 + 1] := ptr;
        assert mem[..] == SetNext(m1, prev, ptr);
        LinkLeaves(m1, b1, prev, ptr);
      }
    }

    /** The owner of a block may write anything behind its list node. */
    method Write(mp: int, word: nat, v: int)
      requires Valid() && mp - NODE in Live(blocks) && 2 <= word < 2 * Live(blocks)[mp - NODE]
      modifies mem
      ensures Valid() && mem[..] == old(mem[..])[(mp - NODE) / 4 + word := v]
    {
      hide WellFormed, LinksStored, SizesStored, Live;
      PayloadWrite(mem[..], blocks, mp - NODE, word, v);
      ghost var m0 := mem[..];
      mem[(mp - NODE) / 4 + word] := v;
      assert mem[..] == m0[(mp - NODE) / 4 + word := v];
    }
  }

  lemma StoredLink(mem: seq<int>, b: Blocks, p: int)
    requires WellFormed(b) && Stored(mem, b) && IsListNode(b, p)
    ensures HEADER <= p && Inside(p) && IsNextFree(b, p, mem[p / 4 + 1])
  {
    AllInside(b);
  }

  lemma HeaderFirst(b: Blocks)
    requires WellFormed(b)
    ensures forall q :: IsFree(b, q) ==> HEADER < q
  {
    AllInside(b);
  }

  lemma LiveBlock(mem: seq<int>, b: Blocks, p: int)
    requires WellFormed(b) && Stored(mem, b) && p in Live(b)
    ensures p in b && !b[p].free && HEADER < p && Inside(p) && mem[p / 4] == b[p].units
  {
    AllInside(b);
  }

  lemma StoredSize(mem: seq<int>, b: Blocks, p: int)
    requires Stored(mem, b) && p in b
    ensures Inside(p) && mem[p / 4] == b[p].units
  {}

  /** No list node lies strictly inside a live block. */
  lemma PayloadWrite(mem: seq<int>, b: Blocks, p: int, word: nat, v: int)
    requires WellFormed(b) && Stored(mem, b) && p in Live(b) && 2 <= word < 2 * Live(b)[p]
    ensures HEADER < p && p / 4 + word < WORDS && Stored(mem[p / 4 + word := v], b)
  {
    AllInside(b);
    assert Placed(b, p);
    var mem' := mem[p / 4 + word := v];
    forall q | q in b || q == HEADER
      ensures Inside(q) && SizeAt(mem', q) == SizeAt(mem, q) && NextAt(mem', q) == NextAt(mem, q)
    {
      PayloadApart(b, p, word, q);
    }
  }

  lemma PayloadApart(b: Blocks, p: int, word: nat, q: int)
    requires Tiled(b) && p in b && 2 <= word < 2 * b[p].units && (q in b || q == HEADER)
    ensures Inside(q) && q / 4 != p / 4 + word && q / 4 + 1 != p / 4 + word
  {
    AllInside(b);
    assert Placed(b, p);
    if q in b {
      assert q < p ==> End(b, q) <= p && Placed(b, q);
      assert p < q ==> End(b, p) <= q;
    }
  }
}
