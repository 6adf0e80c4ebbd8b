/** What negative road lengths do (shortest_path/shortest_path.cpp, lines 46 and 105). */
module NegativeRoads {
  import opened Options
  import opened ShortestPath
  import opened FloydExact
  import opened FloydText
  import opened ShortestRoute

  // ----- one negative road

  lemma Places(n: nat)
    requires n == 2
    ensures forall i: nat, j: nat :: i < n && j < n ==> Idx(n, i, j) == i * 2 + j
  {
    hide Idx;
    forall i: nat, j: nat | i < n && j < n ensures Idx(n, i, j) == i * 2 + j { IdxIsRowMajor(n, i, j); }
  }

  lemma FirstCity(l: Int)
    requires INT_MIN < l < 0
    ensures After([INT_MAX, l, INT_MAX, INT_MAX], 2, 1, 0, 0)
         == Tables([INT_MAX, l, INT_MAX, INT_MAX + l], [-1, -1, -1, 0])
  {
    hide Idx, Wrap;
    Places(2);
    GuardOnAnyInts(INT_MAX, INT_MAX);
    GuardOnAnyInts(INT_MAX, l);
    var g: seq<Int> := [INT_MAX, l, INT_MAX, INT_MAX];
    var t := Tables(g, [-1, -1, -1, -1]);
    assert After(g, 2, 0, 0, 0) == t;
    assert After(g, 2, 0, 0, 1) == t;
    assert After(g, 2, 0, 0, 2) == t;
    assert After(g, 2, 0, 1, 0) == t;
    assert After(g, 2, 0, 1, 1) == t;
    assert After(g, 2, 0, 1, 2) == Tables([INT_MAX, l, INT_MAX, INT_MAX + l], [-1, -1, -1, 0]);
    assert After(g, 2, 1, 0, 0) == After(g, 2, 0, 2, 0) == After(g, 2, 0, 1, 2);
  }

  lemma SecondCity(l: Int)
    requires INT_MIN < l < 0
    ensures After([INT_MAX, l, INT_MAX, INT_MAX], 2, 1, 1, 0)
         == Tables([INT_MAX + l, l, INT_MAX, INT_MAX + l], [1, -1, -1, 0])
  {
    hide Idx, Wrap;
    Places(2);
    FirstCity(l);
    GuardOnAnyInts(INT_MAX, l);
    GuardOnAnyInts(l, INT_MAX + l);
    var g: seq<Int> := [INT_MAX, l, INT_MAX, INT_MAX];
    var t := Tables([INT_MAX + l, l, INT_MAX, INT_MAX + l], [1, -1, -1, 0]);
    assert After(g, 2, 1, 0, 1) == t;
    assert After(g, 2, 1, 0, 2) == t;
  }

  lemma Refused(t: Tables, n: nat, k: nat, i: nat, j: nat)
    requires Sized(t, n) && k < n && i < n && j < n
    requires !(0 <= Wrap(At(t.dist, n, i, k) + At(t.dist, n, k, j)) < At(t.dist, n, i, j))
    ensures Visit(t, n, k, i, j) == t
  {}

  lemma OneRoadFinished(l: Int)
    requires INT_MIN < l < 0
    ensures Finished([INT_MAX, l, INT_MAX, INT_MAX], 2)
         == Tables([INT_MAX + l, l, INT_MAX, INT_MAX + l], [1, -1, -1, 0])
  {
    hide Idx, Wrap, Visit;
    Places(2);
    SecondCity(l);
    GuardOnAnyInts(INT_MAX + l, INT_MAX);
    GuardOnAnyInts(INT_MAX + l, INT_MAX + l);
    var g: seq<Int> := [INT_MAX, l, INT_MAX, INT_MAX];
    var t := Tables([INT_MAX + l, l, INT_MAX, INT_MAX + l], [1, -1, -1, 0]);
    Refused(t, 2, 1, 1, 0);
    Refused(t, 2, 1, 1, 1);
    assert After(g, 2, 1, 1, 1) == t && After(g, 2, 1, 1, 2) == t && After(g, 2, 1, 2, 0) == t;
  }

  ghost function OneRoadList(l: Int): seq<Line> {
    [Line("A", "B", l)]
  }

  lemma OneRoadGraph(l: Int)
    ensures Order(OneRoadList(l)) == ["A", "B"] && Graph(OneRoadList(l)) == [INT_MAX, l, INT_MAX, INT_MAX]
  {
    hide Idx, Graph;
    var lines, order, g := OneRoadList(l), Order(OneRoadList(l)), Graph(OneRoadList(l));
    assert lines[..0] == [];
    assert order == Enter(Enter([], "A"), "B") == ["A", "B"];
    Places(|order|);
    var n := |order|;
    assert At(g, n, 0, 0) == LastLength(lines, "A", "A") == INT_MAX;
    assert At(g, n, 0, 1) == LastLength(lines, "A", "B") == l;
    assert At(g, n, 1, 0) == LastLength(lines, "B", "A") == INT_MAX;
    assert At(g, n, 1, 1) == LastLength(lines, "B", "B") == INT_MAX;
  }

  lemma NoWayBack(g: seq<Int>, n: nat, y: nat, l: Int)
    requires n == 2 && g == [INT_MAX, l, INT_MAX, INT_MAX]
    ensures forall w :: !Joins(g, n, w, 1, y)
  {
    hide Idx;
    Places(n);
    forall w | IsWalk(g, n, w) ensures w[0] != 1 { assert Road(g, n, w, 0); }
  }

  lemma InventedText(t: Tables, n: nat, names: seq<string>, l: Int)
    requires n == 2 && INT_MIN < l < 0 && names == ["A", "B"]
    requires t == Tables([INT_MAX + l, l, INT_MAX, INT_MAX + l], [1, -1, -1, 0])
    ensures Hops(t, n) && ReplyTo(t, n, names, 1, 1) == Found("Bno pathA B", INT_MAX + l)
  {
    hide Idx;
    Places(n);
    var pending: set<(nat, nat)> := {};
    assert Path(t, n, names, 1, 0, pending + {(1, 1)}) == Some(NO_PATH);
    assert Path(t, n, names, 0, 1, pending + {(1, 1)}) == Some(" ");
    assert Path(t, n, names, 1, 1, pending) == Some(NO_PATH + "A" + " ");
  }

  /** With one road from A to B, of whatever negative length above INT_MIN, the table ends up with a
      way from B to B, although no road leaves B, and the path printed has "no path" inside. */
  lemma OneNegativeRoad(l: Int)
    requires INT_MIN < l < 0
    ensures var g: seq<Int> := [INT_MAX, l, INT_MAX, INT_MAX];
            && Order(OneRoadList(l)) == ["A", "B"] && Graph(OneRoadList(l)) == g
            && At(Finished(g, 2).dist, 2, 1, 1) == INT_MAX + l && (forall w :: !Joins(g, 2, w, 1, 1))
    ensures Answers(OneRoadList(l), [Question("B", "B")]) == [Given(Found("Bno pathA B", INT_MAX + l))]
  {
    hide Finished, Order, Graph, ReplyTo, Joins, Hops, Answers;
    var lines, order := OneRoadList(l), Order(OneRoadList(l));
    OneRoadGraph(l);
    OneRoadFinished(l);
    Places(2);
    NoWayBack(Graph(lines), 2, 1, l);
    InventedText(Finished(Graph(lines), 2), 2, order, l);
    assert lines[0].dest == "B";
    FirstAnswer(lines, Question("B", "B"));
    assert order[1] == "B" && order[0] != "B";
  }

  // ----- a recursion without end

  ghost function LoopList(): seq<Line> {
    [Line("A", "A", -5), Line("A", "B", 10)]
  }

  lemma LoopGraph()
    ensures Order(LoopList()) == ["A", "B"] && Graph(LoopList()) == [-5, 10, INT_MAX, INT_MAX]
  {
    hide Idx, Graph;
    var lines, order, g := LoopList(), Order(LoopList()), Graph(LoopList());
    assert lines[..1] == [Line("A", "A", -5)] && lines[..1][..0] == [];
    assert order == Enter(Enter(Enter(Enter([], "A"), "A"), "A"), "B") == ["A", "B"];
    Places(|order|);
    var n := |order|;
    assert At(g, n, 0, 0) == LastLength(lines, "A", "A") == LastLength(lines[..1], "A", "A") == -5;
    assert At(g, n, 0, 1) == LastLength(lines, "A", "B") == 10;
    assert At(g, n, 1, 0) == LastLength(lines, "B", "A") == INT_MAX;
    assert At(g, n, 1, 1) == LastLength(lines, "B", "B") == INT_MAX;
  }

  lemma LoopStarts(g: seq<Int>, n: nat)
    requires n == 2 && g == [-5, 10, INT_MAX, INT_MAX]
    ensures At(Finished(g, n).dist, n, 0, 1) <= 5 && Hop(Finished(g, n).next, n, 0, 1) != -1
  {
    hide Idx, Visit, Wrap, Hop;
    Places(n);
    var t := After(g, n, 0, 0, 0);
    VisitEffect(t, n, 0, 0, 0, 0, 0);
    VisitEffect(t, n, 0, 0, 0, 0, 1);
    VisitEffect(After(g, n, 0, 0, 1), n, 0, 0, 1, 0, 1);
    GuardOnAnyInts(-5, -5);
    GuardOnAnyInts(-5, 10);
    OnlySmaller(g, n, 0, 0, 2, 0, 1);
    AlwaysPlain(g, n, n, 0, 0, 0, 1);
  }

  /** With a road of length -5 from A to A and one of length 10 from A to B, the recursion that
      spells the path from A to B never ends. */
  lemma EndlessRecursion()
    ensures Answers(LoopList(), [Question("A", "B")]) == [Given(Endless)]
  {
    hide Finished, Order, Graph, At, Hop, Answers;
    var lines, order := LoopList(), Order(LoopList());
    LoopGraph();
    LoopStarts(Graph(lines), 2);
    FloydHops(Graph(lines), 2);
    assert lines[1].src == "A" && lines[1].dest == "B";
    FirstAnswer(lines, Question("A", "B"));
    assert order[0] == "A" && order[1] == "B";
    EndlessPair(Finished(Graph(lines), 2), 2, order);
  }

  lemma EndlessPair(t: Tables, n: nat, names: seq<string>)
    requires n == 2 && Sized(t, n) && Hops(t, n) && |names| == n
    requires At(t.dist, n, 0, 1) != INT_MAX && Hop(t.next, n, 0, 1) != -1
    ensures ReplyTo(t, n, names, 0, 1) == Endless
  {
    hide At, Hop;
    var pending: set<(nat, nat)> := {};
    assert Path(t, n, names, 0, 1, pending + {(0, 1)}) == None;
  }

  // ----- which lower bounds on the lengths are enough

  ghost predicate From(lines: seq<Line>, lo: int) {
    forall t :: 0 <= t < |lines| ==> lo <= lines[t].length < INT_MAX
  }

  ghost predicate RightTable(lines: seq<Line>) {
    Right(Graph(lines), |Order(lines)|, Finished(Graph(lines), |Order(lines)|).dist)
  }

  /** All road lists with lengths from `lo` on get the right table, and all questions the right
      answer, if and only if `lo` is not negative. */
  lemma RightFromZero(lo: int)
    ensures lo >= 0 <==> forall lines :: From(lines, lo) ==> RightTable(lines)
    ensures lo >= 0 <==> forall lines :: From(lines, lo) ==> AllCorrect(lines)
  {
    hide RightTable, AllCorrect, From;
    if lo >= 0 {
      forall lines | From(lines, lo) ensures RightTable(lines) && AllCorrect(lines) { FromZero(lines, lo); }
    } else {
      MinusOne(lo);
      var lines := OneRoadList(-1);
      assert From(lines, lo) && !RightTable(lines) && !AllCorrect(lines);
    }
  }

  lemma FromZero(lines: seq<Line>, lo: int)
    requires lo >= 0 && From(lines, lo)
    ensures RightTable(lines) && AllCorrect(lines)
  {
    hide Right, AllCorrect;
    NotNegative(lines);
  }

  lemma MinusOne(lo: int)
    requires lo < 0
    ensures From(OneRoadList(-1), lo) && !RightTable(OneRoadList(-1)) && !AllCorrect(OneRoadList(-1))
  {
    hide At, Graph, Order, Finished, Joins, Length, AllCorrect, NegativeIsDirect, AllTimely, NothingInvented;
    var lines := OneRoadList(-1);
    var g, n := Graph(lines), |Order(lines)|;
    OneNegativeRoad(-1);
    assert n == 2 && !IsDistance(g, n, 1, 1, At(Finished(g, n).dist, n, 1, 1));
    FloydExactWhen(g, n);
    if AllTimely(g, n) { TimelyIsFair(g, n); }
    AnswersRightWhen(lines);
  }

  // ----- negative roads that do no harm

  ghost function Height(c: nat): int {
    if c == 0 then 0 else -5
  }

  /** Roads of length -5 there and 10 back: no walk is shorter than the drop between its ends. */
  lemma {:induction false} WalkDrops(g: seq<Int>, n: nat, w: seq<nat>)
    requires n == 2 && g == [INT_MAX, -5, 10, INT_MAX] && |w| > 0 && forall t :: 0 <= t < |w| ==> w[t] < n
    ensures Length(g, n, w) >= Height(w[|w| - 1]) - Height(w[0])
  {
    hide Idx;
    Places(n);
    if |w| > 1 { WalkDrops(g, n, w[1..]); }
  }

  lemma AllReached(g: seq<Int>, n: nat, x: nat, y: nat)
    requires n == 2 && g == [INT_MAX, -5, 10, INT_MAX] && x < n && y < n
    ensures Within(g, n, x, y, 10)
  {
    hide Idx, IsWalk, Length;
    Places(n);
    OneRoad(g, n, 0, 1);
    OneRoad(g, n, 1, 0);
    assert Within(g, n, 0, 1, -5) && Within(g, n, 1, 0, 10);
    WithinAppend(g, n, 0, 1, 0, -5, 10);
    WithinAppend(g, n, 1, 0, 1, 10, -5);
    var v := if x == y then 5 else if x == 0 then -5 else 10;
    WithinMore(g, n, x, y, v, 10);
  }

  /** The condition holds for some tables with negative roads. */
  lemma ThereAndBack(g: seq<Int>, n: nat)
    requires n == 2 && g == [INT_MAX, -5, 10, INT_MAX]
    ensures NegativeIsDirect(g, n) && AllTimely(g, n) && Right(g, n, Finished(g, n).dist)
  {
    hide Idx, Length, Finished, Right;
    Places(n);
    forall w | IsWalk(g, n, w) && Length(g, n, w) < 0
      ensures At(g, n, w[0], w[|w| - 1]) <= Length(g, n, w)
    {
      WalkDrops(g, n, w);
    }
    forall x: nat, k: nat, y: nat | x < n && k < n && y < n ensures Timely(g, n, x, k, y) {
      AllReached(g, n, x, k);
      AllReached(g, n, k, y);
      WithinMore(g, n, x, k, 10, INT_MAX - 1);
      WithinMore(g, n, k, y, 10, INT_MAX - 1);
    }
    TimelyIsFair(g, n);
    SoundIsRight(g, n);
  }

  lemma SecondRoad(g: seq<Int>, n: nat, w: seq<nat>)
    requires |g| == n * n && IsWalk(g, n, w) && |w| > 2
    ensures At(g, n, w[1], w[2]) < INT_MAX
  {
    assert Road(g, n, w, 1);
  }

  /** So it does for a single road of length INT_MIN, which added to INT_MAX is negative. */
  lemma LowestRoad(g: seq<Int>, n: nat)
    requires n == 2 && g == [INT_MAX, INT_MIN, INT_MAX, INT_MAX]
    ensures NegativeIsDirect(g, n) && AllTimely(g, n) && Right(g, n, Finished(g, n).dist)
  {
    hide Idx, Length, Finished, Right;
    Places(n);
    forall w | IsWalk(g, n, w) ensures w == [0, 1] {
      assert Road(g, n, w, 0);
      if |w| > 2 { SecondRoad(g, n, w); }
    }
    OneRoad(g, n, 0, 1);
    TimelyIsFair(g, n);
    SoundIsRight(g, n);
  }
}
