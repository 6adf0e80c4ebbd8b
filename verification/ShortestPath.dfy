/** All-pairs shortest paths over named cities (shortest_path/shortest_path.cpp): the road list, the
    tables and the loops that fill them.

    Distances are 32-bit integers with INT_MAX standing for "no road"; sums wrap around.
    Matrices are stored row by row in flat arrays, as in the program. */
module ShortestPath {

  const INT_MAX: int := 0x7fff_ffff
  const INT_MIN: int := -0x8000_0000

  type Int = x: int | INT_MIN <= x <= INT_MAX

  /** The value of a sum held in a 32-bit two's complement integer. */
  function Wrap(x: int): (v: int)
    ensures INT_MIN <= v <= INT_MAX
  {
    (x + 0x8000_0000) % 0x1_0000_0000 - 0x8000_0000
  }

  /** On lengths that are not negative the guard `>= 0` rejects exactly the sums that do not fit. */
  lemma WrapDetectsOverflow(a: int, b: int)
    requires 0 <= a <= INT_MAX && 0 <= b <= INT_MAX
    ensures Wrap(a + b) >= 0 <==> a + b <= INT_MAX
    ensures a + b <= INT_MAX ==> Wrap(a + b) == a + b
  {}

  /** With negative lengths the guard refuses negative sums that fit and accepts sums that wrap
      around from below. It also accepts INT_MAX, which stands for no road, plus a negative length. */
  lemma GuardOnAnyInts(a: Int, b: Int)
    ensures Wrap(a + b) >= 0 <==> 0 <= a + b <= INT_MAX || a + b < INT_MIN
    ensures INT_MIN <= a + b <= INT_MAX ==> Wrap(a + b) == a + b
    ensures INT_MIN < b < 0 ==> 0 <= Wrap(INT_MAX + b) < INT_MAX
  {}

  // ----- flat matrices

  /** Where row `i` of a table with rows of length `n` begins. */
  function RowStart(n: nat, i: nat): nat {
    if i == 0 then 0 else RowStart(n, i - 1) + n
  }

  lemma {:induction false} RowStartIsProduct(n: nat, i: nat)
    ensures RowStart(n, i) == i * n
  {
    if i > 0 {
      RowStartIsProduct(n, i - 1);
      assert i * n == (i - 1) * n + n;
    }
  }

  lemma {:induction false} RowsApart(n: nat, i: nat, i': nat)
    requires i < i'
    ensures RowStart(n, i) + n <= RowStart(n, i')
  {
    if i + 1 < i' { RowsApart(n, i, i' - 1); }
  }

  function Idx(n: nat, i: nat, j: nat): (r: nat)
    requires i < n && j < n
    ensures r < n * n
  {
    RowsApart(n, i, n);
    RowStartIsProduct(n, n);
    RowStart(n, i) + j
  }

  /** The program's index i * n + j. */
  lemma IdxIsRowMajor(n: nat, i: nat, j: nat)
    requires i < n && j < n
    ensures Idx(n, i, j) == i * n + j
  {
    RowStartIsProduct(n, i);
  }

  lemma IdxInjective(n: nat, i: nat, j: nat, i': nat, j': nat)
    requires i < n && j < n && i' < n && j' < n && Idx(n, i, j) == Idx(n, i', j')
    ensures i == i' && j == j'
  {
    if i < i' {
      RowsApart(n, i, i');
    } else if i' < i {
      RowsApart(n, i', i);
    }
  }

  function At(d: seq<Int>, n: nat, i: nat, j: nat): (v: int)
    requires |d| == n * n && i < n && j < n
    ensures INT_MIN <= v <= INT_MAX
  {
    d[Idx(n, i, j)]
  }

  function Hop(next: seq<int>, n: nat, i: nat, j: nat): int
    requires |next| == n * n && i < n && j < n
  {
    next[Idx(n, i, j)]
  }

  lemma AtUpdate(d: seq<Int>, n: nat, i: nat, j: nat, v: Int, i': nat, j': nat)
    requires |d| == n * n && i < n && j < n && i' < n && j' < n
    ensures At(d[Idx(n, i, j) := v], n, i', j') == if i == i' && j == j' then v else At(d, n, i', j')
  {
    hide Idx;
    if Idx(n, i, j) == Idx(n, i', j') { IdxInjective(n, i, j, i', j'); }
  }

  lemma HopUpdate(next: seq<int>, n: nat, i: nat, j: nat, v: int, i': nat, j': nat)
    requires |next| == n * n && i < n && j < n && i' < n && j' < n
    ensures Hop(next[Idx(n, i, j) := v], n, i', j') == if i == i' && j == j' then v else Hop(next, n, i', j')
  {
    hide Idx;
    if Idx(n, i, j) == Idx(n, i', j') { IdxInjective(n, i, j, i', j'); }
  }

  // ----- walks

  ghost predicate Road(g: seq<Int>, n: nat, w: seq<nat>, t: nat)
    requires |g| == n * n && t + 1 < |w| && w[t] < n && w[t + 1] < n
  {
    At(g, n, w[t], w[t + 1]) < INT_MAX
  }

  /** A walk with at least one edge, given by the cities it visits. */
  ghost predicate IsWalk(g: seq<Int>, n: nat, w: seq<nat>)
    requires |g| == n * n
  {
    && |w| >= 2
    && (forall t :: 0 <= t < |w| ==> w[t] < n)
    && (forall t :: 0 <= t < |w| - 1 ==> Road(g, n, w, t))
  }

  ghost function Length(g: seq<Int>, n: nat, w: seq<nat>): int
    requires |g| == n * n && forall t :: 0 <= t < |w| ==> w[t] < n
  {
    if |w| < 2 then 0 else At(g, n, w[0], w[1]) + Length(g, n, w[1..])
  }

  ghost predicate Joins(g: seq<Int>, n: nat, w: seq<nat>, x: nat, y: nat)
    requires |g| == n * n
  {
    IsWalk(g, n, w) && w[0] == x && w[|w| - 1] == y
  }

  /** Some walk from `x` to `y` is no longer than `v`. */
  ghost predicate Within(g: seq<Int>, n: nat, x: nat, y: nat, v: int)
    requires |g| == n * n
  {
    exists w :: Joins(g, n, w, x, y) && Length(g, n, w) <= v
  }

  /** `dist` is the smaller of INT_MAX and the length of a shortest non-empty walk. */
  ghost predicate IsDistance(g: seq<Int>, n: nat, x: nat, y: nat, dist: Int)
    requires |g| == n * n
  {
    && (forall w :: Joins(g, n, w, x, y) ==> Length(g, n, w) >= dist)
    && (dist < INT_MAX ==> exists w :: Joins(g, n, w, x, y) && Length(g, n, w) == dist)
  }

  lemma {:induction false} LengthAppend(g: seq<Int>, n: nat, u: seq<nat>, v: seq<nat>)
    requires |g| == n * n && |u| > 0 && |v| > 0 && u[|u| - 1] == v[0]
    requires (forall t :: 0 <= t < |u| ==> u[t] < n) && (forall t :: 0 <= t < |v| ==> v[t] < n)
    ensures Length(g, n, u + v[1..]) == Length(g, n, u) + Length(g, n, v)
  {
    hide At;
    if |u| == 1 {
      assert u + v[1..] == v;
    } else {
      assert (u + v[1..])[1..] == u[1..] + v[1..];
      LengthAppend(g, n, u[1..], v);
    }
  }

  lemma WalksAppend(g: seq<Int>, n: nat, u: seq<nat>, v: seq<nat>)
    requires |g| == n * n && IsWalk(g, n, u) && IsWalk(g, n, v) && u[|u| - 1] == v[0]
    ensures IsWalk(g, n, u + v[1..])
    ensures Length(g, n, u + v[1..]) == Length(g, n, u) + Length(g, n, v)
  {
    hide At, Length;
    LengthAppend(g, n, u, v);
    var w := u + v[1..];
    forall t | 0 <= t < |w| - 1 ensures Road(g, n, w, t) {
      if t < |u| - 1 {
        assert Road(g, n, u, t);
      } else {
        assert Road(g, n, v, t - |u| + 1);
      }
    }
  }

  /** A walk cut in two at one of the cities in between. */
  lemma WalkSplit(g: seq<Int>, n: nat, w: seq<nat>, p: nat)
    requires |g| == n * n && IsWalk(g, n, w) && 0 < p < |w| - 1
    ensures IsWalk(g, n, w[..p + 1]) && IsWalk(g, n, w[p..])
    ensures Length(g, n, w) == Length(g, n, w[..p + 1]) + Length(g, n, w[p..])
  {
    hide At, Length;
    var u, v := w[..p + 1], w[p..];
    forall t | 0 <= t < |u| - 1 ensures Road(g, n, u, t) { assert Road(g, n, w, t); }
    forall t | 0 <= t < |v| - 1 ensures Road(g, n, v, t) { assert Road(g, n, w, t + p); }
    assert u + v[1..] == w;
    LengthAppend(g, n, u, v);
  }

  lemma OneRoad(g: seq<Int>, n: nat, x: nat, y: nat)
    requires |g| == n * n && x < n && y < n
    ensures At(g, n, x, y) < INT_MAX ==> Joins(g, n, [x, y], x, y)
    ensures Length(g, n, [x, y]) == At(g, n, x, y)
  {
    hide At;
    var w := [x, y];
    assert w[1..] == [y];
    assert Length(g, n, w) == At(g, n, x, y) + Length(g, n, [y]);
    if At(g, n, x, y) < INT_MAX { assert Road(g, n, w, 0); }
  }

  // ----- the loops that fill the tables

  datatype Tables = Tables(dist: seq<Int>, next: seq<int>)

  predicate Sized(t: Tables, n: nat) {
    |t.dist| == |t.next| == n * n
  }

  /** City `k` is offered as an intermediate for entry (i, j): the body of the three loops. */
  function Visit(t: Tables, n: nat, k: nat, i: nat, j: nat): (r: Tables)
    requires Sized(t, n) && k < n && i < n && j < n
    ensures Sized(r, n)
  {
    var sum := Wrap(At(t.dist, n, i, k) + At(t.dist, n, k, j));
    if 0 <= sum < At(t.dist, n, i, j)
    then Tables(t.dist[Idx(n, i, j) := sum], t.next[Idx(n, i, j) := k])
    else t
  }

  ghost predicate Stage(n: nat, k: nat, i: nat, j: nat) {
    k <= n && i <= n && j <= n && (i == n ==> j == 0) && (k == n ==> i == 0 && j == 0)
  }

  function NoNext(n: nat): (next: seq<int>)
    ensures |next| == n * n
  {
    seq(n * n, _ => -1)
  }

  /** The tables when city `k` has been offered to the entries before (i, j) in row order. */
  ghost function After(g: seq<Int>, n: nat, k: nat, i: nat, j: nat): (t: Tables)
    requires |g| == n * n && Stage(n, k, i, j)
    ensures Sized(t, n)
    decreases k, i, j
  {
    if j > 0 then Visit(After(g, n, k, i, j - 1), n, k, i, j - 1)
    else if i > 0 then After(g, n, k, i - 1, n)
    else if k > 0 then After(g, n, k - 1, n, 0)
    else Tables(g, NoNext(n))
  }

  /** The tables that the loops leave. */
  ghost function Finished(g: seq<Int>, n: nat): (t: Tables)
    requires |g| == n * n
    ensures Sized(t, n)
  {
    After(g, n, n, 0, 0)
  }

  lemma VisitEffect(t: Tables, n: nat, k: nat, i: nat, j: nat, x: nat, y: nat)
    requires Sized(t, n) && k < n && i < n && j < n && x < n && y < n
    ensures var r := Visit(t, n, k, i, j);
            var sum := Wrap(At(t.dist, n, i, k) + At(t.dist, n, k, j));
            if x == i && y == j && 0 <= sum < At(t.dist, n, i, j)
            then At(r.dist, n, x, y) == sum && Hop(r.next, n, x, y) == k
            else At(r.dist, n, x, y) == At(t.dist, n, x, y) && Hop(r.next, n, x, y) == Hop(t.next, n, x, y)
  {
    hide At, Hop, Idx, Wrap;
    var sum := Wrap(At(t.dist, n, i, k) + At(t.dist, n, k, j));
    if 0 <= sum < At(t.dist, n, i, j) {
      AtUpdate(t.dist, n, i, j, sum, x, y);
      HopUpdate(t.next, n, i, j, k, x, y);
    }
  }

  // ----- the road list

  datatype Line = Line(src: string, dest: string, length: Int)
  datatype Edge = Edge(src: nat, dest: nat, length: Int)

  /** The length given by the last line from `a` to `b`, INT_MAX when there is none. */
  ghost function LastLength(lines: seq<Line>, a: string, b: string): Int {
    if lines == [] then INT_MAX
    else
      var last := lines[|lines| - 1];
      if last.src == a && last.dest == b then last.length else LastLength(lines[..|lines| - 1], a, b)
  }

  ghost predicate IsCity(lines: seq<Line>, c: string) {
    exists t :: 0 <= t < |lines| && (lines[t].src == c || lines[t].dest == c)
  }

  function Enter(order: seq<string>, c: string): seq<string> {
    if c in order then order else order + [c]
  }

  /** The cities in the order in which they appear; their places are their numbers. */
  ghost function Order(lines: seq<Line>): seq<string> {
    if lines == [] then []
    else
      var last := lines[|lines| - 1];
      Enter(Enter(Order(lines[..|lines| - 1]), last.src), last.dest)
  }

  ghost predicate Distinct(order: seq<string>) {
    forall i, j :: 0 <= i < j < |order| ==> order[i] != order[j]
  }

  lemma {:induction false} CityOfPrefix(lines: seq<Line>, c: string)
    requires lines != []
    ensures var k := |lines| - 1;
            IsCity(lines, c) <==> IsCity(lines[..k], c) || c == lines[k].src || c == lines[k].dest
  {
    var k := |lines| - 1;
    if IsCity(lines[..k], c) {
      var t :| 0 <= t < k && (lines[..k][t].src == c || lines[..k][t].dest == c);
      assert lines[t].src == c || lines[t].dest == c;
    }
    if IsCity(lines, c) && c != lines[k].src && c != lines[k].dest {
      var t :| 0 <= t < |lines| && (lines[t].src == c || lines[t].dest == c);
      assert lines[..k][t] == lines[t];
    }
  }

  lemma {:induction false} OrderListsCities(lines: seq<Line>)
    ensures Distinct(Order(lines)) && forall c :: c in Order(lines) <==> IsCity(lines, c)
  {
    if lines != [] {
      var k := |lines| - 1;
      OrderListsCities(lines[..k]);
      forall c ensures c in Order(lines) <==> IsCity(lines, c) {
        assert c in Order(lines) <==> c in Order(lines[..k]) || c == lines[k].src || c == lines[k].dest;
        CityOfPrefix(lines, c);
      }
    }
  }

  /** The two tables that `order` stands for. */
  ghost predicate Numbering(cityId: map<string, nat>, idCity: map<nat, string>, order: seq<string>) {
    && |cityId| == |order| && (forall c :: c in cityId <==> c in order)
    && (forall i: nat :: i in idCity <==> i < |order|)
    && (forall i: nat :: i < |order| ==> Numbers(cityId, idCity, order[i], i))
  }

  ghost predicate Numbers(cityId: map<string, nat>, idCity: map<nat, string>, c: string, i: nat) {
    c in cityId && i in idCity && cityId[c] == i && idCity[i] == c
  }

  lemma NumberingGrows(cityId: map<string, nat>, idCity: map<nat, string>, order: seq<string>, city: string)
    requires Numbering(cityId, idCity, order) && city !in order
    ensures Numbering(cityId[city := |order|], idCity[|order| := city], order + [city])
  {
    var cityId', idCity', order' := cityId[city := |order|], idCity[|order| := city], order + [city];
    assert |cityId'| == |cityId| + 1;
    forall i: nat | i < |order'| ensures Numbers(cityId', idCity', order'[i], i) {
      if i < |order| { assert Numbers(cityId, idCity, order[i], i) && order[i] in order; }
    }
  }

  method NumberCity(cityId: map<string, nat>, idCity: map<nat, string>, ghost order: seq<string>, city: string)
      returns (cityId': map<string, nat>, idCity': map<nat, string>)
    requires Numbering(cityId, idCity, order)
    ensures Numbering(cityId', idCity', Enter(order, city))
  {
    cityId', idCity' := cityId, idCity;
    if city !in cityId {
      var id := |cityId|;
      idCity' := idCity[id := city];
      cityId' := cityId[city := id];
      NumberingGrows(cityId, idCity, order, city);
    }
  }

  /** The lines with numbers for names. */
  ghost predicate Translated(edges: seq<Edge>, lines: seq<Line>, order: seq<string>) {
    |edges| == |lines| && forall t :: 0 <= t < |lines| ==> TranslatedAt(edges[t], lines[t], order)
  }

  ghost predicate TranslatedAt(e: Edge, l: Line, order: seq<string>) {
    && e.src < |order| && e.dest < |order| && order[e.src] == l.src && order[e.dest] == l.dest
    && e.length == l.length
  }

  lemma TranslatedSnoc(edges: seq<Edge>, lines: seq<Line>, t: nat, e: Edge, order: seq<string>, order': seq<string>)
    requires t < |lines| && Translated(edges, lines[..t], order) && order <= order' && TranslatedAt(e, lines[t], order')
    ensures Translated(edges + [e], lines[..t + 1], order')
  {
    forall u | 0 <= u < t ensures TranslatedAt(edges[u], lines[u], order') {
      assert lines[..t][u] == lines[u] && TranslatedAt(edges[u], lines[u], order);
    }
  }

  lemma OrderStep(lines: seq<Line>, t: nat)
    requires t < |lines|
    ensures Order(lines[..t + 1]) == Enter(Enter(Order(lines[..t]), lines[t].src), lines[t].dest)
    ensures Order(lines[..t]) <= Order(lines[..t + 1])
    ensures lines[t].src in Order(lines[..t + 1]) && lines[t].dest in Order(lines[..t + 1])
  {
    assert lines[..t + 1][..t] == lines[..t];
  }

  /** Numbers the cities in order of appearance; gives up at a length of INT_MAX. */
  method ReadLines(lines: seq<Line>)
      returns (ok: bool, cityId: map<string, nat>, idCity: map<nat, string>, edges: seq<Edge>)
    ensures ok <==> forall t :: 0 <= t < |lines| ==> lines[t].length < INT_MAX
    ensures ok ==> Numbering(cityId, idCity, Order(lines)) && Translated(edges, lines, Order(lines))
  {
    hide Numbering, Translated, Order, Enter;
    cityId, idCity, edges := EmptyNumbering();
    for t := 0 to |lines|
      invariant Numbering(cityId, idCity, Order(lines[..t])) && Translated(edges, lines[..t], Order(lines[..t]))
      invariant forall u :: 0 <= u < t ==> lines[u].length < INT_MAX
    {
      if lines[t].length >= INT_MAX { return false, cityId, idCity, edges; }
      ghost var order := Order(lines[..t]);
      OrderStep(lines, t);
      cityId, idCity := NumberCity(cityId, idCity, order, lines[t].src);
      cityId, idCity := NumberCity(cityId, idCity, Enter(order, lines[t].src), lines[t].dest);
      ghost var order' := Order(lines[..t + 1]);
      CityNumber(cityId, idCity, order', lines[t].src);
      CityNumber(cityId, idCity, order', lines[t].dest);
      var e := Edge(cityId[lines[t].src], cityId[lines[t].dest], lines[t].length);
      TranslatedSnoc(edges, lines, t, e, order, order');
      edges := edges + [e];
    }
    assert lines[..|lines|] == lines;
    ok := true;
  }

  lemma CityNumber(cityId: map<string, nat>, idCity: map<nat, string>, order: seq<string>, c: string)
    requires Numbering(cityId, idCity, order)
    ensures c in cityId <==> c in order
    ensures c in cityId ==>
              cityId[c] < |order| && order[cityId[c]] == c && cityId[c] in idCity && idCity[cityId[c]] == c
  {
    if c in order {
      var i: nat :| i < |order| && order[i] == c;
      assert Numbers(cityId, idCity, order[i], i);
    }
  }

  method EmptyNumbering() returns (cityId: map<string, nat>, idCity: map<nat, string>, edges: seq<Edge>)
    ensures Numbering(cityId, idCity, Order([])) && Translated(edges, [], Order([]))
  {
    cityId, idCity, edges := map[], map[], [];
  }

  // ----- the matrix

  /** Every entry INT_MAX, then the edges in order. */
  ghost function Filled(n: nat, edges: seq<Edge>): (d: seq<Int>)
    requires forall t :: 0 <= t < |edges| ==> edges[t].src < n && edges[t].dest < n
    ensures |d| == n * n
  {
    if edges == [] then seq(n * n, _ => INT_MAX)
    else
      var last := edges[|edges| - 1];
      Filled(n, edges[..|edges| - 1])[Idx(n, last.src, last.dest) := last.length]
  }

  /** Entry (i, j) is the last road from city `i` to city `j`. */
  ghost predicate Tabled(g: seq<Int>, lines: seq<Line>, order: seq<string>) {
    && |g| == |order| * |order|
    && forall i: nat, j: nat :: i < |order| && j < |order| ==>
         At(g, |order|, i, j) == LastLength(lines, order[i], order[j])
  }

  lemma {:induction false} FilledIsTabled(edges: seq<Edge>, lines: seq<Line>, order: seq<string>)
    requires Translated(edges, lines, order) && Distinct(order)
    ensures forall t :: 0 <= t < |edges| ==> edges[t].src < |order| && edges[t].dest < |order|
    ensures Tabled(Filled(|order|, edges), lines, order)
  {
    hide Idx;
    var n := |order|;
    forall t | 0 <= t < |edges| ensures edges[t].src < n && edges[t].dest < n {
      assert TranslatedAt(edges[t], lines[t], order);
    }
    if edges != [] {
      var k := |edges| - 1;
      var e := edges[k];
      assert TranslatedAt(e, lines[k], order);
      FilledIsTabled(edges[..k], lines[..k], order);
      var d := Filled(n, edges[..k]);
      forall i: nat, j: nat | i < n && j < n
        ensures At(Filled(n, edges), n, i, j) == LastLength(lines, order[i], order[j])
      {
        AtUpdate(d, n, e.src, e.dest, e.length, i, j);
        assert At(d, n, i, j) == LastLength(lines[..k], order[i], order[j]);
      }
    }
  }

  ghost function Find(order: seq<string>, c: string): (i: nat)
    requires c in order
    ensures i < |order| && order[i] == c
  {
    if order[0] == c then 0 else 1 + Find(order[1..], c)
  }

  lemma LinesInOrder(lines: seq<Line>)
    ensures forall t :: 0 <= t < |lines| ==> lines[t].src in Order(lines) && lines[t].dest in Order(lines)
  {
    OrderListsCities(lines);
    forall t | 0 <= t < |lines| ensures lines[t].src in Order(lines) && lines[t].dest in Order(lines) {
      assert IsCity(lines, lines[t].src) && IsCity(lines, lines[t].dest);
    }
  }

  ghost function EdgesOf(lines: seq<Line>): seq<Edge> {
    LinesInOrder(lines);
    seq(|lines|, t requires 0 <= t < |lines| =>
      Edge(Find(Order(lines), lines[t].src), Find(Order(lines), lines[t].dest), lines[t].length))
  }

  lemma EdgesAreTranslated(lines: seq<Line>, edges: seq<Edge>)
    ensures Translated(EdgesOf(lines), lines, Order(lines))
    ensures Translated(edges, lines, Order(lines)) ==> edges == EdgesOf(lines)
  {
    var order := Order(lines);
    OrderListsCities(lines);
    LinesInOrder(lines);
    var found := EdgesOf(lines);
    forall t | 0 <= t < |lines| ensures TranslatedAt(found[t], lines[t], order) {}
    if Translated(edges, lines, order) {
      forall t | 0 <= t < |lines| ensures edges[t] == found[t] { assert TranslatedAt(edges[t], lines[t], order); }
    }
  }

  /** The matrix of the road list. */
  ghost function Graph(lines: seq<Line>): (g: seq<Int>)
    ensures Tabled(g, lines, Order(lines))
  {
    var edges, order := EdgesOf(lines), Order(lines);
    EdgesAreTranslated(lines, edges);
    OrderListsCities(lines);
    FilledIsTabled(edges, lines, order);
    Filled(|order|, edges)
  }

  class CityGraph {
    var cityId: map<string, nat>
    var idCity: map<nat, string>
    var nvertices: nat
    var dist: array<Int>
    var next: array<int>

    constructor ()
      ensures nvertices == 0 && dist.Length == next.Length == 0 && cityId == map[] && idCity == map[]
      ensures fresh(dist) && fresh(next)
    {
      cityId, idCity, nvertices := map[], map[], 0;
      dist, next := new Int[0], new int[0];
    }

    /** Reads the road list. A line with a length of INT_MAX makes the program give up. */
    method BuildGraph(lines: seq<Line>) returns (ok: bool)
      modifies this
      ensures ok <==> forall t :: 0 <= t < |lines| ==> lines[t].length < INT_MAX
      ensures ok ==> Numbering(cityId, idCity, Order(lines)) && nvertices == |Order(lines)|
      ensures ok ==> fresh(dist) && fresh(next) && dist[..] == Graph(lines) && next[..] == NoNext(nvertices)
    {
      hide Numbering, Filled, Translated, Tabled, Order, EdgesOf;
      var edges;
      ok, cityId, idCity, edges := ReadLines(lines);
      if !ok { return; }
      nvertices := |cityId|;
      assert nvertices == |Order(lines)| by { NumberingSize(cityId, idCity, Order(lines)); }
      OrderListsCities(lines);
      FilledIsTabled(edges, lines, Order(lines));
      EdgesAreTranslated(lines, edges);
      FillTables(edges);
    }

    /** The matrix set-up. */
    method FillTables(edges: seq<Edge>)
      requires forall t :: 0 <= t < |edges| ==> edges[t].src < nvertices && edges[t].dest < nvertices
      modifies this`dist, this`next
      ensures fresh(dist) && fresh(next) && dist[..] == Filled(nvertices, edges) && next[..] == NoNext(nvertices)
    {
      var n := nvertices;
      dist := new Int[n * n](_ => INT_MAX);
      assert dist[..] == Filled(n, edges[..0]);
      for e := 0 to |edges|
        invariant fresh(dist) && dist[..] == Filled(n, edges[..e])
      {
        assert edges[..e + 1][..e] == edges[..e];
        dist[Idx(n, edges[e].src, edges[e].dest)] := edges[e].length;
      }
      assert edges[..|edges|] == edges;
      next := new int[n * n](_ => -1);
      assert next[..] == NoNext(n);
    }

    /** Offers every city to all pairs of cities, for whatever lengths the table has. */
    method Floyd()
      requires dist.Length == nvertices * nvertices && next[..] == NoNext(nvertices)
      modifies dist, next
      ensures Tables(dist[..], next[..]) == Finished(old(dist[..]), nvertices)
    {
      hide Wrap;
      var n := nvertices;
      ghost var g := dist[..];
      for k := 0 to n
        invariant Tables(dist[..], next[..]) == After(g, n, k, 0, 0)
      {
        for i := 0 to n
          invariant Tables(dist[..], next[..]) == After(g, n, k, i, 0)
        {
          for j := 0 to n
            invariant Tables(dist[..], next[..]) == After(g, n, k, i, j)
          {
            ghost var t := After(g, n, k, i, j);
            var ij, ik, kj := Idx(n, i, j), Idx(n, i, k), Idx(n, k, j);
            var sum := Wrap(dist[ik] as int + dist[kj] as int);
            if sum >= 0 && sum < dist[ij] {
              dist[ij] := sum;
              next[ij] := k;
            }
            assert Tables(dist[..], next[..]) == Visit(t, n, k, i, j);
          }
        }
      }
    }
  }

  lemma NumberingSize(cityId: map<string, nat>, idCity: map<nat, string>, order: seq<string>)
    requires Numbering(cityId, idCity, order)
    ensures |cityId| == |order|
  {}
}
