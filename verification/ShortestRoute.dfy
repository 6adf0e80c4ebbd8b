/** From the road list and the questions to the printed answers (shortest_path/shortest_path.cpp,
    lines 28-163). */
module ShortestRoute {
  import opened ShortestPath
  import opened FloydExact
  import opened FloydText

  // ----- routes, in terms of the lines that were read

  ghost predicate Leg(lines: seq<Line>, route: seq<string>, t: nat)
    requires t + 1 < |route|
  {
    LastLength(lines, route[t], route[t + 1]) < INT_MAX
  }

  /** Cities with a road from each to the next. */
  ghost predicate IsRoute(lines: seq<Line>, route: seq<string>) {
    && |route| >= 2 && (forall t :: 0 <= t < |route| ==> IsCity(lines, route[t]))
    && (forall t :: 0 <= t < |route| - 1 ==> Leg(lines, route, t))
  }

  ghost predicate Connects(lines: seq<Line>, route: seq<string>, src: string, dest: string) {
    IsRoute(lines, route) && route[0] == src && route[|route| - 1] == dest
  }

  ghost function RouteLength(lines: seq<Line>, route: seq<string>): int {
    if |route| < 2 then 0 else LastLength(lines, route[0], route[1]) + RouteLength(lines, route[1..])
  }

  /** The names, separated by blanks. */
  ghost function SpellRoute(route: seq<string>): string {
    if route == [] then "" else if |route| == 1 then route[0] else route[0] + " " + SpellRoute(route[1..])
  }

  /** `Outside`: the question is answered from entry (0, 0) of a table without entries. */
  datatype Answer = NoSuchCity | Outside | Given(reply: Reply)

  /** What the program promises about two cities. */
  ghost predicate Correct(lines: seq<Line>, src: string, dest: string, a: Answer) {
    match a
    case NoSuchCity => !IsCity(lines, src) || !IsCity(lines, dest)
    case Outside => false
    case Given(Endless) => false
    case Given(NoPath) =>
      && IsCity(lines, src) && IsCity(lines, dest)
      && forall route :: Connects(lines, route, src, dest) ==> RouteLength(lines, route) >= INT_MAX
    case Given(Found(text, length)) =>
      && length < INT_MAX
      && (forall route :: Connects(lines, route, src, dest) ==> RouteLength(lines, route) >= length)
      && (exists route ::
            Connects(lines, route, src, dest) && RouteLength(lines, route) == length && SpellRoute(route) == text)
  }

  // ----- routes are walks

  ghost function Named(order: seq<string>, w: seq<nat>): seq<string>
    requires forall t :: 0 <= t < |w| ==> w[t] < |order|
  {
    seq(|w|, t requires 0 <= t < |w| => order[w[t]])
  }

  lemma {:induction false} WalkIsRoute(lines: seq<Line>, w: seq<nat>)
    requires forall t :: 0 <= t < |w| ==> w[t] < |Order(lines)|
    ensures var g, order, route := Graph(lines), Order(lines), Named(Order(lines), w);
            && Length(g, |order|, w) == RouteLength(lines, route) && Spell(order, w) == SpellRoute(route)
            && (IsWalk(g, |order|, w) <==> IsRoute(lines, route))
  {
    hide Order, LastLength, At, Graph, IsCity;
    var g, order, n, route := Graph(lines), Order(lines), |Order(lines)|, Named(Order(lines), w);
    OrderListsCities(lines);
    forall t | 0 <= t < |w| ensures IsCity(lines, route[t]) { assert order[w[t]] in order; }
    forall t | 0 <= t < |w| - 1 ensures Road(g, n, w, t) <==> Leg(lines, route, t) {}
    assert IsWalk(g, n, w) <==> |w| >= 2 && forall t :: 0 <= t < |w| - 1 ==> Leg(lines, route, t);
    if |w| >= 2 {
      assert Named(order, w[1..]) == route[1..];
      WalkIsRoute(lines, w[1..]);
    } else if |w| == 1 {
      assert route == [order[w[0]]];
    }
  }

  lemma Renamed(lines: seq<Line>, route: seq<string>) returns (w: seq<nat>)
    requires forall t :: 0 <= t < |route| ==> IsCity(lines, route[t])
    ensures |w| == |route| && forall t :: 0 <= t < |w| ==> w[t] < |Order(lines)|
    ensures Named(Order(lines), w) == route
  {
    hide Order, IsCity;
    OrderListsCities(lines);
    w := seq(|route|, t requires 0 <= t < |route| => Find(Order(lines), route[t]));
  }

  lemma JoinsConnects(lines: seq<Line>, w: seq<nat>, i: nat, j: nat)
    requires i < |Order(lines)| && j < |Order(lines)| && forall t :: 0 <= t < |w| ==> w[t] < |Order(lines)|
    ensures var order := Order(lines);
            Joins(Graph(lines), |order|, w, i, j) <==> Connects(lines, Named(order, w), order[i], order[j])
  {
    hide Order, Graph, IsCity, Leg, Road, Length, RouteLength, Spell, SpellRoute;
    OrderListsCities(lines);
    WalkIsRoute(lines, w);
  }

  lemma BoundsAgree(lines: seq<Line>, i: nat, j: nat, v: int)
    requires i < |Order(lines)| && j < |Order(lines)|
    ensures var g, order := Graph(lines), Order(lines);
            (forall w :: Joins(g, |order|, w, i, j) ==> Length(g, |order|, w) >= v) <==>
            (forall route :: Connects(lines, route, order[i], order[j]) ==> RouteLength(lines, route) >= v)
  {
    hide Order, Graph, IsCity, Leg, Road, Length, RouteLength, Spell, SpellRoute;
    var g, order := Graph(lines), Order(lines);
    forall w | Joins(g, |order|, w, i, j)
      ensures Connects(lines, Named(order, w), order[i], order[j])
      ensures Length(g, |order|, w) == RouteLength(lines, Named(order, w))
    {
      JoinsConnects(lines, w, i, j);
      WalkIsRoute(lines, w);
    }
    forall route | Connects(lines, route, order[i], order[j])
      ensures exists w :: Joins(g, |order|, w, i, j) && Length(g, |order|, w) == RouteLength(lines, route)
    {
      var w := Renamed(lines, route);
      JoinsConnects(lines, w, i, j);
      WalkIsRoute(lines, w);
    }
  }

  lemma WitnessesAgree(lines: seq<Line>, i: nat, j: nat, length: int, text: string)
    requires i < |Order(lines)| && j < |Order(lines)|
    ensures var g, order := Graph(lines), Order(lines);
            (exists w :: Joins(g, |order|, w, i, j) && Length(g, |order|, w) == length && Spell(order, w) == text) <==>
            (exists route ::
               && Connects(lines, route, order[i], order[j])
               && RouteLength(lines, route) == length && SpellRoute(route) == text)
  {
    hide Order, Graph, IsCity, Leg, Road, Length, RouteLength, Spell, SpellRoute;
    var g, order := Graph(lines), Order(lines);
    if w :| Joins(g, |order|, w, i, j) && Length(g, |order|, w) == length && Spell(order, w) == text {
      JoinsConnects(lines, w, i, j);
      WalkIsRoute(lines, w);
      assert Connects(lines, Named(order, w), order[i], order[j]);
    }
    if route :| && Connects(lines, route, order[i], order[j])
                && RouteLength(lines, route) == length && SpellRoute(route) == text {
      var w := Renamed(lines, route);
      JoinsConnects(lines, w, i, j);
      WalkIsRoute(lines, w);
    }
  }

  /** A reply about two numbers is right for the matrix if and only if it is right for the roads. */
  lemma ToldIsCorrect(lines: seq<Line>, i: nat, j: nat, r: Reply)
    requires i < |Order(lines)| && j < |Order(lines)|
    ensures var order := Order(lines);
            Told(Graph(lines), |order|, order, i, j, r) <==> Correct(lines, order[i], order[j], Given(r))
  {
    hide Order, Graph, IsCity, Connects, Joins, Length, RouteLength, Spell, SpellRoute;
    OrderListsCities(lines);
    match r
    case Endless =>
    case NoPath => BoundsAgree(lines, i, j, INT_MAX);
    case Found(text, length) =>
      BoundsAgree(lines, i, j, length);
      WitnessesAgree(lines, i, j, length, text);
  }

  // ----- the answers

  datatype Question = Question(src: string, dest: string)

  /** What is printed for one question. */
  function Ask(t: Tables, n: nat, names: seq<string>, cityId: map<string, nat>, q: Question): Answer
    requires Sized(t, n) && Hops(t, n) && |names| == n
  {
    if q.src !in cityId || q.dest !in cityId then NoSuchCity
    else
      var i, j := cityId[q.src], cityId[q.dest];
      if i < n && j < n then Given(ReplyTo(t, n, names, i, j)) else Outside
  }

  function EnterId(cityId: map<string, nat>, c: string): map<string, nat> {
    if c in cityId then cityId else cityId[c := 0]
  }

  /** Looking up a name that is not there enters it with number 0. */
  function LookUp(cityId: map<string, nat>, q: Question): map<string, nat> {
    EnterId(EnterId(cityId, q.src), q.dest)
  }

  predicate Stops(a: Answer) {
    a == Outside || a == Given(Endless)
  }

  /** All answers; the loop ends early where the program does not come back. */
  function AskAll(t: Tables, n: nat, names: seq<string>, cityId: map<string, nat>, qs: seq<Question>): seq<Answer>
    requires Sized(t, n) && Hops(t, n) && |names| == n
    decreases |qs|
  {
    if qs == [] then []
    else
      var a := Ask(t, n, names, cityId, qs[0]);
      if Stops(a) then [a] else [a] + AskAll(t, n, names, LookUp(cityId, qs[0]), qs[1..])
  }

  ghost function Ids(order: seq<string>): map<string, nat> {
    map c | c in order :: Find(order, c)
  }

  ghost function Ready(lines: seq<Line>): (t: Tables)
    ensures Sized(t, |Order(lines)|) && Hops(t, |Order(lines)|)
  {
    FloydHops(Graph(lines), |Order(lines)|);
    Finished(Graph(lines), |Order(lines)|)
  }

  ghost function Answers(lines: seq<Line>, qs: seq<Question>): seq<Answer> {
    var order := Order(lines);
    AskAll(Ready(lines), |order|, order, Ids(order), qs)
  }

  // ----- when the answer to a first question is right

  lemma FirstAnswer(lines: seq<Line>, q: Question)
    ensures |Answers(lines, [q])| == 1
    ensures var order, a := Order(lines), Answers(lines, [q])[0];
            if IsCity(lines, q.src) && IsCity(lines, q.dest)
            then q.src in order && q.dest in order
              && a == Given(Printed(Graph(lines), |order|, order, Find(order, q.src), Find(order, q.dest)))
            else a == NoSuchCity
  {
    hide Order, Graph, IsCity, ReplyTo, Finished;
    OrderListsCities(lines);
    var order := Order(lines);
    assert AskAll(Ready(lines), |order|, order, LookUp(Ids(order), q), [q][1..]) == [];
  }

  ghost predicate AllCorrect(lines: seq<Line>) {
    forall q: Question :: |Answers(lines, [q])| == 1 && Correct(lines, q.src, q.dest, Answers(lines, [q])[0])
  }

  /** The program answers every question about the roads correctly if and only if no walk of negative
      length is shorter than the road between its ends, and no sum of INT_MAX and a negative length
      comes before the walks that it would hide. */
  lemma AnswersRightWhen(lines: seq<Line>)
    ensures AllCorrect(lines) <==>
            NegativeIsDirect(Graph(lines), |Order(lines)|) && AllTimely(Graph(lines), |Order(lines)|)
  {
    hide Order, Graph, IsCity, Correct, Told, Printed, NegativeIsDirect, AllTimely, Answers;
    var g, order, n := Graph(lines), Order(lines), |Order(lines)|;
    PathsExactWhen(g, n, order);
    OrderListsCities(lines);
    if AllTold(g, n, order) {
      forall q: Question
        ensures |Answers(lines, [q])| == 1 && Correct(lines, q.src, q.dest, Answers(lines, [q])[0])
      {
        ToldAnswer(lines, q);
      }
    }
    if AllCorrect(lines) {
      forall i: nat, j: nat | i < n && j < n ensures Told(g, n, order, i, j, Printed(g, n, order, i, j)) {
        AnswerTold(lines, i, j);
      }
    }
  }

  lemma ToldAnswer(lines: seq<Line>, q: Question)
    requires AllTold(Graph(lines), |Order(lines)|, Order(lines))
    ensures |Answers(lines, [q])| == 1 && Correct(lines, q.src, q.dest, Answers(lines, [q])[0])
  {
    hide Order, Graph, IsCity, Told, Printed, Answers, IsRoute, RouteLength;
    FirstAnswer(lines, q);
    var g, order := Graph(lines), Order(lines);
    if IsCity(lines, q.src) && IsCity(lines, q.dest) {
      var i, j := Find(order, q.src), Find(order, q.dest);
      ToldIsCorrect(lines, i, j, Printed(g, |order|, order, i, j));
    }
  }

  lemma AnswerTold(lines: seq<Line>, i: nat, j: nat)
    requires i < |Order(lines)| && j < |Order(lines)|
    requires |Answers(lines, [Question(Order(lines)[i], Order(lines)[j])])| == 1
    requires var q := Question(Order(lines)[i], Order(lines)[j]);
             Correct(lines, q.src, q.dest, Answers(lines, [q])[0])
    ensures var g, order := Graph(lines), Order(lines);
            Told(g, |order|, order, i, j, Printed(g, |order|, order, i, j))
  {
    hide Order, Graph, IsCity, Told, Printed, Answers, Correct;
    var g, order := Graph(lines), Order(lines);
    OrderListsCities(lines);
    FirstAnswer(lines, Question(order[i], order[j]));
    ToldIsCorrect(lines, i, j, Printed(g, |order|, order, i, j));
  }

  // ----- roads that are not negative

  lemma {:induction false} WalkNotNegative(g: seq<Int>, n: nat, w: seq<nat>)
    requires |g| == n * n && (forall i: nat, j: nat :: i < n && j < n ==> At(g, n, i, j) >= 0)
    requires forall t :: 0 <= t < |w| ==> w[t] < n
    ensures Length(g, n, w) >= 0
  {
    hide At;
    if |w| >= 2 { WalkNotNegative(g, n, w[1..]); }
  }

  lemma {:induction false} LengthsInRange(lines: seq<Line>, a: string, b: string)
    requires forall t :: 0 <= t < |lines| ==> lines[t].length >= 0
    ensures LastLength(lines, a, b) >= 0
  {
    if lines != [] { LengthsInRange(lines[..|lines| - 1], a, b); }
  }

  lemma NotNegative(lines: seq<Line>)
    requires forall t :: 0 <= t < |lines| ==> lines[t].length >= 0
    ensures AllCorrect(lines) && Right(Graph(lines), |Order(lines)|, Finished(Graph(lines), |Order(lines)|).dist)
  {
    hide Order, Graph, Finished, At, LastLength, Right, AllCorrect;
    var g, order, n := Graph(lines), Order(lines), |Order(lines)|;
    forall i: nat, j: nat | i < n && j < n ensures At(g, n, i, j) >= 0 { LengthsInRange(lines, order[i], order[j]); }
    forall w | IsWalk(g, n, w) ensures Length(g, n, w) >= 0 { WalkNotNegative(g, n, w); }
    AnswersRightWhen(lines);
    TimelyIsFair(g, n);
    SoundIsRight(g, n);
  }

  // ----- later questions

  /** The numbers of the names after some questions. */
  ghost function IdsAfter(cityId: map<string, nat>, qs: seq<Question>): map<string, nat>
    decreases |qs|
  {
    if qs == [] then cityId else IdsAfter(LookUp(cityId, qs[0]), qs[1..])
  }

  ghost predicate Asked(qs: seq<Question>, c: string) {
    exists t :: 0 <= t < |qs| && (qs[t].src == c || qs[t].dest == c)
  }

  lemma {:induction false} AnswerAt(t: Tables, n: nat, names: seq<string>, cityId: map<string, nat>,
                                    qs: seq<Question>, s: nat)
    requires Sized(t, n) && Hops(t, n) && |names| == n && s < |AskAll(t, n, names, cityId, qs)|
    ensures s < |qs| && AskAll(t, n, names, cityId, qs)[s] == Ask(t, n, names, IdsAfter(cityId, qs[..s]), qs[s])
    decreases |qs|
  {
    hide Ask, LookUp;
    if s > 0 {
      AnswerAt(t, n, names, LookUp(cityId, qs[0]), qs[1..], s - 1);
      assert qs[..s][1..] == qs[1..][..s - 1] && qs[..s][0] == qs[0];
    }
  }

  /** Every name that was asked for is known afterwards, the unknown ones as number 0. */
  lemma {:induction false} KnownAfter(cityId: map<string, nat>, qs: seq<Question>, c: string)
    ensures c in IdsAfter(cityId, qs) <==> c in cityId || Asked(qs, c)
    ensures c in IdsAfter(cityId, qs) ==> IdsAfter(cityId, qs)[c] == if c in cityId then cityId[c] else 0
    decreases |qs|
  {
    if qs != [] {
      KnownAfter(LookUp(cityId, qs[0]), qs[1..], c);
      AskedFirst(qs, c);
    }
  }

  lemma AskedFirst(qs: seq<Question>, c: string)
    requires qs != []
    ensures Asked(qs, c) <==> qs[0].src == c || qs[0].dest == c || Asked(qs[1..], c)
  {
    if Asked(qs[1..], c) {
      var t :| 0 <= t < |qs| - 1 && (qs[1..][t].src == c || qs[1..][t].dest == c);
      assert qs[t + 1].src == c || qs[t + 1].dest == c;
    }
    if Asked(qs, c) && qs[0].src != c && qs[0].dest != c {
      var t :| 0 <= t < |qs| && (qs[t].src == c || qs[t].dest == c);
      assert qs[1..][t - 1] == qs[t];
    }
  }

  /** A name that is no city and was not asked for before. */
  ghost predicate Unheard(lines: seq<Line>, qs: seq<Question>, c: string) {
    !IsCity(lines, c) && !Asked(qs, c)
  }

  /** Where the first questions about all cities are answered correctly, an answer in a list of
      questions is correct if and only if it is about two cities, or one of the names is no city
      and no earlier question has named it. */
  lemma LaterAnswerRightWhen(lines: seq<Line>, qs: seq<Question>, s: nat)
    requires AllCorrect(lines) && s < |Answers(lines, qs)|
    ensures s < |qs|
    ensures var q, before := qs[s], qs[..s];
            Correct(lines, q.src, q.dest, Answers(lines, qs)[s]) <==>
            || (IsCity(lines, q.src) && IsCity(lines, q.dest))
            || Unheard(lines, before, q.src) || Unheard(lines, before, q.dest)
  {
    hide Order, Graph, IsCity, Ready, ReplyTo, Asked, IdsAfter, AskAll;
    var order := Order(lines);
    AnswerAt(Ready(lines), |order|, order, Ids(order), qs, s);
    var q, before := qs[s], qs[..s];
    OrderListsCities(lines);
    KnownAfter(Ids(order), before, q.src);
    KnownAfter(Ids(order), before, q.dest);
    if IsCity(lines, q.src) && IsCity(lines, q.dest) {
      SameAsFirst(lines, IdsAfter(Ids(order), before), q);
    } else {
      CitiesOnly(lines, q, Answers(lines, qs)[s]);
    }
  }

  lemma SameAsFirst(lines: seq<Line>, cityId: map<string, nat>, q: Question)
    requires AllCorrect(lines) && q.src in Order(lines) && q.dest in Order(lines)
    requires q.src in cityId && cityId[q.src] == Find(Order(lines), q.src)
    requires q.dest in cityId && cityId[q.dest] == Find(Order(lines), q.dest)
    ensures Correct(lines, q.src, q.dest, Ask(Ready(lines), |Order(lines)|, Order(lines), cityId, q))
  {
    hide Order, Graph, IsCity, ReplyTo, Correct, Finished;
    OrderListsCities(lines);
    FirstAnswer(lines, q);
    assert Correct(lines, q.src, q.dest, Answers(lines, [q])[0]);
  }

  /** Only "no such city" is right for a name that is no city. */
  lemma CitiesOnly(lines: seq<Line>, q: Question, a: Answer)
    requires !IsCity(lines, q.src) || !IsCity(lines, q.dest)
    ensures Correct(lines, q.src, q.dest, a) <==> a == NoSuchCity
  {
    hide IsCity, Leg, RouteLength, SpellRoute;
  }

  // ----- the program

  /** The loop over the questions. */
  method HandleUserInput(graph: CityGraph, ghost order: seq<string>, qs: seq<Question>) returns (answers: seq<Answer>)
    requires Numbering(graph.cityId, graph.idCity, order) && graph.nvertices == |order|
    requires Sized(Tables(graph.dist[..], graph.next[..]), |order|)
    requires Hops(Tables(graph.dist[..], graph.next[..]), |order|)
    modifies graph`cityId
    ensures answers == AskAll(Tables(graph.dist[..], graph.next[..]), |order|, order, old(graph.cityId), qs)
  {
    hide Numbering, Ask, Hops, Sized;
    var n := graph.nvertices;
    var names := NamesOf(n, graph.idCity, graph.cityId, order);
    var t := Tables(graph.dist[..], graph.next[..]);
    answers := [];
    for s := 0 to |qs|
      invariant answers + AskAll(t, n, order, graph.cityId, qs[s..]) == AskAll(t, n, order, old(graph.cityId), qs)
    {
      var a := Ask(t, n, names, graph.cityId, qs[s]);
      assert qs[s..][1..] == qs[s + 1..];
      answers := answers + [a];
      if Stops(a) { return; }
      graph.cityId := LookUp(graph.cityId, qs[s]);
    }
  }

  method NamesOf(n: nat, idCity: map<nat, string>, ghost cityId: map<string, nat>, ghost order: seq<string>)
      returns (names: seq<string>)
    requires Numbering(cityId, idCity, order) && n == |order|
    ensures names == order
  {
    names := seq(n, i requires i in idCity => idCity[i]);
    forall i | 0 <= i < n ensures names[i] == order[i] { assert Numbers(cityId, idCity, order[i], i); }
  }

  /** Reads the roads, computes the tables and answers the questions. */
  method Solve(lines: seq<Line>, qs: seq<Question>) returns (ok: bool, answers: seq<Answer>)
    ensures ok <==> forall t :: 0 <= t < |lines| ==> lines[t].length < INT_MAX
    ensures ok ==> answers == Answers(lines, qs)
  {
    hide Order, Graph, Numbering, AskAll, Finished;
    var graph := new CityGraph();
    ok := graph.BuildGraph(lines);
    answers := [];
    if ok {
      graph.Floyd();
      IdsOf(graph.cityId, graph.idCity, Order(lines));
      FloydHops(Graph(lines), |Order(lines)|);
      answers := HandleUserInput(graph, Order(lines), qs);
    }
  }

  lemma IdsOf(cityId: map<string, nat>, idCity: map<nat, string>, order: seq<string>)
    requires Numbering(cityId, idCity, order)
    ensures cityId == Ids(order)
  {
    forall c | c in order ensures c in cityId && cityId[c] == Find(order, c) {
      assert Numbers(cityId, idCity, order[Find(order, c)], Find(order, c));
    }
  }
}
