/** When the printed paths are right (shortest_path/shortest_path.cpp, lines 84-96). */
module FloydText {
  import opened Options
  import opened ShortestPath
  import opened FloydExact

  // ----- the recursion

  const NO_PATH: string := "no path"

  ghost predicate Hops(t: Tables, n: nat)
    requires Sized(t, n)
  {
    forall x: nat, y: nat :: x < n && y < n ==> -1 <= Hop(t.next, n, x, y) < n
  }

  ghost function Pairs(n: nat): set<(nat, nat)> {
    set x: nat, y: nat | x < n && y < n :: (x, y)
  }

  /** The text between the two end cities of a path; none if the recursion does not end. The calls
      for the pairs in `pending` have not returned, and a call for one of them would never return. */
  function Path(t: Tables, n: nat, names: seq<string>, i: nat, j: nat, pending: set<(nat, nat)>): Option<string>
    requires Sized(t, n) && Hops(t, n) && |names| == n && i < n && j < n
    decreases Pairs(n) - pending
  {
    if (i, j) in pending then None
    else if At(t.dist, n, i, j) == INT_MAX then Some(NO_PATH)
    else
      var m := Hop(t.next, n, i, j);
      if m == -1 then Some(" ")
      else
        assert (i, j) in Pairs(n);
        var a := Path(t, n, names, i, m, pending + {(i, j)});
        var b := Path(t, n, names, m, j, pending + {(i, j)});
        if a.Some? && b.Some? then Some(a.value + names[m] + b.value) else None
  }

  /** The program's recursion, cut off after `depth` nested calls. */
  ghost function Nested(t: Tables, n: nat, names: seq<string>, i: nat, j: nat, depth: nat): Option<string>
    requires Sized(t, n) && Hops(t, n) && |names| == n && i < n && j < n
    decreases depth
  {
    if depth == 0 then None
    else if At(t.dist, n, i, j) == INT_MAX then Some(NO_PATH)
    else
      var m := Hop(t.next, n, i, j);
      if m == -1 then Some(" ")
      else
        var a := Nested(t, n, names, i, m, depth - 1);
        var b := Nested(t, n, names, m, j, depth - 1);
        if a.Some? && b.Some? then Some(a.value + names[m] + b.value) else None
  }

  lemma {:induction false} NestedDeeper(t: Tables, n: nat, names: seq<string>, i: nat, j: nat, depth: nat, more: nat)
    requires Sized(t, n) && Hops(t, n) && |names| == n && i < n && j < n && depth <= more
    requires Nested(t, n, names, i, j, depth).Some?
    ensures Nested(t, n, names, i, j, more) == Nested(t, n, names, i, j, depth)
    decreases depth
  {
    hide At, Hop;
    var m := Hop(t.next, n, i, j);
    if At(t.dist, n, i, j) != INT_MAX && m != -1 {
      NestedDeeper(t, n, names, i, m, depth - 1, more - 1);
      NestedDeeper(t, n, names, m, j, depth - 1, more - 1);
    }
  }

  /** The pairs do not return within `depth` nested calls. */
  ghost predicate Deep(t: Tables, n: nat, names: seq<string>, pairs: set<(nat, nat)>, depth: nat)
    requires Sized(t, n) && Hops(t, n) && |names| == n
  {
    forall p <- pairs :: p.0 < n && p.1 < n ==> Nested(t, n, names, p.0, p.1, depth).None?
  }

  lemma {:induction false} NestedIsPath(t: Tables, n: nat, names: seq<string>, i: nat, j: nat,
                                        pending: set<(nat, nat)>, depth: nat)
    requires Sized(t, n) && Hops(t, n) && |names| == n && i < n && j < n
    requires Nested(t, n, names, i, j, depth).Some? && Deep(t, n, names, pending, depth)
    ensures Path(t, n, names, i, j, pending) == Nested(t, n, names, i, j, depth)
    decreases depth
  {
    hide At, Hop;
    var m := Hop(t.next, n, i, j);
    if Nested(t, n, names, i, j, depth - 1).Some? {
      forall p <- pending | p.0 < n && p.1 < n ensures Nested(t, n, names, p.0, p.1, depth - 1).None? {
        if Nested(t, n, names, p.0, p.1, depth - 1).Some? {
          NestedDeeper(t, n, names, p.0, p.1, depth - 1, depth);
        }
      }
      NestedIsPath(t, n, names, i, j, pending, depth - 1);
      NestedDeeper(t, n, names, i, j, depth - 1, depth);
    } else if At(t.dist, n, i, j) != INT_MAX && m != -1 {
      var pending' := pending + {(i, j)};
      forall p <- pending' | p.0 < n && p.1 < n ensures Nested(t, n, names, p.0, p.1, depth - 1).None? {
        if p != (i, j) && Nested(t, n, names, p.0, p.1, depth - 1).Some? {
          NestedDeeper(t, n, names, p.0, p.1, depth - 1, depth);
        }
      }
      NestedIsPath(t, n, names, i, m, pending', depth - 1);
      NestedIsPath(t, n, names, m, j, pending', depth - 1);
    }
  }

  lemma {:induction false} PathIsNested(t: Tables, n: nat, names: seq<string>, i: nat, j: nat,
                                        pending: set<(nat, nat)>) returns (depth: nat)
    requires Sized(t, n) && Hops(t, n) && |names| == n && i < n && j < n
    requires Path(t, n, names, i, j, pending).Some?
    ensures Nested(t, n, names, i, j, depth) == Path(t, n, names, i, j, pending)
    decreases Pairs(n) - pending
  {
    hide At, Hop;
    var m := Hop(t.next, n, i, j);
    if At(t.dist, n, i, j) != INT_MAX && m != -1 {
      assert (i, j) in Pairs(n);
      var a := PathIsNested(t, n, names, i, m, pending + {(i, j)});
      var b := PathIsNested(t, n, names, m, j, pending + {(i, j)});
      NestedDeeper(t, n, names, i, m, a, a + b);
      NestedDeeper(t, n, names, m, j, b, a + b);
      depth := a + b + 1;
    } else {
      depth := 1;
    }
  }

  /** `Path` gives exactly what the program's recursion returns, and none if it does not return. */
  lemma PathIsRecursion(t: Tables, n: nat, names: seq<string>, i: nat, j: nat, text: string)
    requires Sized(t, n) && Hops(t, n) && |names| == n && i < n && j < n
    ensures Path(t, n, names, i, j, {}) == Some(text) <==>
            exists depth: nat :: Nested(t, n, names, i, j, depth) == Some(text)
  {
    hide Path, Nested;
    if Path(t, n, names, i, j, {}) == Some(text) {
      var depth := PathIsNested(t, n, names, i, j, {});
    }
    if depth: nat :| Nested(t, n, names, i, j, depth) == Some(text) {
      NestedIsPath(t, n, names, i, j, {}, depth);
    }
  }

  // ----- what is printed

  datatype Reply = Endless | NoPath | Found(text: string, length: int)

  function ReplyTo(t: Tables, n: nat, names: seq<string>, i: nat, j: nat): Reply
    requires Sized(t, n) && Hops(t, n) && |names| == n && i < n && j < n
  {
    match Path(t, n, names, i, j, {})
    case None => Endless
    case Some(text) => if text == NO_PATH then NoPath else Found(names[i] + text + names[j], At(t.dist, n, i, j))
  }

  /** The cities of a walk, separated by blanks. */
  ghost function Spell(names: seq<string>, w: seq<nat>): string
    requires forall t :: 0 <= t < |w| ==> w[t] < |names|
  {
    if w == [] then "" else if |w| == 1 then names[w[0]] else names[w[0]] + " " + Spell(names, w[1..])
  }

  ghost predicate Told(g: seq<Int>, n: nat, names: seq<string>, i: nat, j: nat, r: Reply)
    requires |g| == n * n && |names| == n
  {
    match r
    case Endless => false
    case NoPath => forall w :: Joins(g, n, w, i, j) ==> Length(g, n, w) >= INT_MAX
    case Found(text, length) =>
      && length < INT_MAX && (forall w :: Joins(g, n, w, i, j) ==> Length(g, n, w) >= length)
      && exists w :: Joins(g, n, w, i, j) && Length(g, n, w) == length && Spell(names, w) == text
  }

  lemma FloydHops(g: seq<Int>, n: nat)
    requires |g| == n * n
    ensures Hops(Finished(g, n), n)
  {
    hide At, Hop;
    forall x: nat, y: nat | x < n && y < n ensures -1 <= Hop(Finished(g, n).next, n, x, y) < n {
      AlwaysPlain(g, n, n, 0, 0, x, y);
    }
  }

  ghost function Printed(g: seq<Int>, n: nat, names: seq<string>, i: nat, j: nat): Reply
    requires |g| == n * n && |names| == n && i < n && j < n
  {
    FloydHops(g, n);
    ReplyTo(Finished(g, n), n, names, i, j)
  }

  ghost predicate AllTold(g: seq<Int>, n: nat, names: seq<string>)
    requires |g| == n * n && |names| == n
  {
    forall i: nat, j: nat :: i < n && j < n ==> Told(g, n, names, i, j, Printed(g, n, names, i, j))
  }

  // ----- the condition

  ghost predicate WithinVia(g: seq<Int>, n: nat, x: nat, y: nat, k: nat, v: int)
    requires |g| == n * n
  {
    exists w :: Joins(g, n, w, x, y) && Via(w, k) && Length(g, n, w) <= v
  }

  /** As `Fair`, but the walk from `x` to `y` is shorter than the invented sum, or just as long and
      through cities with numbers below `k`, so that it is found before. */
  ghost predicate Timely(g: seq<Int>, n: nat, x: nat, k: nat, y: nat)
    requires |g| == n * n && x < n && k < n && y < n
  {
    && (!Within(g, n, x, k, INT_MAX - 1) && INT_MIN < At(g, n, k, y) < 0 ==>
          || Within(g, n, x, y, INT_MAX + At(g, n, k, y) - 1)
          || WithinVia(g, n, x, y, k, INT_MAX + At(g, n, k, y)))
    && (!Within(g, n, k, y, INT_MAX - 1) && INT_MIN < At(g, n, x, k) < 0 ==>
          || Within(g, n, x, y, INT_MAX + At(g, n, x, k) - 1)
          || WithinVia(g, n, x, y, k, INT_MAX + At(g, n, x, k)))
  }

  ghost predicate AllTimely(g: seq<Int>, n: nat)
    requires |g| == n * n
  {
    forall x: nat, k: nat, y: nat :: x < n && k < n && y < n ==> Timely(g, n, x, k, y)
  }

  lemma TimelyIsFair(g: seq<Int>, n: nat)
    requires |g| == n * n && AllTimely(g, n)
    ensures NothingInvented(g, n)
  {
    hide At, Length, IsWalk, Via;
    forall x: nat, k: nat, y: nat | x < n && k < n && y < n ensures Fair(g, n, x, k, y) {
      assert Timely(g, n, x, k, y);
    }
  }

  // ----- recorded intermediates

  /** The final value of an entry. */
  ghost function Last(g: seq<Int>, n: nat, x: nat, y: nat): int
    requires |g| == n * n && x < n && y < n
  {
    At(Finished(g, n).dist, n, x, y)
  }

  /** Entry (x, y) has its final value, below INT_MAX. */
  ghost predicate Done(g: seq<Int>, t: Tables, n: nat, x: nat, y: nat)
    requires |g| == n * n && Sized(t, n) && x < n && y < n
  {
    At(t.dist, n, x, y) == Last(g, n, x, y) < INT_MAX
  }

  /** No recorded intermediate city has a half without a path. */
  ghost predicate WholeAt(g: seq<Int>, t: Tables, n: nat, x: nat, y: nat)
    requires |g| == n * n && Sized(t, n) && x < n && y < n
  {
    var m := Hop(t.next, n, x, y);
    Done(g, t, n, x, y) && 0 <= m < n ==> Last(g, n, x, m) < INT_MAX && Last(g, n, m, y) < INT_MAX
  }

  ghost predicate Whole(g: seq<Int>, n: nat)
    requires |g| == n * n
  {
    forall x: nat, y: nat :: x < n && y < n ==> WholeAt(g, Finished(g, n), n, x, y)
  }

  /** The recorded intermediate splits the entry into two that are finished and have lower ones. */
  ghost predicate TracedAt(g: seq<Int>, t: Tables, n: nat, x: nat, y: nat)
    requires |g| == n * n && Sized(t, n) && x < n && y < n
  {
    var m := Hop(t.next, n, x, y);
    Done(g, t, n, x, y) && 0 <= m < n ==>
      && Done(g, t, n, x, m) && Done(g, t, n, m, y) && Last(g, n, x, y) == Last(g, n, x, m) + Last(g, n, m, y)
      && Hop(t.next, n, x, m) < m && Hop(t.next, n, m, y) < m
  }

  ghost predicate Traced(g: seq<Int>, t: Tables, n: nat)
    requires |g| == n * n && Sized(t, n)
  {
    forall x: nat, y: nat :: x < n && y < n ==> TracedAt(g, t, n, x, y)
  }

  /** While city `k` is offered, its row and column do not change. */
  lemma {:induction false} PivotKept(g: seq<Int>, n: nat, k: nat, i: nat, j: nat, x: nat)
    requires |g| == n * n && Stage(n, k, i, j) && k < n && x < n && Sound(g, n)
    ensures Hop(After(g, n, k, i, j).next, n, x, k) < k && Hop(After(g, n, k, i, j).next, n, k, x) < k
    decreases i, j
  {
    hide At, Hop, Visit, Wrap, Sound, Backed, BelowRoads;
    if j > 0 {
      var t := After(g, n, k, i, j - 1);
      PivotKept(g, n, k, i, j - 1, x);
      VisitEffect(t, n, k, i, j - 1, x, k);
      VisitEffect(t, n, k, i, j - 1, k, x);
      PivotNotNegative(g, n, k, i, j - 1);
      GuardOnAnyInts(At(t.dist, n, x, k), At(t.dist, n, k, k));
      GuardOnAnyInts(At(t.dist, n, k, k), At(t.dist, n, k, x));
    } else if i > 0 {
      PivotKept(g, n, k, i - 1, n, x);
    } else {
      AlwaysPlain(g, n, k, 0, 0, x, k);
      AlwaysPlain(g, n, k, 0, 0, k, x);
    }
  }

  lemma PivotNotNegative(g: seq<Int>, n: nat, k: nat, i: nat, j: nat)
    requires |g| == n * n && Stage(n, k, i, j) && k < n && Sound(g, n)
    ensures At(After(g, n, k, i, j).dist, n, k, k) >= 0
  {
    hide At, Length, NegativeIsDirect, NothingInvented;
    AlwaysBacked(g, n, k, i, j);
    var t := After(g, n, k, i, j);
    assert BackedAt(g, t, n, k, k);
    if At(t.dist, n, k, k) < INT_MAX {
      var w :| Joins(g, n, w, k, k) && Length(g, n, w) <= At(t.dist, n, k, k);
      ClosedNotNegative(g, n, w);
    }
  }

  /** Finished halves make up no less than the whole. */
  lemma Triangle(g: seq<Int>, n: nat, x: nat, k: nat, y: nat)
    requires |g| == n * n && x < n && k < n && y < n && Right(g, n, Finished(g, n).dist)
    requires Last(g, n, x, k) < INT_MAX && Last(g, n, k, y) < INT_MAX
    ensures Last(g, n, x, y) <= Last(g, n, x, k) + Last(g, n, k, y)
  {
    hide At, Length, IsWalk;
    assert IsDistance(g, n, x, k, Last(g, n, x, k)) && IsDistance(g, n, k, y, Last(g, n, k, y));
    WithinAppend(g, n, x, k, y, Last(g, n, x, k), Last(g, n, k, y));
    assert IsDistance(g, n, x, y, Last(g, n, x, y));
  }

  lemma VisitTraced(g: seq<Int>, n: nat, k: nat, i: nat, j: nat, x: nat, y: nat)
    requires |g| == n * n && k < n && i < n && j < n && x < n && y < n && Sound(g, n) && Whole(g, n)
    requires Right(g, n, Finished(g, n).dist) && Traced(g, After(g, n, k, i, j), n)
    ensures TracedAt(g, After(g, n, k, i, j + 1), n, x, y)
  {
    hide At, Hop, Visit, Wrap, Sound, Right, Backed, BelowRoads;
    var t, r := After(g, n, k, i, j), After(g, n, k, i, j + 1);
    var m := Hop(r.next, n, x, y);
    if Done(g, r, n, x, y) && 0 <= m < n {
      VisitEffect(t, n, k, i, j, x, y);
      StaysDone(g, n, k, i, j, x, m);
      StaysDone(g, n, k, i, j, m, y);
      if At(r.dist, n, x, y) == At(t.dist, n, x, y) {
        assert TracedAt(g, t, n, x, y);
      } else {
        assert m == k && x == i && y == j;
        AlwaysBacked(g, n, k, i, j);
        AcceptedSum(g, t, n, k, i, j);
        OnlySmaller(g, n, k, i, j + 1, x, y);
        assert WholeAt(g, Finished(g, n), n, x, y);
        Triangle(g, n, x, k, y);
        OnlySmaller(g, n, k, i, j, x, k);
        OnlySmaller(g, n, k, i, j, k, y);
        PivotKept(g, n, k, i, j, x);
        PivotKept(g, n, k, i, j, y);
      }
    }
  }

  lemma StaysDone(g: seq<Int>, n: nat, k: nat, i: nat, j: nat, x: nat, y: nat)
    requires |g| == n * n && k < n && i < n && j < n && x < n && y < n
    ensures var t, r := After(g, n, k, i, j), After(g, n, k, i, j + 1);
            Done(g, t, n, x, y) ==> Done(g, r, n, x, y) && Hop(r.next, n, x, y) == Hop(t.next, n, x, y)
  {
    hide At, Hop, Visit, Wrap;
    VisitEffect(After(g, n, k, i, j), n, k, i, j, x, y);
    OnlySmaller(g, n, k, i, j + 1, x, y);
  }

  lemma StartTraced(g: seq<Int>, n: nat)
    requires |g| == n * n
    ensures Traced(g, Tables(g, NoNext(n)), n)
  {
    hide At, Hop, Last;
    forall x: nat, y: nat | x < n && y < n ensures TracedAt(g, Tables(g, NoNext(n)), n, x, y) { NoNextAt(n, x, y); }
  }

  lemma {:induction false} AlwaysTraced(g: seq<Int>, n: nat, k: nat, i: nat, j: nat)
    requires |g| == n * n && Stage(n, k, i, j) && Sound(g, n) && Whole(g, n) && Right(g, n, Finished(g, n).dist)
    ensures Traced(g, After(g, n, k, i, j), n)
    decreases k, i, j
  {
    hide Sound, Visit, Whole, Right, TracedAt, Finished;
    if j > 0 {
      AlwaysTraced(g, n, k, i, j - 1);
      forall x: nat, y: nat | x < n && y < n ensures TracedAt(g, After(g, n, k, i, j), n, x, y) {
        VisitTraced(g, n, k, i, j - 1, x, y);
      }
    } else if i > 0 {
      AlwaysTraced(g, n, k, i - 1, n);
    } else if k > 0 {
      AlwaysTraced(g, n, k - 1, n, 0);
    } else {
      StartTraced(g, n);
    }
  }

  // ----- the printed text

  lemma {:induction false} SpellAppend(names: seq<string>, u: seq<nat>, v: seq<nat>, rest: string)
    requires |u| > 0 && |v| > 0 && u[|u| - 1] == v[0]
    requires (forall t :: 0 <= t < |u| ==> u[t] < |names|) && (forall t :: 0 <= t < |v| ==> v[t] < |names|)
    requires Spell(names, v) == names[v[0]] + rest
    ensures Spell(names, u + v[1..]) == Spell(names, u) + rest
  {
    if |u| == 1 {
      assert u + v[1..] == v;
    } else {
      var w := u + v[1..];
      assert w[1..] == u[1..] + v[1..];
      SpellAppend(names, u[1..], v, rest);
      assert names[u[0]] + " " + (Spell(names, u[1..]) + rest) == names[u[0]] + " " + Spell(names, u[1..]) + rest;
    }
  }

  lemma {:induction false} SpellEnds(names: seq<string>, w: seq<nat>) returns (before: string, after: string)
    requires |w| >= 2 && forall t :: 0 <= t < |w| ==> w[t] < |names|
    ensures Spell(names, w) == names[w[0]] + " " + after == before + " " + names[w[|w| - 1]]
  {
    after := Spell(names, w[1..]);
    if |w| == 2 {
      assert w[1..] == [w[1]];
      before := names[w[0]];
    } else {
      var b, _ := SpellEnds(names, w[1..]);
      before := names[w[0]] + " " + b;
    }
  }

  /** Where the recursion gets past a pair, its text begins with a blank or goes on after "no path". */
  lemma {:induction false} TextBegins(t: Tables, n: nat, names: seq<string>, i: nat, j: nat, pending: set<(nat, nat)>)
    requires Sized(t, n) && Hops(t, n) && |names| == n && i < n && j < n
    requires Path(t, n, names, i, j, pending).Some?
    ensures var text := Path(t, n, names, i, j, pending).value;
            && |text| > 0 && (text[0] == ' ' || NO_PATH <= text)
            && (At(t.dist, n, i, j) != INT_MAX ==> text != NO_PATH)
    decreases Pairs(n) - pending
  {
    hide At, Hop;
    var m := Hop(t.next, n, i, j);
    if At(t.dist, n, i, j) != INT_MAX && m != -1 {
      assert (i, j) in Pairs(n);
      TextBegins(t, n, names, i, m, pending + {(i, j)});
      TextBegins(t, n, names, m, j, pending + {(i, j)});
    }
  }

  ghost predicate Lower(t: Tables, n: nat, x: nat, y: nat, pending: set<(nat, nat)>)
    requires Sized(t, n) && x < n && y < n
  {
    forall p <- pending :: p.0 < n && p.1 < n && Hop(t.next, n, x, y) < Hop(t.next, n, p.0, p.1)
  }

  /** The recorded intermediates spell a walk of the recorded length, and the text is that walk. */
  lemma {:induction false} RecordedWalk(g: seq<Int>, n: nat, names: seq<string>, x: nat, y: nat,
                                        pending: set<(nat, nat)>) returns (w: seq<nat>, text: string)
    requires |g| == n * n && |names| == n && x < n && y < n && Hops(Finished(g, n), n)
    requires Traced(g, Finished(g, n), n) && Last(g, n, x, y) < INT_MAX && Lower(Finished(g, n), n, x, y, pending)
    ensures Joins(g, n, w, x, y) && Length(g, n, w) == Last(g, n, x, y)
    ensures Via(w, Hop(Finished(g, n).next, n, x, y) + 1)
    ensures Path(Finished(g, n), n, names, x, y, pending) == Some(text)
    ensures Spell(names, w) == names[x] + text + names[y]
    decreases Hop(Finished(g, n).next, n, x, y) + 1
  {
    hide At, Hop, Length, IsWalk;
    var t := Finished(g, n);
    var m := Hop(t.next, n, x, y);
    assert TracedAt(g, t, n, x, y);
    AlwaysPlain(g, n, n, 0, 0, x, y);
    if m == -1 {
      w, text := [x, y], " ";
      OneRoad(g, n, x, y);
      assert w[1..] == [y];
    } else {
      var pending' := pending + {(x, y)};
      var u, a := RecordedWalk(g, n, names, x, m, pending');
      var v, b := RecordedWalk(g, n, names, m, y, pending');
      w, text := JoinRecorded(g, n, names, u, v, x, m, y, a, b);
      assert Path(t, n, names, x, y, pending) == Some(a + names[m] + b);
    }
  }

  lemma JoinRecorded(g: seq<Int>, n: nat, names: seq<string>, u: seq<nat>, v: seq<nat>, x: nat, m: nat, y: nat,
                     a: string, b: string) returns (w: seq<nat>, text: string)
    requires |g| == n * n && |names| == n && x < n && m < n && y < n
    requires Joins(g, n, u, x, m) && Joins(g, n, v, m, y) && Via(u, m) && Via(v, m)
    requires Spell(names, u) == names[x] + a + names[m] && Spell(names, v) == names[m] + b + names[y]
    ensures Joins(g, n, w, x, y) && Length(g, n, w) == Length(g, n, u) + Length(g, n, v) && Via(w, m + 1)
    ensures text == a + names[m] + b && Spell(names, w) == names[x] + text + names[y]
  {
    hide At, Length, Spell;
    WalksAppend(g, n, u, v);
    assert names[m] + b + names[y] == names[m] + (b + names[y]);
    SpellAppend(names, u, v, b + names[y]);
    w, text := u + v[1..], a + names[m] + b;
    assert names[x] + a + names[m] + (b + names[y]) == names[x] + text + names[y];
    forall s | 0 < s < |w| - 1 ensures w[s] < m + 1 {
      if s < |u| - 1 { assert u[s] < m; } else if s >= |u| { assert v[s - |u| + 1] < m; }
    }
  }

  // ----- walks that are found in time leave no half without a path

  lemma AcceptedWhole(g: seq<Int>, n: nat, k: nat, i: nat, j: nat)
    requires |g| == n * n && k < n && i < n && j < n && Sound(g, n) && AllTimely(g, n)
    requires Right(g, n, Finished(g, n).dist)
    requires var t := After(g, n, k, i, j);
             var sum := Wrap(At(t.dist, n, i, k) + At(t.dist, n, k, j));
             0 <= sum < At(t.dist, n, i, j) && sum == Last(g, n, i, j)
    ensures Last(g, n, i, k) < INT_MAX && Last(g, n, k, j) < INT_MAX
  {
    hide At, Length, IsWalk, Wrap, NegativeIsDirect, NothingInvented;
    var t := After(g, n, k, i, j);
    AlwaysBacked(g, n, k, i, j);
    AlwaysCovers(g, n, k, i, j);
    AcceptedSum(g, t, n, k, i, j);
    OnlySmaller(g, n, k, i, j, i, k);
    OnlySmaller(g, n, k, i, j, k, j);
    assert Timely(g, n, i, k, j);
    assert IsDistance(g, n, i, k, Last(g, n, i, k)) && IsDistance(g, n, k, j, Last(g, n, k, j));
    assert IsDistance(g, n, i, j, Last(g, n, i, j));
    NotVia(g, t, n, k, i, j, Last(g, n, i, j));
    if Last(g, n, i, k) == INT_MAX {
      NegativeEntry(g, t, n, k, j);
    } else if Last(g, n, k, j) == INT_MAX {
      NegativeEntry(g, t, n, i, k);
    }
  }

  lemma NotVia(g: seq<Int>, t: Tables, n: nat, k: nat, i: nat, j: nat, v: int)
    requires |g| == n * n && Sized(t, n) && i < n && j < n && Covers(g, t, n, k, i, j) && v < At(t.dist, n, i, j)
    ensures !WithinVia(g, n, i, j, k, v)
  {
    hide At, Length, Via;
    forall w | Joins(g, n, w, i, j) && Via(w, k) ensures Length(g, n, w) > v { assert CoveredAt(g, t, n, w); }
  }

  lemma {:induction false} AlwaysWhole(g: seq<Int>, n: nat, k: nat, i: nat, j: nat, x: nat, y: nat)
    requires |g| == n * n && Stage(n, k, i, j) && x < n && y < n && Sound(g, n) && AllTimely(g, n)
    requires Right(g, n, Finished(g, n).dist)
    ensures WholeAt(g, After(g, n, k, i, j), n, x, y)
    decreases k, i, j
  {
    hide At, Hop, Visit, Wrap, Sound, AllTimely, Right, Finished;
    if j > 0 {
      AlwaysWhole(g, n, k, i, j - 1, x, y);
      var t, r := After(g, n, k, i, j - 1), After(g, n, k, i, j);
      VisitEffect(t, n, k, i, j - 1, x, y);
      if At(r.dist, n, x, y) != At(t.dist, n, x, y) && Done(g, r, n, x, y) { AcceptedWhole(g, n, k, i, j - 1); }
    } else if i > 0 {
      AlwaysWhole(g, n, k, i - 1, n, x, y);
    } else if k > 0 {
      AlwaysWhole(g, n, k - 1, n, 0, x, y);
    } else {
      NoNextAt(n, x, y);
    }
  }

  // ----- and the other way round

  /** The sum that a missing half invents for (x, y) is final only if it was not accepted. */
  lemma InventedNotLast(g: seq<Int>, n: nat, names: seq<string>, x: nat, k: nat, y: nat)
    requires |g| == n * n && |names| == n && x < n && k < n && y < n
    requires Right(g, n, Finished(g, n).dist) && Whole(g, n) && Traced(g, Finished(g, n), n)
    requires var t := After(g, n, k, x, y);
             At(t.dist, n, x, k) + At(t.dist, n, k, y) == Last(g, n, x, y) && 0 <= Last(g, n, x, y) < INT_MAX
    requires Last(g, n, x, k) == INT_MAX || Last(g, n, k, y) == INT_MAX
    ensures WithinVia(g, n, x, y, k, Last(g, n, x, y))
  {
    hide At, Hop, Visit, Wrap, Length, IsWalk;
    var t := After(g, n, k, x, y);
    VisitEffect(t, n, k, x, y, x, y);
    GuardOnAnyInts(At(t.dist, n, x, k), At(t.dist, n, k, y));
    OnlySmaller(g, n, k, x, y, x, y);
    OnlySmaller(g, n, k, x, y + 1, x, y);
    assert WholeAt(g, Finished(g, n), n, x, y);
    AlwaysPlain(g, n, k, x, y, x, y);
    FloydHops(g, n);
    var w, _ := RecordedWalk(g, n, names, x, y, {});
  }

  lemma WholeIsTimely(g: seq<Int>, n: nat, names: seq<string>, x: nat, k: nat, y: nat)
    requires |g| == n * n && |names| == n && x < n && k < n && y < n
    requires Right(g, n, Finished(g, n).dist) && Whole(g, n) && Traced(g, Finished(g, n), n)
    ensures Timely(g, n, x, k, y)
  {
    hide At, Length, IsWalk, Whole, Traced, WithinVia;
    NeverChanges(g, n, k, x, y, x, k);
    NeverChanges(g, n, k, x, y, k, y);
    RightIsFair(g, n, x, k, y);
    assert IsDistance(g, n, x, y, Last(g, n, x, y));
    if !Within(g, n, x, k, INT_MAX - 1) && INT_MIN < At(g, n, k, y) < 0 {
      if !Within(g, n, x, y, INT_MAX + At(g, n, k, y) - 1) { InventedNotLast(g, n, names, x, k, y); }
    }
    if !Within(g, n, k, y, INT_MAX - 1) && INT_MIN < At(g, n, x, k) < 0 {
      if !Within(g, n, x, y, INT_MAX + At(g, n, x, k) - 1) { InventedNotLast(g, n, names, x, k, y); }
    }
  }

  lemma ToldIsRight(g: seq<Int>, n: nat, names: seq<string>)
    requires |g| == n * n && |names| == n && AllTold(g, n, names)
    ensures Right(g, n, Finished(g, n).dist)
  {
    hide At, Length, IsWalk, Path, Finished;
    forall x: nat, y: nat | x < n && y < n ensures IsDistance(g, n, x, y, At(Finished(g, n).dist, n, x, y)) {
      assert Told(g, n, names, x, y, Printed(g, n, names, x, y));
      FloydHops(g, n);
      var t := Finished(g, n);
      if Path(t, n, names, x, y, {}).Some? { TextBegins(t, n, names, x, y, {}); }
    }
  }

  /** A text with "no path" at its beginning or end spells no walk. */
  lemma TaintedSpellsNothing(names: seq<string>, w: seq<nat>, a: string)
    requires |w| >= 2 && forall t :: 0 <= t < |w| ==> w[t] < |names|
    ensures Spell(names, w) != names[w[0]] + (NO_PATH + a) + names[w[|w| - 1]]
    ensures Spell(names, w) != names[w[0]] + (a + NO_PATH) + names[w[|w| - 1]]
  {
    hide Spell;
    var before, after := SpellEnds(names, w);
    var x, y, spelled := names[w[0]], names[w[|w| - 1]], Spell(names, w);
    var front, back := x + (NO_PATH + a) + y, x + (a + NO_PATH) + y;
    assert spelled[|x|] == ' ' && front[|x|] == 'n';
    assert spelled[|spelled| - |y| - 1] == ' ' && back[|back| - |y| - 1] == 'h';
    assert spelled != front && spelled != back;
  }

  lemma ToldIsWhole(g: seq<Int>, n: nat, names: seq<string>, x: nat, y: nat)
    requires |g| == n * n && |names| == n && AllTold(g, n, names) && x < n && y < n
    ensures WholeAt(g, Finished(g, n), n, x, y)
  {
    hide At, Hop, Length, Finished, Spell;
    var t := Finished(g, n);
    var m := Hop(t.next, n, x, y);
    if Done(g, t, n, x, y) && 0 <= m < n && (Last(g, n, x, m) == INT_MAX || Last(g, n, m, y) == INT_MAX) {
      FloydHops(g, n);
      assert Told(g, n, names, x, y, Printed(g, n, names, x, y));
      var pending: set<(nat, nat)> := {};
      var text := Path(t, n, names, x, y, pending).value;
      TextBegins(t, n, names, x, y, pending);
      var w :| Joins(g, n, w, x, y) && Spell(names, w) == names[x] + text + names[y];
      if Last(g, n, x, m) == INT_MAX {
        var b := Path(t, n, names, m, y, pending + {(x, y)}).value;
        assert text == NO_PATH + (names[m] + b);
        TaintedSpellsNothing(names, w, names[m] + b);
      } else {
        var a := Path(t, n, names, x, m, pending + {(x, y)}).value;
        assert text == (a + names[m]) + NO_PATH;
        TaintedSpellsNothing(names, w, a + names[m]);
      }
    }
  }

  // ----- the theorem

  lemma TracedIsTold(g: seq<Int>, n: nat, names: seq<string>)
    requires |g| == n * n && |names| == n && Right(g, n, Finished(g, n).dist) && Traced(g, Finished(g, n), n)
    ensures AllTold(g, n, names)
  {
    hide At, Length, IsWalk, Finished, Spell;
    FloydHops(g, n);
    var t := Finished(g, n);
    forall x: nat, y: nat | x < n && y < n ensures Told(g, n, names, x, y, Printed(g, n, names, x, y)) {
      assert IsDistance(g, n, x, y, Last(g, n, x, y));
      if Last(g, n, x, y) < INT_MAX {
        var w, text := RecordedWalk(g, n, names, x, y, {});
        TextBegins(t, n, names, x, y, {});
      }
    }
  }

  /** Everything that is printed is right if and only if no walk of negative length is shorter than
      the road between its ends, and no sum of INT_MAX and a negative road comes before the walks
      that it would hide. */
  lemma PathsExactWhen(g: seq<Int>, n: nat, names: seq<string>)
    requires |g| == n * n && |names| == n
    ensures AllTold(g, n, names) <==> NegativeIsDirect(g, n) && AllTimely(g, n)
  {
    hide At, Right, NegativeIsDirect, NothingInvented, Timely, WholeAt, Traced, AllTold, Finished;
    if AllTold(g, n, names) {
      ToldIsRight(g, n, names);
      FloydExactWhen(g, n);
      forall x: nat, y: nat | x < n && y < n ensures WholeAt(g, Finished(g, n), n, x, y) {
        ToldIsWhole(g, n, names, x, y);
      }
      FloydTraced(g, n);
      forall x: nat, k: nat, y: nat | x < n && k < n && y < n ensures Timely(g, n, x, k, y) {
        WholeIsTimely(g, n, names, x, k, y);
      }
    }
    if NegativeIsDirect(g, n) && AllTimely(g, n) {
      TimelyIsFair(g, n);
      SoundIsRight(g, n);
      forall x: nat, y: nat | x < n && y < n ensures WholeAt(g, Finished(g, n), n, x, y) { FloydWhole(g, n, x, y); }
      FloydTraced(g, n);
      TracedIsTold(g, n, names);
    }
  }

  lemma FloydTraced(g: seq<Int>, n: nat)
    requires |g| == n * n && Sound(g, n) && Whole(g, n) && Right(g, n, Finished(g, n).dist)
    ensures Traced(g, Finished(g, n), n)
  {
    hide Sound, Whole, Right, Traced;
    AlwaysTraced(g, n, n, 0, 0);
  }

  lemma FloydWhole(g: seq<Int>, n: nat, x: nat, y: nat)
    requires |g| == n * n && Sound(g, n) && AllTimely(g, n) && Right(g, n, Finished(g, n).dist) && x < n && y < n
    ensures WholeAt(g, Finished(g, n), n, x, y)
  {
    hide Sound, AllTimely, Right, WholeAt;
    AlwaysWhole(g, n, n, 0, 0, x, y);
  }
}
