/** When the loops of Floyd's algorithm, with sums that wrap around, find all distances
    (shortest_path/shortest_path.cpp, lines 98-111). */
module FloydExact {
  import opened ShortestPath

  // ----- what holds of the tables at every moment

  /** How many cities have been offered to entry (x, y). */
  ghost function Offered(k: nat, i: nat, j: nat, x: nat, y: nat): nat {
    if x < i || (x == i && y < j) then k + 1 else k
  }

  /** An entry is the road itself, or a number that is not negative and less than the road. */
  ghost predicate Plain(g: seq<Int>, t: Tables, n: nat, x: nat, y: nat, offered: nat)
    requires |g| == n * n && Sized(t, n) && x < n && y < n
  {
    if Hop(t.next, n, x, y) == -1 then At(t.dist, n, x, y) == At(g, n, x, y)
    else 0 <= Hop(t.next, n, x, y) < offered && 0 <= At(t.dist, n, x, y) < At(g, n, x, y)
  }

  lemma {:induction false} AlwaysPlain(g: seq<Int>, n: nat, k: nat, i: nat, j: nat, x: nat, y: nat)
    requires |g| == n * n && Stage(n, k, i, j) && x < n && y < n
    ensures Plain(g, After(g, n, k, i, j), n, x, y, Offered(k, i, j, x, y))
    decreases k, i, j
  {
    hide At, Visit;
    if j > 0 {
      AlwaysPlain(g, n, k, i, j - 1, x, y);
      VisitEffect(After(g, n, k, i, j - 1), n, k, i, j - 1, x, y);
    } else if i > 0 {
      AlwaysPlain(g, n, k, i - 1, n, x, y);
    } else if k > 0 {
      AlwaysPlain(g, n, k - 1, n, 0, x, y);
    } else {
      NoNextAt(n, x, y);
    }
  }

  lemma NoNextAt(n: nat, x: nat, y: nat)
    requires x < n && y < n
    ensures Hop(NoNext(n), n, x, y) == -1
  {}

  /** Entries only ever get smaller, and one that has its last value is not touched again. */
  lemma {:induction false} OnlySmaller(g: seq<Int>, n: nat, k: nat, i: nat, j: nat, x: nat, y: nat)
    requires |g| == n * n && Stage(n, k, i, j) && x < n && y < n
    ensures var now, end := After(g, n, k, i, j), Finished(g, n);
            && At(end.dist, n, x, y) <= At(now.dist, n, x, y)
            && (At(end.dist, n, x, y) == At(now.dist, n, x, y) ==> Hop(end.next, n, x, y) == Hop(now.next, n, x, y))
    decreases n - k, n - i, n - j
  {
    hide At, Visit;
    if k < n {
      if i == n {
        OnlySmaller(g, n, k + 1, 0, 0, x, y);
      } else if j == n {
        OnlySmaller(g, n, k, i + 1, 0, x, y);
      } else {
        OnlySmaller(g, n, k, i, j + 1, x, y);
        VisitEffect(After(g, n, k, i, j), n, k, i, j, x, y);
      }
    }
  }

  // ----- the condition

  /** No walk of negative length is shorter than the road between its ends. */
  ghost predicate NegativeIsDirect(g: seq<Int>, n: nat)
    requires |g| == n * n
  {
    forall w :: IsWalk(g, n, w) && Length(g, n, w) < 0 ==> At(g, n, w[0], w[|w| - 1]) <= Length(g, n, w)
  }

  /** INT_MAX plus the negative road of one half does not undercut the walks from `x` to `y` when
      the other half has no walk below INT_MAX. */
  ghost predicate Fair(g: seq<Int>, n: nat, x: nat, k: nat, y: nat)
    requires |g| == n * n && x < n && k < n && y < n
  {
    && (!Within(g, n, x, k, INT_MAX - 1) && INT_MIN < At(g, n, k, y) < 0 ==>
          Within(g, n, x, y, INT_MAX + At(g, n, k, y)))
    && (!Within(g, n, k, y, INT_MAX - 1) && INT_MIN < At(g, n, x, k) < 0 ==>
          Within(g, n, x, y, INT_MAX + At(g, n, x, k)))
  }

  ghost predicate NothingInvented(g: seq<Int>, n: nat)
    requires |g| == n * n
  {
    forall x: nat, k: nat, y: nat :: x < n && k < n && y < n ==> Fair(g, n, x, k, y)
  }

  ghost predicate Sound(g: seq<Int>, n: nat)
    requires |g| == n * n
  {
    NegativeIsDirect(g, n) && NothingInvented(g, n)
  }

  ghost predicate Right(g: seq<Int>, n: nat, d: seq<Int>)
    requires |g| == |d| == n * n
  {
    forall x: nat, y: nat :: x < n && y < n ==> IsDistance(g, n, x, y, At(d, n, x, y))
  }

  // ----- no entry is below the distance

  lemma Direct(g: seq<Int>, n: nat, x: nat, y: nat, v: int)
    requires |g| == n * n && NegativeIsDirect(g, n) && x < n && y < n && v < 0 && Within(g, n, x, y, v)
    ensures At(g, n, x, y) <= v
  {
    hide At, Length, IsWalk;
  }

  lemma WalkWithin(g: seq<Int>, n: nat, w: seq<nat>)
    requires |g| == n * n && IsWalk(g, n, w)
    ensures Within(g, n, w[0], w[|w| - 1], Length(g, n, w))
  {
    hide Length, At;
    assert Joins(g, n, w, w[0], w[|w| - 1]);
  }

  lemma WithinAppend(g: seq<Int>, n: nat, x: nat, k: nat, y: nat, a: int, b: int)
    requires |g| == n * n && Within(g, n, x, k, a) && Within(g, n, k, y, b)
    ensures Within(g, n, x, y, a + b)
  {
    hide At, Length;
    var u :| Joins(g, n, u, x, k) && Length(g, n, u) <= a;
    var v :| Joins(g, n, v, k, y) && Length(g, n, v) <= b;
    WalksAppend(g, n, u, v);
    assert Joins(g, n, u + v[1..], x, y);
  }

  lemma WithinMore(g: seq<Int>, n: nat, x: nat, y: nat, v: int, v': int)
    requires |g| == n * n && Within(g, n, x, y, v) && v <= v'
    ensures Within(g, n, x, y, v')
  {
    hide Length, IsWalk;
  }

  ghost predicate BackedAt(g: seq<Int>, t: Tables, n: nat, x: nat, y: nat)
    requires |g| == n * n && Sized(t, n) && x < n && y < n
  {
    At(t.dist, n, x, y) < INT_MAX ==> Within(g, n, x, y, At(t.dist, n, x, y))
  }

  /** Every entry below INT_MAX is backed by a walk that is no longer. */
  ghost predicate Backed(g: seq<Int>, t: Tables, n: nat)
    requires |g| == n * n && Sized(t, n)
  {
    forall x: nat, y: nat :: x < n && y < n ==> BackedAt(g, t, n, x, y)
  }

  ghost predicate BelowRoads(g: seq<Int>, t: Tables, n: nat)
    requires |g| == n * n && Sized(t, n)
  {
    forall x: nat, y: nat :: x < n && y < n ==> At(t.dist, n, x, y) <= At(g, n, x, y)
  }

  /** A negative entry is a road. */
  lemma NegativeEntry(g: seq<Int>, t: Tables, n: nat, x: nat, y: nat)
    requires |g| == n * n && Sized(t, n) && x < n && y < n
    requires NegativeIsDirect(g, n) && Backed(g, t, n) && BelowRoads(g, t, n) && At(t.dist, n, x, y) < 0
    ensures At(g, n, x, y) == At(t.dist, n, x, y)
  {
    hide At, NegativeIsDirect, Within;
    assert BackedAt(g, t, n, x, y);
    Direct(g, n, x, y, At(t.dist, n, x, y));
  }

  /** The two halves of an accepted sum, one of them INT_MAX. */
  lemma HalfMissing(g: seq<Int>, t: Tables, n: nat, x: nat, k: nat, y: nat)
    requires |g| == n * n && Sized(t, n) && x < n && k < n && y < n
    requires Sound(g, n) && Backed(g, t, n) && BelowRoads(g, t, n)
    requires At(t.dist, n, x, k) == INT_MAX || At(t.dist, n, k, y) == INT_MAX
    requires 0 <= At(t.dist, n, x, k) + At(t.dist, n, k, y) < INT_MAX
    ensures Within(g, n, x, y, At(t.dist, n, x, k) + At(t.dist, n, k, y))
  {
    hide At, NegativeIsDirect, Within;
    var a, b := At(t.dist, n, x, k), At(t.dist, n, k, y);
    assert Fair(g, n, x, k, y);
    assert BackedAt(g, t, n, x, k) && BackedAt(g, t, n, k, y);
    if a == INT_MAX {
      NegativeEntry(g, t, n, k, y);
      if Within(g, n, x, k, INT_MAX - 1) {
        WithinAppend(g, n, x, k, y, INT_MAX - 1, b);
        WithinMore(g, n, x, y, INT_MAX - 1 + b, a + b);
      }
    } else {
      NegativeEntry(g, t, n, x, k);
      if Within(g, n, k, y, INT_MAX - 1) {
        WithinAppend(g, n, x, k, y, a, INT_MAX - 1);
        WithinMore(g, n, x, y, a + INT_MAX - 1, a + b);
      }
    }
  }

  /** Two halves that are both backed by walks do not add up to less than a road can be. */
  lemma BothBacked(g: seq<Int>, t: Tables, n: nat, x: nat, k: nat, y: nat)
    requires |g| == n * n && Sized(t, n) && x < n && k < n && y < n
    requires NegativeIsDirect(g, n) && Backed(g, t, n)
    requires At(t.dist, n, x, k) < INT_MAX && At(t.dist, n, k, y) < INT_MAX
    ensures Within(g, n, x, y, At(t.dist, n, x, k) + At(t.dist, n, k, y))
    ensures At(t.dist, n, x, k) + At(t.dist, n, k, y) >= INT_MIN
  {
    hide At, NegativeIsDirect, Within;
    var a, b := At(t.dist, n, x, k), At(t.dist, n, k, y);
    assert BackedAt(g, t, n, x, k) && BackedAt(g, t, n, k, y);
    WithinAppend(g, n, x, k, y, a, b);
    if a + b < 0 { Direct(g, n, x, y, a + b); }
  }

  /** Whatever sum the test lets through is the true sum, and is backed by a walk. */
  lemma AcceptedSum(g: seq<Int>, t: Tables, n: nat, k: nat, i: nat, j: nat)
    requires |g| == n * n && Sized(t, n) && k < n && i < n && j < n
    requires Sound(g, n) && Backed(g, t, n) && BelowRoads(g, t, n)
    requires 0 <= Wrap(At(t.dist, n, i, k) + At(t.dist, n, k, j)) < At(t.dist, n, i, j)
    ensures Wrap(At(t.dist, n, i, k) + At(t.dist, n, k, j)) == At(t.dist, n, i, k) + At(t.dist, n, k, j)
    ensures Within(g, n, i, j, At(t.dist, n, i, k) + At(t.dist, n, k, j))
  {
    hide At, Wrap, NegativeIsDirect, NothingInvented, Within, Backed, BelowRoads;
    var a, b := At(t.dist, n, i, k), At(t.dist, n, k, j);
    GuardOnAnyInts(a, b);
    if a < INT_MAX && b < INT_MAX {
      BothBacked(g, t, n, i, k, j);
    } else {
      HalfMissing(g, t, n, i, k, j);
    }
  }

  lemma VisitBacked(g: seq<Int>, t: Tables, n: nat, k: nat, i: nat, j: nat)
    requires |g| == n * n && Sized(t, n) && k < n && i < n && j < n
    requires Sound(g, n) && Backed(g, t, n) && BelowRoads(g, t, n)
    ensures Backed(g, Visit(t, n, k, i, j), n) && BelowRoads(g, Visit(t, n, k, i, j), n)
  {
    hide At, Wrap, Sound, Within, Visit;
    var r := Visit(t, n, k, i, j);
    forall x: nat, y: nat | x < n && y < n
      ensures BackedAt(g, r, n, x, y) && At(r.dist, n, x, y) <= At(g, n, x, y)
    {
      VisitEffect(t, n, k, i, j, x, y);
      assert BackedAt(g, t, n, x, y) && At(t.dist, n, x, y) <= At(g, n, x, y);
      if At(r.dist, n, x, y) != At(t.dist, n, x, y) { AcceptedSum(g, t, n, k, i, j); }
    }
  }

  lemma StartBacked(g: seq<Int>, n: nat)
    requires |g| == n * n
    ensures var t := Tables(g, NoNext(n)); Backed(g, t, n) && BelowRoads(g, t, n)
  {
    hide At, Length, IsWalk;
    var t := Tables(g, NoNext(n));
    forall x: nat, y: nat | x < n && y < n ensures BackedAt(g, t, n, x, y) { OneRoad(g, n, x, y); }
  }

  lemma {:induction false} AlwaysBacked(g: seq<Int>, n: nat, k: nat, i: nat, j: nat)
    requires |g| == n * n && Stage(n, k, i, j) && Sound(g, n)
    ensures Backed(g, After(g, n, k, i, j), n) && BelowRoads(g, After(g, n, k, i, j), n)
    decreases k, i, j
  {
    hide Backed, BelowRoads, Sound, Visit;
    if j > 0 {
      AlwaysBacked(g, n, k, i, j - 1);
      VisitBacked(g, After(g, n, k, i, j - 1), n, k, i, j - 1);
    } else if i > 0 {
      AlwaysBacked(g, n, k, i - 1, n);
    } else if k > 0 {
      AlwaysBacked(g, n, k - 1, n, 0);
    } else {
      StartBacked(g, n);
    }
  }

  // ----- no entry is above the distance

  /** The cities in between are below `k`. */
  ghost predicate Via(w: seq<nat>, k: nat) {
    forall t :: 0 < t < |w| - 1 ==> w[t] < k
  }

  ghost predicate CoveredAt(g: seq<Int>, t: Tables, n: nat, w: seq<nat>)
    requires |g| == n * n && Sized(t, n) && IsWalk(g, n, w)
  {
    At(t.dist, n, w[0], w[|w| - 1]) <= Length(g, n, w)
  }

  /** No entry exceeds a walk through cities that have been offered to it. */
  ghost predicate Covers(g: seq<Int>, t: Tables, n: nat, k: nat, i: nat, j: nat)
    requires |g| == n * n && Sized(t, n)
  {
    forall w :: IsWalk(g, n, w) && Via(w, Offered(k, i, j, w[0], w[|w| - 1])) ==> CoveredAt(g, t, n, w)
  }

  lemma Twice(g: seq<Int>, n: nat, x: nat)
    requires |g| == n * n && x < n && At(g, n, x, x) < INT_MAX
    ensures IsWalk(g, n, [x, x, x]) && Length(g, n, [x, x, x]) == 2 * At(g, n, x, x)
  {
    hide At, Length;
    OneRoad(g, n, x, x);
    WalksAppend(g, n, [x, x], [x, x]);
    assert [x, x] + [x, x][1..] == [x, x, x];
  }

  lemma ClosedNotNegative(g: seq<Int>, n: nat, w: seq<nat>)
    requires |g| == n * n && NegativeIsDirect(g, n) && IsWalk(g, n, w) && w[0] == w[|w| - 1]
    ensures Length(g, n, w) >= 0
  {
    hide At;
    var x := w[0];
    if At(g, n, x, x) < 0 { Twice(g, n, x); }
  }

  /** Walks that end in `k` may as well pass it on their way. */
  lemma {:induction false} ToPivot(g: seq<Int>, t: Tables, n: nat, k: nat, i: nat, j: nat, u: seq<nat>)
    requires |g| == n * n && Sized(t, n) && NegativeIsDirect(g, n) && Covers(g, t, n, k, i, j)
    requires IsWalk(g, n, u) && u[|u| - 1] == k && Via(u, k + 1)
    ensures At(t.dist, n, u[0], k) <= Length(g, n, u)
    decreases |u|
  {
    hide At, Length, NegativeIsDirect;
    if p :| 0 < p < |u| - 1 && u[p] == k {
      WalkSplit(g, n, u, p);
      ToPivot(g, t, n, k, i, j, u[..p + 1]);
      ClosedNotNegative(g, n, u[p..]);
    } else {
      assert CoveredAt(g, t, n, u);
    }
  }

  lemma {:induction false} FromPivot(g: seq<Int>, t: Tables, n: nat, k: nat, i: nat, j: nat, u: seq<nat>)
    requires |g| == n * n && Sized(t, n) && NegativeIsDirect(g, n) && Covers(g, t, n, k, i, j)
    requires IsWalk(g, n, u) && u[0] == k && Via(u, k + 1)
    ensures At(t.dist, n, k, u[|u| - 1]) <= Length(g, n, u)
    decreases |u|
  {
    hide At, Length, NegativeIsDirect;
    if p :| 0 < p < |u| - 1 && u[p] == k {
      WalkSplit(g, n, u, p);
      FromPivot(g, t, n, k, i, j, u[p..]);
      ClosedNotNegative(g, n, u[..p + 1]);
    } else {
      assert CoveredAt(g, t, n, u);
    }
  }

  /** With a last road of length INT_MIN the walk can leave out its last stop. */
  lemma SkipLast(g: seq<Int>, n: nat, u: seq<nat>, j: nat) returns (w: seq<nat>)
    requires |g| == n * n && NegativeIsDirect(g, n) && IsWalk(g, n, u) && |u| >= 3 && j < n
    requires At(g, n, u[|u| - 1], j) == INT_MIN
    ensures Joins(g, n, w, u[0], j) && Length(g, n, w) <= Length(g, n, u) + INT_MIN
    ensures w == u[..|u| - 1] + [j]
  {
    hide At, Length;
    var p := |u| - 2;
    var c, k := u[p], u[p + 1];
    WalkSplit(g, n, u, p);
    assert u[p..] == [c, k];
    OneRoad(g, n, c, k);
    OneRoad(g, n, k, j);
    WalksAppend(g, n, [c, k], [k, j]);
    assert [c, k] + [k, j][1..] == [c, k, j];
    assert At(g, n, c, j) <= At(g, n, c, k) + INT_MIN;
    OneRoad(g, n, c, j);
    WalksAppend(g, n, u[..p + 1], [c, j]);
    assert u[..p + 1] + [c, j][1..] == u[..|u| - 1] + [j];
    w := u[..|u| - 1] + [j];
  }

  lemma SkipFirst(g: seq<Int>, n: nat, i: nat, v: seq<nat>) returns (w: seq<nat>)
    requires |g| == n * n && NegativeIsDirect(g, n) && IsWalk(g, n, v) && |v| >= 3 && i < n
    requires At(g, n, i, v[0]) == INT_MIN
    ensures Joins(g, n, w, i, v[|v| - 1]) && Length(g, n, w) <= INT_MIN + Length(g, n, v)
    ensures w == [i] + v[1..]
  {
    hide At, Length;
    var k, c := v[0], v[1];
    WalkSplit(g, n, v, 1);
    assert v[..2] == [k, c];
    OneRoad(g, n, k, c);
    OneRoad(g, n, i, k);
    WalksAppend(g, n, [i, k], [k, c]);
    assert [i, k] + [k, c][1..] == [i, k, c];
    assert At(g, n, i, c) <= INT_MIN + At(g, n, k, c);
    OneRoad(g, n, i, c);
    WalksAppend(g, n, [i, c], v[1..]);
    assert [i, c] + v[1..][1..] == [i] + v[1..];
    w := [i] + v[1..];
  }

  /** After entry (i, j) has been offered `k`, it exceeds no walk through cities up to `k`. */
  lemma {:induction false} VisitCovers(g: seq<Int>, t: Tables, n: nat, k: nat, i: nat, j: nat, w: seq<nat>)
    requires |g| == n * n && Sized(t, n) && k < n && i < n && j < n
    requires Sound(g, n) && Backed(g, t, n) && BelowRoads(g, t, n) && Covers(g, t, n, k, i, j)
    requires Joins(g, n, w, i, j) && Via(w, k + 1)
    ensures At(Visit(t, n, k, i, j).dist, n, i, j) <= Length(g, n, w)
    decreases |w|
  {
    hide At, Length, Wrap, Visit, NegativeIsDirect, NothingInvented, Backed, Within;
    if Length(g, n, w) < 0 { WalkWithin(g, n, w); Direct(g, n, i, j, Length(g, n, w)); }
    VisitEffect(t, n, k, i, j, i, j);
    var a, b, now := At(t.dist, n, i, k), At(t.dist, n, k, j), At(t.dist, n, i, j);
    GuardOnAnyInts(a, b);
    if p :| 0 < p < |w| - 1 && w[p] == k {
      var u, v := w[..p + 1], w[p..];
      WalkSplit(g, n, w, p);
      ToPivot(g, t, n, k, i, j, u);
      FromPivot(g, t, n, k, i, j, v);
      if a + b < 0 <= Length(g, n, w) {
        if a < INT_MAX && b < INT_MAX {
          BothBacked(g, t, n, i, k, j);
          Direct(g, n, i, j, a + b);
        } else if a == INT_MAX {
          NegativeEntry(g, t, n, k, j);
          NotOneRoad(g, t, n, u);
          var w' := SkipLast(g, n, u, j);
          VisitCovers(g, t, n, k, i, j, w');
        } else {
          NegativeEntry(g, t, n, i, k);
          NotOneRoad(g, t, n, v);
          var w' := SkipFirst(g, n, i, v);
          VisitCovers(g, t, n, k, i, j, w');
        }
      }
    } else {
      assert CoveredAt(g, t, n, w);
    }
  }

  lemma NotOneRoad(g: seq<Int>, t: Tables, n: nat, u: seq<nat>)
    requires |g| == n * n && Sized(t, n) && BelowRoads(g, t, n) && IsWalk(g, n, u)
    requires At(t.dist, n, u[0], u[|u| - 1]) == INT_MAX
    ensures |u| >= 3
  {
    hide At;
    assert Road(g, n, u, 0);
  }

  lemma NextCovers(g: seq<Int>, t: Tables, n: nat, k: nat, i: nat, j: nat)
    requires |g| == n * n && Sized(t, n) && k < n && i < n && j < n
    requires Sound(g, n) && Backed(g, t, n) && BelowRoads(g, t, n) && Covers(g, t, n, k, i, j)
    ensures Covers(g, Visit(t, n, k, i, j), n, k, i, j + 1)
  {
    hide At, Length, Visit, Sound, Backed, BelowRoads;
    var r := Visit(t, n, k, i, j);
    forall w | IsWalk(g, n, w) && Via(w, Offered(k, i, j + 1, w[0], w[|w| - 1])) ensures CoveredAt(g, r, n, w) {
      var x, y := w[0], w[|w| - 1];
      if x == i && y == j {
        VisitCovers(g, t, n, k, i, j, w);
      } else {
        assert CoveredAt(g, t, n, w);
        VisitEffect(t, n, k, i, j, x, y);
      }
    }
  }

  lemma ViaSome(w: seq<nat>, k: nat)
    requires Via(w, k)
    ensures |w| > 2 ==> k > 0
  {
    if |w| > 2 { assert w[1] < k; }
  }

  lemma StartCovers(g: seq<Int>, n: nat)
    requires |g| == n * n
    ensures Covers(g, Tables(g, NoNext(n)), n, 0, 0, 0)
  {
    hide At, Length;
    forall w | IsWalk(g, n, w) && Via(w, 0) ensures CoveredAt(g, Tables(g, NoNext(n)), n, w) {
      ViaSome(w, 0);
      assert w == [w[0], w[1]];
      OneRoad(g, n, w[0], w[1]);
    }
  }

  lemma CoversTurn(g: seq<Int>, t: Tables, n: nat, k: nat, i: nat)
    requires |g| == n * n && Sized(t, n)
    ensures Covers(g, t, n, k, i, n) ==> Covers(g, t, n, k, i + 1, 0)
    ensures Covers(g, t, n, k, n, 0) ==> Covers(g, t, n, k + 1, 0, 0)
  {
    hide At, Length;
  }

  lemma {:induction false} AlwaysCovers(g: seq<Int>, n: nat, k: nat, i: nat, j: nat)
    requires |g| == n * n && Stage(n, k, i, j) && Sound(g, n)
    ensures Covers(g, After(g, n, k, i, j), n, k, i, j)
    decreases k, i, j
  {
    hide Covers, Sound, Visit, Backed, BelowRoads;
    if j > 0 {
      AlwaysCovers(g, n, k, i, j - 1);
      AlwaysBacked(g, n, k, i, j - 1);
      NextCovers(g, After(g, n, k, i, j - 1), n, k, i, j - 1);
    } else if i > 0 {
      AlwaysCovers(g, n, k, i - 1, n);
      CoversTurn(g, After(g, n, k, i, j), n, k, i - 1);
    } else if k > 0 {
      AlwaysCovers(g, n, k - 1, n, 0);
      CoversTurn(g, After(g, n, k, i, j), n, k - 1, 0);
    } else {
      StartCovers(g, n);
    }
  }

  // ----- the theorem

  lemma SoundIsRight(g: seq<Int>, n: nat)
    requires |g| == n * n && Sound(g, n)
    ensures Right(g, n, Finished(g, n).dist)
  {
    hide At, Length, Sound;
    var t := Finished(g, n);
    AlwaysBacked(g, n, n, 0, 0);
    AlwaysCovers(g, n, n, 0, 0);
    forall x: nat, y: nat | x < n && y < n ensures IsDistance(g, n, x, y, At(t.dist, n, x, y)) {
      var dist := At(t.dist, n, x, y);
      forall w | Joins(g, n, w, x, y) ensures Length(g, n, w) >= dist { assert CoveredAt(g, t, n, w); }
      assert BackedAt(g, t, n, x, y);
    }
  }

  /** A right table has a negative entry only where there is a road of that length. */
  lemma RightIsDirect(g: seq<Int>, n: nat)
    requires |g| == n * n && Right(g, n, Finished(g, n).dist)
    ensures NegativeIsDirect(g, n)
  {
    hide At, Length;
    forall w | IsWalk(g, n, w) && Length(g, n, w) < 0
      ensures At(g, n, w[0], w[|w| - 1]) <= Length(g, n, w)
    {
      var x, y := w[0], w[|w| - 1];
      assert IsDistance(g, n, x, y, At(Finished(g, n).dist, n, x, y)) && Joins(g, n, w, x, y);
      AlwaysPlain(g, n, n, 0, 0, x, y);
    }
  }

  /** A sum below INT_MAX that is offered and fits bounds the last value of its entry. */
  lemma OfferedSum(g: seq<Int>, n: nat, x: nat, k: nat, y: nat)
    requires |g| == n * n && x < n && k < n && y < n
    ensures var t := After(g, n, k, x, y);
            var sum := At(t.dist, n, x, k) + At(t.dist, n, k, y);
            0 <= sum <= INT_MAX ==> At(Finished(g, n).dist, n, x, y) <= sum
  {
    hide At, Hop, Wrap, Visit;
    var t := After(g, n, k, x, y);
    VisitEffect(t, n, k, x, y, x, y);
    GuardOnAnyInts(At(t.dist, n, x, k), At(t.dist, n, k, y));
    OnlySmaller(g, n, k, x, y + 1, x, y);
  }

  /** Entries that end as INT_MAX or as negative roads have that value from the start. */
  lemma NeverChanges(g: seq<Int>, n: nat, k: nat, i: nat, j: nat, x: nat, y: nat)
    requires |g| == n * n && Stage(n, k, i, j) && x < n && y < n && Right(g, n, Finished(g, n).dist)
    ensures !Within(g, n, x, y, INT_MAX - 1) ==>
              At(After(g, n, k, i, j).dist, n, x, y) == At(Finished(g, n).dist, n, x, y) == INT_MAX
    ensures At(g, n, x, y) < 0 ==>
              At(After(g, n, k, i, j).dist, n, x, y) == At(Finished(g, n).dist, n, x, y) == At(g, n, x, y)
  {
    hide At, Hop, Length, IsWalk;
    assert IsDistance(g, n, x, y, At(Finished(g, n).dist, n, x, y));
    AlwaysPlain(g, n, k, i, j, x, y);
    AlwaysPlain(g, n, n, 0, 0, x, y);
    OnlySmaller(g, n, k, i, j, x, y);
    OneRoad(g, n, x, y);
  }

  lemma RightIsFair(g: seq<Int>, n: nat, x: nat, k: nat, y: nat)
    requires |g| == n * n && Right(g, n, Finished(g, n).dist) && x < n && k < n && y < n
    ensures Fair(g, n, x, k, y)
  {
    hide At, Length, IsWalk;
    OfferedSum(g, n, x, k, y);
    NeverChanges(g, n, k, x, y, x, k);
    NeverChanges(g, n, k, x, y, k, y);
    assert IsDistance(g, n, x, y, At(Finished(g, n).dist, n, x, y));
  }

  /** The loops find all distances if and only if no walk of negative length is shorter than the road
      between its ends, and no sum of INT_MAX and a negative road undercuts the walks. */
  lemma FloydExactWhen(g: seq<Int>, n: nat)
    requires |g| == n * n
    ensures Right(g, n, Finished(g, n).dist) <==> NegativeIsDirect(g, n) && NothingInvented(g, n)
  {
    hide At, Right, NegativeIsDirect, Fair;
    if Right(g, n, Finished(g, n).dist) {
      RightIsDirect(g, n);
      forall x: nat, k: nat, y: nat | x < n && k < n && y < n ensures Fair(g, n, x, k, y) {
        RightIsFair(g, n, x, k, y);
      }
    }
    if Sound(g, n) { SoundIsRight(g, n); }
  }
}
