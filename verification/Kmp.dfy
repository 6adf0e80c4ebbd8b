/** Knuth-Morris-Pratt search with a full automaton table (string_match/kmp_dfa.cpp).

    The table is filled in place from the pattern alone; its meaning, "how much of the
    pattern ends the text read so far", is stated here without mentioning the table. */
module Kmp {

  /** A character usable as a row index of the table. */
  type Code = c: int | 0 <= c < 256

  const ROWS: nat := 256

  /** The first `k` characters of `p` end `w`. */
  ghost predicate Ends(p: seq<Code>, w: seq<Code>, k: nat) {
    k <= |p| && k <= |w| && p[..k] == w[|w| - k..]
  }

  /** `k` is the length of the longest prefix of `p` that ends `w`. */
  ghost predicate Longest(p: seq<Code>, w: seq<Code>, k: nat) {
    Ends(p, w, k) && forall m: nat :: Ends(p, w, m) ==> m <= k
  }

  lemma LongestExists(p: seq<Code>, w: seq<Code>)
    ensures exists k: nat :: Longest(p, w, k)
  {
    var k: nat := |w|;
    while !Ends(p, w, k)
      invariant forall m: nat :: Ends(p, w, m) ==> m <= k
      decreases k
    {
      assert Ends(p, w, 0);
      k := k - 1;
    }
    assert Longest(p, w, k);
  }

  /** The length of the longest prefix of `p` that ends `w`. */
  ghost function Overlap(p: seq<Code>, w: seq<Code>): nat {
    LongestExists(p, w);
    var k: nat :| Longest(p, w, k);
    k
  }

  lemma EndsSnoc(p: seq<Code>, w: seq<Code>, c: Code, m: nat)
    ensures Ends(p, w + [c], m + 1) <==> m < |p| && p[m] == c && Ends(p, w, m)
  {
    if m < |p| && m <= |w| {
      assert p[..m + 1] == p[..m] + [p[m]];
      assert (w + [c])[|w| - m..] == w[|w| - m..] + [c];
      if Ends(p, w + [c], m + 1) {
        assert p[..m] == p[..m + 1][..m] == w[|w| - m..];
        assert p[m] == p[..m + 1][m] == c;
      }
    }
  }

  /** Below a known overlap `k`, the overlaps of `w` are those of `p[..k]`. */
  lemma EndsNested(p: seq<Code>, w: seq<Code>, k: nat, m: nat)
    requires Ends(p, w, k) && m <= k
    ensures Ends(p, w, m) <==> Ends(p, p[..k], m)
  {
    assert w[|w| - m..] == w[|w| - k..][k - m..];
  }

  /** The automaton's transition from state `k` on character `c`. */
  ghost function Goto(p: seq<Code>, k: nat, c: Code): (next: nat)
    requires k < |p|
  {
    Overlap(p, p[..k] + [c])
  }

  /** One automaton transition: the state alone decides the next state, whatever `w` was. */
  lemma {:induction false} Transition(p: seq<Code>, w: seq<Code>, k: nat, c: Code)
    requires k < |p| && k == Overlap(p, w)
    ensures Overlap(p, w + [c]) == Goto(p, k, c)
  {
    var next := Goto(p, k, c);
    if next > 0 {
      EndsSnoc(p, p[..k], c, next - 1);
      EndsNested(p, w, k, next - 1);
      EndsSnoc(p, w, c, next - 1);
    }
    forall m: nat | Ends(p, w + [c], m)
      ensures m <= next
    {
      if m > 0 {
        EndsSnoc(p, w, c, m - 1);
        EndsNested(p, w, k, m - 1);
        EndsSnoc(p, p[..k], c, m - 1);
      }
    }
  }

  /** On a mismatch the automaton behaves as if started one character later. */
  lemma Mismatch(p: seq<Code>, j: nat, c: Code)
    requires 1 <= j < |p| && c != p[j] && Overlap(p, p[1..j]) < |p|
    ensures Goto(p, j, c) == Goto(p, Overlap(p, p[1..j]), c)
  {
    Transition(p, p[1..j], Overlap(p, p[1..j]), c);
    var long, short := p[..j] + [c], p[1..j] + [c];
    forall m: nat | m <= j
      ensures Ends(p, long, m) <==> Ends(p, short, m)
    {
      assert long[|long| - m..] == short[|short| - m..];
    }
    EndsSnoc(p, p[..j], c, j);
  }

  /** A later column of the table, from the column of the restart state. */
  lemma LaterColumn(p: seq<Code>, j: nat, c: Code)
    requires 1 <= j < |p| && Overlap(p, p[1..j]) < j
    ensures Goto(p, j, c) == if c == p[j] then j + 1 else Goto(p, Overlap(p, p[1..j]), c)
  {
    if c == p[j] {
      assert p[..j] + [c] == p[..j + 1];
      assert Ends(p, p[..j + 1], j + 1);
    } else {
      Mismatch(p, j, c);
    }
  }

  /** The restart state is the automaton's state after reading the pattern without its head. */
  lemma Restart(p: seq<Code>, j: nat, x: nat)
    requires 1 <= j < |p| && x == Overlap(p, p[1..j]) && x < j
    ensures Goto(p, x, p[j]) == Overlap(p, p[1..j + 1]) <= j
  {
    Transition(p, p[1..j], x, p[j]);
    assert p[1..j] + [p[j]] == p[1..j + 1];
  }

  lemma OverlapOfEmpty(p: seq<Code>)
    ensures Overlap(p, []) == 0
  {
    assert Ends(p, [], 0);
  }

  lemma FirstColumn(p: seq<Code>, c: Code)
    requires |p| > 0
    ensures Goto(p, 0, c) == if c == p[0] then 1 else 0
  {
    assert p[..0] + [c] == [c];
    assert Ends(p, [c], 1) <==> p[0] == c by { assert p[..1] == [p[0]]; assert [c][0..] == [c]; }
  }

  /** Columns below `upTo` of the table hold the automaton's transitions. */
  ghost predicate Filled(dfa: array2<nat>, p: seq<Code>, upTo: nat)
    requires dfa.Length0 == ROWS && upTo <= dfa.Length1 == |p|
    reads dfa
  {
    forall c: Code, i: nat :: i < upTo ==> dfa[c, i] == Goto(p, i, c)
  }

  /** Builds the whole table. The entry for state `j` and character `c` is the length of the
      longest pattern prefix that ends `p[..j]` followed by `c`. */
  method BuildDfa(p: seq<Code>) returns (dfa: array2<nat>)
    requires |p| > 0
    ensures fresh(dfa) && dfa.Length0 == ROWS && dfa.Length1 == |p|
    ensures Filled(dfa, p, |p|)
  {
    hide Goto, Overlap;
    dfa := new nat[ROWS, |p|]((_, _) => 0);
    dfa[p[0], 0] := 1;
    forall c: Code { FirstColumn(p, c); }
    var x: nat := 0;
    OverlapOfEmpty(p);
    assert p[1..1] == [];
    for j := 1 to |p|
      invariant Filled(dfa, p, j)
      invariant x < j && x == Overlap(p, p[1..j])
    {
      for c := 0 to ROWS
        invariant Filled(dfa, p, j)
        invariant forall d: Code :: d < c ==> dfa[d, j] == Goto(p, x, d)
      {
        dfa[c, j] := dfa[c, x];
      }
      dfa[p[j], j] := j + 1;
      forall c: Code { LaterColumn(p, j, c); }
      Restart(p, j, x);
      x := dfa[p[j], x];
    }
  }

  ghost predicate Occurs(text: seq<Code>, p: seq<Code>, s: nat) {
    s + |p| <= |text| && text[s..s + |p|] == p
  }

  /** The naive scan: report an occurrence, then go on after its end. */
  ghost function Greedy(text: seq<Code>, p: seq<Code>, from: nat): (hits: seq<nat>)
    requires |p| > 0
    decreases |text| - from
  {
    if from + |p| > |text| then []
    else if Occurs(text, p, from) then [from] + Greedy(text, p, from + |p|)
    else Greedy(text, p, from + 1)
  }

  /** Position `s` lies inside one of the reported occurrences. */
  ghost predicate Inside(hits: seq<nat>, len: nat, s: nat) {
    exists t :: 0 <= t < |hits| && hits[t] <= s < hits[t] + len
  }

  ghost predicate AllOccur(text: seq<Code>, p: seq<Code>, from: nat, hits: seq<nat>) {
    forall t :: 0 <= t < |hits| ==> from <= hits[t] && Occurs(text, p, hits[t])
  }

  ghost predicate Disjoint(hits: seq<nat>, len: nat) {
    forall t, u :: 0 <= t < u < |hits| ==> hits[t] + len <= hits[u]
  }

  ghost predicate AllCovered(text: seq<Code>, p: seq<Code>, from: nat, hits: seq<nat>) {
    forall s: nat :: from <= s && Occurs(text, p, s) ==> Inside(hits, |p|, s)
  }

  /** Occurrences only, in order, disjoint, and every occurrence of the pattern is either
      reported or begins inside a reported one. */
  ghost predicate LeftmostDisjoint(text: seq<Code>, p: seq<Code>, from: nat, hits: seq<nat>) {
    AllOccur(text, p, from, hits) && Disjoint(hits, |p|) && AllCovered(text, p, from, hits)
  }

  lemma DisjointCons(first: nat, rest: seq<nat>, len: nat)
    requires Disjoint(rest, len) && forall t :: 0 <= t < |rest| ==> first + len <= rest[t]
    ensures Disjoint([first] + rest, len)
  {}

  lemma InsideCons(first: nat, rest: seq<nat>, len: nat, s: nat)
    ensures Inside([first] + rest, len, s) <==> first <= s < first + len || Inside(rest, len, s)
  {
    var hits := [first] + rest;
    if Inside(rest, len, s) {
      var t :| 0 <= t < |rest| && rest[t] <= s < rest[t] + len;
      assert hits[t + 1] == rest[t];
    }
    if first <= s < first + len {
      assert hits[0] == first;
    }
  }

  lemma LeftmostDisjointNil(text: seq<Code>, p: seq<Code>, from: nat)
    requires from + |p| > |text|
    ensures LeftmostDisjoint(text, p, from, [])
  {}

  lemma LeftmostDisjointSkip(text: seq<Code>, p: seq<Code>, from: nat, hits: seq<nat>)
    requires !Occurs(text, p, from) && LeftmostDisjoint(text, p, from + 1, hits)
    ensures LeftmostDisjoint(text, p, from, hits)
  {
    hide Occurs, Inside;
  }

  lemma LeftmostDisjointCons(text: seq<Code>, p: seq<Code>, from: nat, rest: seq<nat>)
    requires Occurs(text, p, from) && LeftmostDisjoint(text, p, from + |p|, rest)
    ensures LeftmostDisjoint(text, p, from, [from] + rest)
  {
    hide Occurs, Inside;
    forall s: nat { InsideCons(from, rest, |p|, s); }
    DisjointCons(from, rest, |p|);
  }

  /** The naive scan reports the leftmost disjoint occurrences. */
  lemma {:induction false} GreedyIsLeftmostDisjoint(text: seq<Code>, p: seq<Code>, from: nat)
    requires |p| > 0
    ensures LeftmostDisjoint(text, p, from, Greedy(text, p, from))
    decreases |text| - from
  {
    hide LeftmostDisjoint, Occurs;
    if from + |p| > |text| {
      LeftmostDisjointNil(text, p, from);
    } else if Occurs(text, p, from) {
      GreedyIsLeftmostDisjoint(text, p, from + |p|);
      LeftmostDisjointCons(text, p, from, Greedy(text, p, from + |p|));
    } else {
      GreedyIsLeftmostDisjoint(text, p, from + 1);
      LeftmostDisjointSkip(text, p, from, Greedy(text, p, from + 1));
    }
  }

  lemma {:induction false} GreedySkips(text: seq<Code>, p: seq<Code>, from: nat, upTo: nat)
    requires |p| > 0 && from <= upTo
    requires forall s: nat :: from <= s < upTo ==> !Occurs(text, p, s)
    ensures Greedy(text, p, from) == Greedy(text, p, upTo)
    decreases upTo - from
  {
    if from < upTo { GreedySkips(text, p, from + 1, upTo); }
  }

  /** A full overlap at the end of `text[start..i]` is an occurrence ending at `i`. */
  lemma FullOverlap(text: seq<Code>, p: seq<Code>, start: nat, i: nat)
    requires start <= i <= |text|
    ensures Overlap(p, text[start..i]) <= |p|
    ensures Overlap(p, text[start..i]) == |p| <==> i - start >= |p| && Occurs(text, p, i - |p|)
  {
    var w := text[start..i];
    assert Overlap(p, w) == |p| <==> Ends(p, w, |p|);
    if |w| >= |p| {
      assert w[|w| - |p|..] == text[i - |p|..i];
      assert p[..|p|] == p;
    }
  }

  /** The search has read `text[..i]`, reported `hits`, and restarted at `start`. */
  ghost predicate Scanned(text: seq<Code>, p: seq<Code>, start: nat, i: nat, j: nat, hits: seq<nat>) {
    && start <= i <= |text| && j < |p| && j == Overlap(p, text[start..i])
    && (forall s: nat :: start <= s && s + |p| <= i ==> !Occurs(text, p, s))
    && hits + Greedy(text, p, start) == Greedy(text, p, 0)
  }

  lemma ScanMiss(text: seq<Code>, p: seq<Code>, start: nat, i: nat, j: nat, hits: seq<nat>)
    requires i < |text| && Scanned(text, p, start, i, j, hits) && Goto(p, j, text[i]) != |p|
    ensures Goto(p, j, text[i]) < |p| && Scanned(text, p, start, i + 1, Goto(p, j, text[i]), hits)
  {
    Transition(p, text[start..i], j, text[i]);
    assert text[start..i] + [text[i]] == text[start..i + 1];
    FullOverlap(text, p, start, i + 1);
  }

  lemma HitOccurs(text: seq<Code>, p: seq<Code>, start: nat, i: nat, j: nat)
    requires start <= i < |text| && j < |p| && j == Overlap(p, text[start..i])
    requires Goto(p, j, text[i]) == |p|
    ensures start + |p| <= i + 1 && Occurs(text, p, i + 1 - |p|)
  {
    Transition(p, text[start..i], j, text[i]);
    assert text[start..i] + [text[i]] == text[start..i + 1];
    FullOverlap(text, p, start, i + 1);
  }

  /** The first occurrence at or after `from` is taken, and the search goes on behind it. */
  lemma GreedyTakes(text: seq<Code>, p: seq<Code>, from: nat, at: nat)
    requires |p| > 0 && from <= at && Occurs(text, p, at) && forall s: nat :: from <= s < at ==> !Occurs(text, p, s)
    ensures Greedy(text, p, from) == [at] + Greedy(text, p, at + |p|)
  {
    GreedySkips(text, p, from, at);
  }

  lemma ScanHit(text: seq<Code>, p: seq<Code>, start: nat, i: nat, j: nat, hits: seq<nat>)
    requires i < |text| && Scanned(text, p, start, i, j, hits) && Goto(p, j, text[i]) == |p|
    ensures i + 1 >= |p| && Scanned(text, p, i + 1, i + 1, 0, hits + [i + 1 - |p|])
  {
    hide Overlap, Greedy, Goto, Occurs;
    HitOccurs(text, p, start, i, j);
    GreedyTakes(text, p, start, i + 1 - |p|);
    OverlapOfEmpty(p);
    assert text[i + 1..i + 1] == [];
    HitsSnoc(hits, i + 1 - |p|, Greedy(text, p, i + 1));
  }

  lemma HitsSnoc(hits: seq<nat>, at: nat, rest: seq<nat>)
    ensures hits + [at] + rest == hits + ([at] + rest)
  {}

  lemma ScanStart(text: seq<Code>, p: seq<Code>)
    requires |p| > 0
    ensures Scanned(text, p, 0, 0, 0, [])
  {
    OverlapOfEmpty(p);
    assert text[0..0] == [];
  }

  lemma ScanEnd(text: seq<Code>, p: seq<Code>, start: nat, j: nat, hits: seq<nat>)
    requires Scanned(text, p, start, |text|, j, hits)
    ensures hits == Greedy(text, p, 0)
  {
    hide Overlap;
    GreedySkips(text, p, start, |text| + 1);
  }

  /** Reports the positions of the matches found while running the automaton over the text. */
  method Search(text: seq<Code>, p: seq<Code>) returns (hits: seq<nat>)
    requires |p| > 0
    ensures hits == Greedy(text, p, 0)
    ensures LeftmostDisjoint(text, p, 0, hits)
  {
    hide Scanned, Goto, Greedy, LeftmostDisjoint;
    var dfa := BuildDfa(p);
    hits := [];
    var j: nat := 0;
    ghost var start: nat := 0;
    ScanStart(text, p);
    for i := 0 to |text|
      invariant Filled(dfa, p, |p|)
      invariant j < |p| && Scanned(text, p, start, i, j, hits)
    {
      ghost var was := j;
      j := dfa[text[i], j];
      if j == |p| {
        ScanHit(text, p, start, i, was, hits);
        hits := hits + [i + 1 - |p|];
        start := i + 1;
        j := 0;
      } else {
        ScanMiss(text, p, start, i, was, hits);
      }
    }
    ScanEnd(text, p, start, j, hits);
    GreedyIsLeftmostDisjoint(text, p, 0);
  }
}
