/**
  The rank-fusion oracle and the checker that compares an exported fused list with it, tie block by
  tie block: what the checker accepts, and what more it takes to be the oracle's order.
  */
module FusionCheck {
  import opened Common
  import opened Sorting
  import opened Rerank

  type DocId = string

  datatype Fused = Fused(id: DocId, score: real)

  /** The list is longer than the oracle's; the program stops with an index error. */
  datatype Overrun = Overrun

  const RRF_K := 60

  // ---------------------------------------------------------------- the oracle

  function Share(ranks: map<DocId, nat>, id: DocId): real {
    if id in ranks then 1.0 / (RRF_K + ranks[id]) as real else 0.0
  }

  function RrfScore(lexical: map<DocId, nat>, dense: map<DocId, nat>, id: DocId): real {
    Share(lexical, id) + Share(dense, id)
  }

  /** Descending by score, ties by the order `le` of the ids. */
  function ByScoreThenId(le: (DocId, DocId) -> bool): (Fused, Fused) -> bool {
    (a: Fused, b: Fused) => a.score > b.score || (a.score == b.score && le(a.id, b.id))
  }

  /** The fused list over the ids of both stages, met in some order. */
  function Rrf(ids: seq<DocId>, lexical: map<DocId, nat>, dense: map<DocId, nat>,
               le: (DocId, DocId) -> bool): seq<Fused> {
    Sort(Map(id => Fused(id, RrfScore(lexical, dense, id)), ids), ByScoreThenId(le))
  }

  function IdsOf(xs: seq<Fused>): (r: seq<DocId>)
    ensures |r| == |xs| && forall i | 0 <= i < |r| :: r[i] == xs[i].id
  {
    seq(|xs|, i requires 0 <= i < |xs| => xs[i].id)
  }

  predicate Falls(xs: seq<Fused>) {
    forall i, j | 0 <= i < j < |xs| :: xs[i].score >= xs[j].score
  }

  /** What the oracle's list is, as far as the checker goes: no id twice, scores never rising. */
  predicate Oracle(xs: seq<Fused>) {
    Distinct(IdsOf(xs)) && Falls(xs)
  }

  lemma FusedOrder(le: (DocId, DocId) -> bool)
    requires TotalPreorder(le)
    ensures TotalPreorder(ByScoreThenId(le))
  {
    var ahead := ByScoreThenId(le);
    forall x, y ensures ahead(x, y) || ahead(y, x) {
      assert le(x.id, y.id) || le(y.id, x.id);
    }
    forall x, y, z | ahead(x, y) && ahead(y, z) ensures ahead(x, z) {
      if x.score == y.score == z.score {
        assert le(x.id, y.id) && le(y.id, z.id);
      }
    }
  }

  /** The ids met in some order: those of both stages, each once. */
  ghost predicate OfBothStages(ids: seq<DocId>, lexical: map<DocId, nat>, dense: map<DocId, nat>) {
    Distinct(ids) && forall id :: id in ids <==> id in lexical || id in dense
  }

  /** The reciprocal ranks of an id, the constant 60 added to each: its fused score. */
  ghost predicate FusedScoreIs(lexical: map<DocId, nat>, dense: map<DocId, nat>, x: Fused) {
    x.score == (if x.id in lexical then 1.0 / (60 + lexical[x.id]) as real else 0.0) +
               (if x.id in dense then 1.0 / (60 + dense[x.id]) as real else 0.0)
  }

  lemma RrfScoreIs(lexical: map<DocId, nat>, dense: map<DocId, nat>, id: DocId)
    ensures FusedScoreIs(lexical, dense, Fused(id, RrfScore(lexical, dense, id)))
  {
  }

  /**
    The oracle's list holds every id of either stage once, with the sum of its reciprocal ranks, the highest first and
    the lesser id first among equals.
    */
  lemma RrfIsOracle(ids: seq<DocId>, lexical: map<DocId, nat>, dense: map<DocId, nat>, le: (DocId, DocId) -> bool)
    requires OfBothStages(ids, lexical, dense) && TotalPreorder(le)
    ensures var r := Rrf(ids, lexical, dense, le);
            Oracle(r) && OfBothStages(IdsOf(r), lexical, dense) &&
            (forall i | 0 <= i < |r| :: FusedScoreIs(lexical, dense, r[i])) &&
            (forall i, j | 0 <= i < j < |r| ::
               r[i].score > r[j].score || (r[i].score == r[j].score && le(r[i].id, r[j].id)))
  {
    hide Sort, RrfScore, FusedScoreIs;
    var f := (id: DocId) => Fused(id, RrfScore(lexical, dense, id));
    var all, r := Map(f, ids), Rrf(ids, lexical, dense, le);
    FusedOrder(le);
    SortSorted(all, ByScoreThenId(le));
    ElementsOfPermutation(r, all);
    var idOf := (x: Fused) => x.id;
    MapPermutation(idOf, r, all);
    assert Map(idOf, r) == IdsOf(r) && Map(idOf, all) == ids;
    PermutationDistinct(ids, IdsOf(r));
    ElementsOfPermutation(IdsOf(r), ids);
    forall i | 0 <= i < |r| ensures FusedScoreIs(lexical, dense, r[i]) {
      assert r[i] in all;
      RrfScoreIs(lexical, dense, r[i].id);
    }
    forall i, j | 0 <= i < j < |r|
      ensures r[i].score >= r[j].score
      ensures r[i].score > r[j].score || (r[i].score == r[j].score && le(r[i].id, r[j].id))
    {
      assert ByScoreThenId(le)(r[i], r[j]);
    }
  }

  // ---------------------------------------------------------------- the checker

  /** Position `i` holds an id whose oracle score is the oracle's score at `i`. */
  predicate Matches(expected: seq<Fused>, got: seq<DocId>, i: nat)
    requires i < |expected| && i < |got|
  {
    exists p | 0 <= p < |expected| :: expected[p] == Fused(got[i], expected[i].score)
  }

  predicate MatchesTo(expected: seq<Fused>, got: seq<DocId>, n: nat)
    requires n <= |expected| && n <= |got|
  {
    forall i | 0 <= i < n :: Matches(expected, got, i)
  }

  predicate Block(expected: seq<Fused>, i: nat, j: nat) {
    i < j <= |expected| && (forall m | i <= m < j :: expected[m].score == expected[i].score) &&
    (i == 0 || expected[i - 1].score > expected[i].score) &&
      (j == |expected| || expected[j - 1].score > expected[j].score)
  }

  lemma BlockMatches(expected: seq<Fused>, got: seq<DocId>, i: nat, j: nat)
    requires Oracle(expected) && Block(expected, i, j) && i < |got|
    ensures Elements(got[i..Least(j, |got|)]) <= Elements(IdsOf(expected[i..j])) <==>
            forall m | i <= m < Least(j, |got|) :: Matches(expected, got, m)
  {
    hide Distinct;
    var e := Least(j, |got|);
    var have, block := got[i..e], IdsOf(expected[i..j]);
    if Elements(have) <= Elements(block) {
      forall m | i <= m < e ensures Matches(expected, got, m) {
        assert have[m - i] in Elements(have);
        var q :| 0 <= q < |block| && block[q] == got[m];
        assert expected[i + q] == Fused(got[m], expected[m].score);
      }
    }
    if forall m | i <= m < e :: Matches(expected, got, m) {
      forall id | id in Elements(have) ensures id in Elements(block) {
        var q :| 0 <= q < |have| && have[q] == id;
        assert Matches(expected, got, i + q);
        var p :| 0 <= p < |expected| && expected[p] == Fused(got[i + q], expected[i + q].score);
        InBlock(expected, i, j, p);
        assert block[p - i] == id;
      }
    }
  }

  lemma InBlock(expected: seq<Fused>, i: nat, j: nat, p: nat)
    requires Falls(expected) && Block(expected, i, j) && p < |expected| && expected[p].score == expected[i].score
    ensures i <= p < j
  {
    if p < i {
      EndsApart(expected, i, p, i);
    } else if p >= j {
      EndsApart(expected, j, i, p);
    }
  }

  predicate BlockEnd(expected: seq<Fused>, n: nat) {
    n <= |expected| && (n == 0 || n == |expected| || expected[n - 1].score > expected[n].score)
  }

  /** Scores before the end of a block exceed those after it. */
  lemma EndsApart(expected: seq<Fused>, n: nat, a: nat, b: nat)
    requires Falls(expected) && BlockEnd(expected, n) && a < n <= b < |expected|
    ensures expected[a].score > expected[b].score
  {
    assert expected[a].score >= expected[n - 1].score;
    assert expected[n].score >= expected[b].score;
  }

  /**
    The loop over tie blocks.  It accepts exactly the lists whose every position holds an id of the
    score the oracle has there; it looks at a position past the oracle's end only after all of the
    oracle's matched.
    */
  method VerifyFusion(expected: seq<Fused>, got: seq<DocId>) returns (r: Result<bool, Overrun>)
    requires Oracle(expected)
    ensures var n := Least(|expected|, |got|);
            r == if !MatchesTo(expected, got, n) then Ok(false)
                 else if |got| > |expected| then Err(Overrun)
                 else Ok(true)
  {
    hide Oracle, Matches, Elements, Falls;
    var n, i, ok := |got|, 0, true;
    while i < n && ok
      invariant i == 0 || i == |expected| || (i < |expected| && expected[i - 1].score > expected[i].score)
      invariant i <= |expected|
      invariant ok ==> MatchesTo(expected, got, Least(i, n))
      invariant !ok ==> !MatchesTo(expected, got, Least(|expected|, n))
      decreases |expected| - i, ok
    {
      if i >= |expected| {
        return Err(Overrun);
      }
      var score, j := expected[i].score, i;
      while j < |expected| && expected[j].score == score
        invariant i <= j <= |expected| && forall m | i <= m < j :: expected[m].score == score
      {
        j := j + 1;
      }
      BlockEnds(expected, i, j);
      BlockMatches(expected, got, i, j);
      var block, gotBlock := Elements(IdsOf(expected[i..j])), Elements(got[i..Least(j, n)]);
      if !(gotBlock <= block) {
        ok := false;
      }
      i := j;
    }
    r := Ok(ok);
  }

  lemma BlockEnds(expected: seq<Fused>, i: nat, j: nat)
    requires Oracle(expected) && i < j <= |expected| && forall m | i <= m < j :: expected[m].score == expected[i].score
    requires j == |expected| || expected[j].score != expected[i].score
    ensures j < |expected| ==> expected[j - 1].score > expected[j].score
  {
    if j < |expected| {
      assert expected[i].score >= expected[j].score;
    }
  }

  // ---------------------------------------------------------------- what acceptance means

  /**
    Up to the end of any tie block, an accepted list holds the oracle's ids exactly when it holds no
    id twice.
    */
  lemma AcceptedIsPermutationIffDistinct(expected: seq<Fused>, got: seq<DocId>, n: nat)
    requires Oracle(expected) && BlockEnd(expected, n) && n <= |got| && MatchesTo(expected, got, n)
    ensures multiset(got[..n]) == multiset(IdsOf(expected[..n])) <==> Distinct(got[..n])
  {
    hide Matches;
    var have, want := got[..n], IdsOf(expected[..n]);
    PrefixDistinct(expected, n);
    AcceptedInside(expected, got, n);
    if Distinct(have) {
      ElementCount(have);
      ElementCount(want);
      SubsetOfSameSize(Elements(have), Elements(want));
      forall x ensures x in have <==> x in want {
        assert x in have <==> x in Elements(have);
        assert x in want <==> x in Elements(want);
      }
      SameDistinct(have, want);
    }
    if multiset(have) == multiset(want) {
      PermutationDistinct(want, have);
    }
  }

  lemma PrefixDistinct(expected: seq<Fused>, n: nat)
    requires Oracle(expected) && n <= |expected|
    ensures Distinct(IdsOf(expected[..n]))
  {
    forall i, j | 0 <= i < j < n ensures IdsOf(expected[..n])[i] != IdsOf(expected[..n])[j] {
      assert IdsOf(expected)[i] != IdsOf(expected)[j];
    }
  }

  lemma AcceptedInside(expected: seq<Fused>, got: seq<DocId>, n: nat)
    requires Oracle(expected) && BlockEnd(expected, n) && n <= |got| && MatchesTo(expected, got, n)
    ensures Elements(got[..n]) <= Elements(IdsOf(expected[..n]))
  {
    hide Distinct;
    var have, want := got[..n], IdsOf(expected[..n]);
    forall id | id in Elements(have) ensures id in Elements(want) {
      var i :| 0 <= i < n && have[i] == id;
      assert Matches(expected, got, i);
      var p :| 0 <= p < |expected| && expected[p] == Fused(got[i], expected[i].score);
      if p >= n {
        EndsApart(expected, n, i, p);
      }
      assert p < n && want[p] == id;
    }
  }

  lemma {:induction false} ElementCount<T>(xs: seq<T>)
    requires Distinct(xs)
    ensures |Elements(xs)| == |xs|
    decreases |xs|
  {
    if xs != [] {
      var init, last := xs[..|xs| - 1], xs[|xs| - 1];
      ElementCount(init);
      assert Elements(xs) == Elements(init) + {last};
    }
  }

  lemma SubsetOfSameSize<T>(a: set<T>, b: set<T>)
    requires a <= b && |a| == |b|
    ensures a == b
  {
    assert b == a + (b - a);
  }

  // ---------------------------------------------------------------- lists cut inside a tie block

  /** The oracle's list with its tie blocks rearranged. */
  predicate Rearranged(expected: seq<Fused>, full: seq<Fused>) {
    multiset(full) == multiset(expected) && Falls(full)
  }

  ghost predicate BeginsRearranged(expected: seq<Fused>, got: seq<DocId>) {
    exists full :: Rearranged(expected, full) && got <= IdsOf(full)
  }

  /**
    An accepted list, wherever it is cut, repeats no id exactly when it is the beginning of the
    oracle's list under some order of the ties.
    */
  lemma AcceptedBeginsIffDistinct(expected: seq<Fused>, got: seq<DocId>)
    requires Oracle(expected) && |got| <= |expected| && MatchesTo(expected, got, |got|)
    ensures Distinct(got) <==> BeginsRearranged(expected, got)
  {
    hide Oracle, Distinct, Matches;
    if Distinct(got) {
      var full := Rearrangement(expected, got);
    }
    if BeginsRearranged(expected, got) {
      var full :| Rearranged(expected, full) && got <= IdsOf(full);
      RearrangedDistinct(expected, full, got);
    }
  }

  lemma RearrangedDistinct(expected: seq<Fused>, full: seq<Fused>, got: seq<DocId>)
    requires Oracle(expected) && Rearranged(expected, full) && got <= IdsOf(full)
    ensures Distinct(got)
  {
    var idOf := (x: Fused) => x.id;
    MapPermutation(idOf, full, expected);
    assert Map(idOf, full) == IdsOf(full) && Map(idOf, expected) == IdsOf(expected);
    PermutationDistinct(IdsOf(expected), IdsOf(full));
    forall i, j | 0 <= i < j < |got| ensures got[i] != got[j] {
      assert got[i] == IdsOf(full)[i] && got[j] == IdsOf(full)[j];
    }
  }

  /** The ids of an accepted list with the oracle's scores. */
  function Scored(expected: seq<Fused>, got: seq<DocId>): (r: seq<Fused>)
    requires |got| <= |expected|
    ensures |r| == |got| && forall i | 0 <= i < |r| :: r[i] == Fused(got[i], expected[i].score)
  {
    seq(|got|, i requires 0 <= i < |got| => Fused(got[i], expected[i].score))
  }

  /** Behind the accepted ids, the oracle's others in their order. */
  lemma Rearrangement(expected: seq<Fused>, got: seq<DocId>) returns (full: seq<Fused>)
    requires Oracle(expected) && |got| <= |expected| && MatchesTo(expected, got, |got|) && Distinct(got)
    ensures Rearranged(expected, full) && got <= IdsOf(full)
  {
    hide Drop, Elements, Matches, Distinct;
    var front := Scored(expected, got);
    var rest := Drop(expected, Elements(front));
    full := front + rest;
    ScoredDistinct(expected, got);
    FrontIsKept(expected, front);
    DropFalls(expected, Elements(front));
    forall i, j | 0 <= i < j < |full| ensures full[i].score >= full[j].score {
      if i < |front| {
        if j < |front| {
          assert expected[i].score >= expected[j].score;
        } else {
          RestIsLow(expected, got, rest[j - |front|]);
          assert expected[i].score >= expected[|got| - 1].score;
        }
      } else {
        assert rest[i - |front|].score >= rest[j - |front|].score;
      }
    }
    assert IdsOf(full)[..|got|] == got;
  }

  lemma ScoredDistinct(expected: seq<Fused>, got: seq<DocId>)
    requires Oracle(expected) && |got| <= |expected| && MatchesTo(expected, got, |got|) && Distinct(got)
    ensures Distinct(expected) && Distinct(Scored(expected, got))
    ensures forall x | x in Scored(expected, got) :: x in expected
  {
    forall i, j | 0 <= i < j < |expected| ensures expected[i] != expected[j] {
      assert IdsOf(expected)[i] != IdsOf(expected)[j];
    }
    forall i | 0 <= i < |got| ensures Scored(expected, got)[i] in expected {
      assert Matches(expected, got, i);
    }
  }

  lemma {:induction false} DropFalls(xs: seq<Fused>, gone: set<Fused>)
    requires Falls(xs)
    ensures Falls(Drop(xs, gone)) && forall x | x in Drop(xs, gone) :: x in xs && x !in gone
    decreases |xs|
  {
    if xs != [] {
      var init, last := xs[..|xs| - 1], xs[|xs| - 1];
      DropFalls(init, gone);
      var before := Drop(init, gone);
      forall i | 0 <= i < |before| ensures before[i].score >= last.score {
        assert before[i] in init;
      }
    }
  }

  /** The first position of the tie block that position `m` is in. */
  function BlockStart(expected: seq<Fused>, m: nat): (b: nat)
    requires m < |expected| && Falls(expected)
    ensures b <= m && expected[b].score == expected[m].score && BlockEnd(expected, b)
  {
    if m == 0 || expected[m - 1].score > expected[m].score then m else BlockStart(expected, m - 1)
  }

  /** What an accepted list without repeats leaves out ranks no higher than its last id. */
  lemma RestIsLow(expected: seq<Fused>, got: seq<DocId>, x: Fused)
    requires Oracle(expected) && 0 < |got| <= |expected| && MatchesTo(expected, got, |got|) && Distinct(got)
    requires x in Drop(expected, Elements(Scored(expected, got)))
    ensures x.score <= expected[|got| - 1].score
  {
    hide Drop, Distinct, Matches;
    var b := BlockStart(expected, |got| - 1);
    DropFalls(expected, Elements(Scored(expected, got)));
    var p :| 0 <= p < |expected| && expected[p] == x;
    if p >= b {
      assert p == b || expected[b].score >= expected[p].score;
    } else {
      AheadIsTaken(expected, got, b, p);
    }
  }

  lemma AheadIsTaken(expected: seq<Fused>, got: seq<DocId>, b: nat, p: nat)
    requires Oracle(expected) && BlockEnd(expected, b) && b <= |got| <= |expected| && p < b
    requires MatchesTo(expected, got, |got|) && Distinct(got)
    ensures expected[p] in Elements(Scored(expected, got))
  {
    hide Matches;
    AcceptedIsPermutationIffDistinct(expected, got, b);
    ElementsOfPermutation(got[..b], IdsOf(expected[..b]));
    assert IdsOf(expected[..b])[p] == expected[p].id;
    assert expected[p].id in got[..b];
    var i :| 0 <= i < b && got[..b][i] == expected[p].id;
    SameIdSameEntry(expected, got, i, p);
    assert Scored(expected, got)[i] == expected[p];
  }

  lemma SameIdSameEntry(expected: seq<Fused>, got: seq<DocId>, i: nat, p: nat)
    requires Oracle(expected) && i < |got| && i < |expected| && p < |expected|
    requires Matches(expected, got, i) && got[i] == expected[p].id
    ensures expected[p] == Fused(got[i], expected[i].score)
  {
    var q :| 0 <= q < |expected| && expected[q] == Fused(got[i], expected[i].score);
    assert IdsOf(expected)[p] == expected[p].id && IdsOf(expected)[q] == expected[q].id;
  }

  /** The checker compares sets, so it also accepts a list that repeats one id of a tie and leaves the other out. */
  lemma RepeatsPass(a: DocId, b: DocId, score: real)
    requires a != b
    ensures var expected := [Fused(a, score), Fused(b, score)];
            Oracle(expected) && MatchesTo(expected, [a, a], 2) && multiset([a, a]) != multiset(IdsOf(expected))
  {
    var expected := [Fused(a, score), Fused(b, score)];
    assert expected[0] == Fused([a, a][0], expected[0].score);
    assert expected[0] == Fused([a, a][1], expected[1].score);
    assert Matches(expected, [a, a], 0) && Matches(expected, [a, a], 1);
    assert IdsOf(expected) == [a, b];
    assert multiset([a, a])[b] == 0 && multiset([a, b])[b] == 1;
  }
}
