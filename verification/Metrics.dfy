/**
  nDCG@k and Recall@k over an ordered id list.  The discount is any positive, strictly increasing
  sequence in place of `log2(rank + 1)`, scores are real numbers, and the judgements of a query are
  its `(id, grade)` pairs in key order.
  */
module Metrics {
  import opened Sorting

  type Id = string

  datatype Judgement = Judgement(id: Id, grade: nat)

  /** The judgements of one query: no id twice. */
  predicate IsMap(grades: seq<Judgement>) {
    forall i, j | 0 <= i < j < |grades| :: grades[i].id != grades[j].id
  }

  ghost predicate IsDiscount(discount: nat -> real) {
    forall rank | rank >= 1 :: 0.0 < discount(rank) < discount(rank + 1)
  }

  /** What a floating-point quotient can be. */
  datatype Score = Finite(value: real) | Infinite | NotANumber

  function Quotient(a: real, b: real): Score {
    if b != 0.0 then Finite(a / b) else if a != 0.0 then Infinite else NotANumber
  }

  // ---------------------------------------------------------------- the head

  /** The first `k` distinct ids among the first `n`. */
  function HeadTo(ranked: seq<Id>, n: nat, k: nat): (h: seq<Id>)
    requires n <= |ranked|
    ensures |h| <= k && Distinct(h)
  {
    if n == 0 then []
    else
      var h := HeadTo(ranked, n - 1, k);
      if |h| == k || ranked[n - 1] in h then h else h + [ranked[n - 1]]
  }

  function Head(ranked: seq<Id>, k: nat): seq<Id> {
    HeadTo(ranked, |ranked|, k)
  }

  method ComputeHead(ranked: seq<Id>, k: nat) returns (out: seq<Id>)
    ensures out == Head(ranked, k)
  {
    var seen: set<Id> := {};
    out := [];
    for n := 0 to |ranked|
      invariant out == HeadTo(ranked, n, k)
      invariant forall id :: id in seen <==> id in out
    {
      if |out| == k {
        HeadFull(ranked, n, |ranked|, k);
        break;
      }
      if ranked[n] !in seen {
        seen := seen + {ranked[n]};
        out := out + [ranked[n]];
      }
    }
  }

  lemma {:induction false} HeadFull(ranked: seq<Id>, n: nat, m: nat, k: nat)
    requires n <= m <= |ranked| && |HeadTo(ranked, n, k)| == k
    ensures HeadTo(ranked, m, k) == HeadTo(ranked, n, k)
    decreases m
  {
    if n < m {
      HeadFull(ranked, n, m - 1, k);
    }
  }

  /** A list without repeats is cut at `k`. */
  lemma {:induction false} HeadOfDistinct(ranked: seq<Id>, n: nat, k: nat)
    requires n <= |ranked| && Distinct(ranked)
    ensures HeadTo(ranked, n, k) == ranked[..if n <= k then n else k]
    decreases n
  {
    if n > 0 {
      HeadOfDistinct(ranked, n - 1, k);
    }
  }

  /** `id` is first at rank `p`, and every id ranked before it is in `before`. */
  predicate FirstAt(ranked: seq<Id>, p: nat, id: Id, before: seq<Id>)
    requires p < |ranked|
  {
    ranked[p] == id && id !in ranked[..p] && forall x | x in ranked[..p] :: x in before
  }

  ghost predicate FirstRanked(ranked: seq<Id>, n: nat, id: Id, before: seq<Id>)
    requires n <= |ranked|
  {
    exists p :: 0 <= p < n && FirstAt(ranked, p, id, before)
  }

  /**
    Each id of the head stands at its first rank, behind the ids that come first before it; a head that
    is not full has them all.
    */
  lemma {:induction false} HeadMeaning(ranked: seq<Id>, n: nat, k: nat)
    requires n <= |ranked|
    ensures var h := HeadTo(ranked, n, k);
            (forall i | 0 <= i < |h| :: FirstRanked(ranked, n, h[i], h[..i])) &&
            (|h| < k ==> forall id | id in ranked[..n] :: id in h)
    decreases n
  {
    hide FirstAt;
    if n > 0 {
      HeadMeaning(ranked, n - 1, k);
      var g, h := HeadTo(ranked, n - 1, k), HeadTo(ranked, n, k);
      assert ranked[..n] == ranked[..n - 1] + [ranked[n - 1]];
      forall i | 0 <= i < |h| ensures FirstRanked(ranked, n, h[i], h[..i]) {
        if i < |g| {
          assert g[..i] == h[..i] && FirstRanked(ranked, n - 1, g[i], g[..i]);
        } else {
          FirstSeen(ranked, n - 1, k);
          assert h[..i] == g;
        }
      }
    }
  }

  lemma FirstSeen(ranked: seq<Id>, n: nat, k: nat)
    requires n < |ranked| && |HeadTo(ranked, n, k)| < k && ranked[n] !in HeadTo(ranked, n, k)
    requires forall id | id in ranked[..n] :: id in HeadTo(ranked, n, k)
    ensures FirstAt(ranked, n, ranked[n], HeadTo(ranked, n, k))
  {
  }

  // ---------------------------------------------------------------- gains

  function GradeOf(grades: seq<Judgement>, id: Id): nat {
    if grades == [] then 0 else if grades[0].id == id then grades[0].grade else GradeOf(grades[1..], id)
  }

  function Gains(ids: seq<Id>, grades: seq<Judgement>): (g: seq<nat>)
    ensures |g| == |ids| && forall i | 0 <= i < |g| :: g[i] == GradeOf(grades, ids[i])
  {
    seq(|ids|, i requires 0 <= i < |ids| => GradeOf(grades, ids[i]))
  }

  /** The grades above zero, in key order. */
  function Positive(grades: seq<Judgement>): seq<nat> {
    if grades == [] then []
    else (if grades[0].grade > 0 then [grades[0].grade] else []) + Positive(grades[1..])
  }

  predicate Descending(a: nat, b: nat) {
    a >= b
  }

  function Take<T>(s: seq<T>, k: nat): seq<T> {
    if |s| <= k then s else s[..k]
  }

  /** The positive grades, best first, cut at `k`. */
  function Ideal(grades: seq<Judgement>, k: nat): seq<nat> {
    Take(Sort(Positive(grades), Descending), k)
  }

  // ---------------------------------------------------------------- the two metrics

  function Dcg(gains: seq<nat>, discount: nat -> real): real
    requires forall rank | rank >= 1 :: discount(rank) != 0.0
  {
    if gains == [] then 0.0
    else Dcg(gains[..|gains| - 1], discount) + gains[|gains| - 1] as real / discount(|gains|)
  }

  function NdcgAt(ranked: seq<Id>, grades: seq<Judgement>, k: nat, discount: nat -> real): Score
    requires forall rank | rank >= 1 :: discount(rank) != 0.0
  {
    if Positive(grades) == [] then Finite(0.0)
    else Quotient(Dcg(Gains(Head(ranked, k), grades), discount), Dcg(Ideal(grades, k), discount))
  }

  function Hits(ids: seq<Id>, grades: seq<Judgement>): nat {
    if ids == [] then 0 else Hits(ids[..|ids| - 1], grades) + if GradeOf(grades, ids[|ids| - 1]) > 0 then 1 else 0
  }

  function RecallAt(ranked: seq<Id>, grades: seq<Judgement>, k: nat): real {
    var relevant := |Positive(grades)|;
    if relevant == 0 then 0.0 else Hits(Head(ranked, k), grades) as real / relevant as real
  }

  // ---------------------------------------------------------------- rearrangement

  /** The gain at position `i`, zero past the end. */
  function At(s: seq<nat>, i: nat): nat {
    if i < |s| then s[i] else 0
  }

  /** The sum of the first `n` gains. */
  function Sum(s: seq<nat>, n: nat): nat {
    if n == 0 then 0 else Sum(s, n - 1) + At(s, n - 1)
  }

  /** The discounted sum of the first `n` gains. */
  function Weighted(s: seq<nat>, n: nat, discount: nat -> real): real
    requires forall rank | rank >= 1 :: discount(rank) != 0.0
  {
    if n == 0 then 0.0 else Weighted(s, n - 1, discount) + At(s, n - 1) as real / discount(n)
  }

  lemma {:induction false} DcgIsWeighted(s: seq<nat>, n: nat, discount: nat -> real)
    requires forall rank | rank >= 1 :: discount(rank) != 0.0
    requires |s| <= n
    ensures Dcg(s, discount) == Weighted(s, n, discount)
    decreases n
  {
    if |s| < n {
      DcgIsWeighted(s, n - 1, discount);
    } else if n > 0 {
      DcgIsWeighted(s[..n - 1], n - 1, discount);
      WeightedLocal(s, s[..n - 1], n - 1, discount);
    }
  }

  lemma {:induction false} WeightedLocal(s: seq<nat>, t: seq<nat>, n: nat, discount: nat -> real)
    requires forall rank | rank >= 1 :: discount(rank) != 0.0
    requires forall i | 0 <= i < n :: At(s, i) == At(t, i)
    ensures Weighted(s, n, discount) == Weighted(t, n, discount)
    decreases n
  {
    if n > 0 {
      WeightedLocal(s, t, n - 1, discount);
    }
  }

  /** The reciprocals of the discount fall strictly and stay positive. */
  lemma Falling(discount: nat -> real, rank: nat)
    requires IsDiscount(discount) && rank >= 1
    ensures 0.0 < 1.0 / discount(rank + 1) < 1.0 / discount(rank)
  {
    var a, b := discount(rank), discount(rank + 1);
    var x, y := 1.0 / a, 1.0 / b;
    assert x * a == 1.0 && y * b == 1.0;
    Positive1(y, b);
    Positive1(x, a);
    if y >= x {
      MulMono(y, x, b);
      MulMono2(x, a, b);
    }
  }

  lemma Positive1(x: real, a: real)
    requires a > 0.0 && x * a == 1.0
    ensures x > 0.0
  {
  }

  lemma MulMono(y: real, x: real, b: real)
    requires y >= x && b > 0.0
    ensures y * b >= x * b
  {
  }

  lemma MulMono2(x: real, a: real, b: real)
    requires x > 0.0 && a < b
    ensures x * a < x * b
  {
  }

  /** How far `h` is ahead of `g` after `n` gains, and after `n` discounted gains. */
  function Lead(g: seq<nat>, h: seq<nat>, n: nat): int {
    Sum(h, n) - Sum(g, n)
  }

  function WeightedLead(g: seq<nat>, h: seq<nat>, n: nat, discount: nat -> real): real
    requires forall rank | rank >= 1 :: discount(rank) != 0.0
  {
    Weighted(h, n, discount) - Weighted(g, n, discount)
  }

  ghost predicate Ahead(g: seq<nat>, h: seq<nat>, n: nat) {
    forall i | 0 <= i <= n :: Lead(g, h, i) >= 0
  }

  lemma AbelArithmetic(d: real, w: real, w': real, p: real, p': real)
    requires 0.0 < w' < w && p >= 0.0 && p' >= 0.0 && d >= w * p
    ensures d + w' * (p' - p) >= w' * p'
    ensures d + w' * (p' - p) == 0.0 ==> p' == 0.0 && p == 0.0 && d == 0.0
  {
    assert w' * (p' - p) == w' * p' - w' * p;
    assert (w - w') * p >= 0.0 && (w - w') * p == w * p - w' * p;
    assert w' * p' >= 0.0;
    if d + w' * (p' - p) == 0.0 {
      assert w' * p' == 0.0 && (w - w') * p == 0.0;
    }
  }

  lemma WeightedStep(g: seq<nat>, h: seq<nat>, n: nat, discount: nat -> real)
    requires forall rank | rank >= 1 :: discount(rank) != 0.0
    requires n >= 1
    ensures WeightedLead(g, h, n, discount) ==
            WeightedLead(g, h, n - 1, discount) +
              (1.0 / discount(n)) * (Lead(g, h, n) as real - Lead(g, h, n - 1) as real)
  {
    hide At;
    ShareDifference(discount(n), At(h, n - 1) as real, At(g, n - 1) as real);
  }

  lemma ShareDifference(w: real, a: real, b: real)
    requires w != 0.0
    ensures a / w - b / w == (1.0 / w) * (a - b)
  {
    assert a / w == (1.0 / w) * a && b / w == (1.0 / w) * b;
    assert (1.0 / w) * (a - b) == (1.0 / w) * a - (1.0 / w) * b;
  }

  /** Abel summation: being ahead on every prefix is being ahead in discounted sum, strictly so unless always level. */
  lemma {:induction false} AheadIsWorthMore(g: seq<nat>, h: seq<nat>, n: nat, discount: nat -> real)
    requires IsDiscount(discount) && n >= 1 && Ahead(g, h, n)
    ensures WeightedLead(g, h, n, discount) >= (1.0 / discount(n)) * Lead(g, h, n) as real
    ensures WeightedLead(g, h, n, discount) == 0.0 ==> forall i | 0 <= i <= n :: Lead(g, h, i) == 0
    decreases n
  {
    hide Weighted, At;
    WeightedStep(g, h, n, discount);
    assert Lead(g, h, n) >= 0 && Lead(g, h, n - 1) >= 0;
    Falling(discount, n);
    if n == 1 {
      SumsFromZero(g, h, discount);
      ZeroProduct(1.0 / discount(1), Lead(g, h, 1) as real);
    } else {
      assert Ahead(g, h, n - 1);
      AheadIsWorthMore(g, h, n - 1, discount);
      Falling(discount, n - 1);
      AbelArithmetic(WeightedLead(g, h, n - 1, discount), 1.0 / discount(n - 1), 1.0 / discount(n),
                     Lead(g, h, n - 1) as real, Lead(g, h, n) as real);
    }
  }

  lemma SumsFromZero(g: seq<nat>, h: seq<nat>, discount: nat -> real)
    requires forall rank | rank >= 1 :: discount(rank) != 0.0
    ensures Lead(g, h, 0) == 0 && WeightedLead(g, h, 0, discount) == 0.0
  {
  }

  lemma ZeroProduct(w: real, p: real)
    requires w > 0.0
    ensures w * p == 0.0 ==> p == 0.0
  {
  }

  lemma {:induction false} LevelMeansEqual(g: seq<nat>, h: seq<nat>, n: nat)
    requires forall i | 0 <= i <= n :: Lead(g, h, i) == 0
    ensures forall i | 0 <= i < n :: At(g, i) == At(h, i)
  {
    forall i | 0 <= i < n ensures At(g, i) == At(h, i) {
      assert Lead(g, h, i) == 0 && Lead(g, h, i + 1) == 0;
    }
  }

  // ---------------------------------------------------------------- no selection beats the best grades

  function Total(s: seq<nat>): nat {
    if s == [] then 0 else s[0] + Total(s[1..])
  }

  lemma {:induction false} TotalConcat(a: seq<nat>, b: seq<nat>)
    ensures Total(a + b) == Total(a) + Total(b)
    decreases |a|
  {
    if a == [] {
      assert a + b == b;
    } else {
      assert (a + b)[1..] == a[1..] + b;
      TotalConcat(a[1..], b);
    }
  }

  lemma {:induction false} SumIsTotal(s: seq<nat>, n: nat)
    ensures Sum(s, n) == Total(Take(s, n))
    decreases n
  {
    if n > 0 {
      SumIsTotal(s, n - 1);
      if n <= |s| {
        assert Take(s, n) == s[..n] && Take(s, n - 1) == s[..n - 1];
        assert s[..n] == s[..n - 1] + [s[n - 1]];
        TotalConcat(s[..n - 1], [s[n - 1]]);
        TotalOne(s[n - 1]);
      }
    } else {
      TotalEmpty();
      assert Take(s, 0) == [];
    }
  }

  lemma {:induction false} SumMonotone(s: seq<nat>, m: nat, n: nat)
    requires m <= n
    ensures Sum(s, m) <= Sum(s, n)
    decreases n
  {
    if m < n {
      SumMonotone(s, m, n - 1);
    }
  }

  lemma RemoveAt(x: seq<nat>, j: nat)
    requires j < |x|
    ensures multiset(x[..j] + x[j + 1..]) == multiset(x) - multiset{x[j]}
    ensures Total(x) == x[j] + Total(x[..j] + x[j + 1..])
  {
    hide Total;
    var a, b := x[..j], x[j + 1..];
    assert x == a + [x[j]] + b;
    TotalConcat(a + [x[j]], b);
    TotalConcat(a, [x[j]]);
    TotalConcat(a, b);
    TotalOne(x[j]);
  }

  /** Any part of a descending sequence adds up to at most its beginning of the same length. */
  lemma {:induction false} BestFirst(h: seq<nat>, x: seq<nat>)
    requires Sorted(h, Descending) && multiset(x) <= multiset(h)
    ensures |x| <= |h| && Total(x) <= Total(h[..|x|])
    decreases |h|
  {
    hide Total;
    assert |multiset(x)| <= |multiset(h)| by { SubsetSize(multiset(x), multiset(h)); }
    TotalEmpty();
    if x == [] {
      assert h[..0] == [];
    } else {
      var j := SwapForTop(h, x);
      var y, rest := x[..j] + x[j + 1..], h[1..];
      BestFirst(rest, y);
      assert h[..|x|] == [h[0]] + rest[..|y|];
      TotalConcat([h[0]], rest[..|y|]);
      TotalOne(h[0]);
    }
  }

  /** A member of the part that can be counted against the largest of the whole. */
  lemma SwapForTop(h: seq<nat>, x: seq<nat>) returns (j: nat)
    requires Sorted(h, Descending) && multiset(x) <= multiset(h) && h != [] && x != []
    ensures j < |x| && x[j] <= h[0] && Sorted(h[1..], Descending)
    ensures multiset(x[..j] + x[j + 1..]) <= multiset(h[1..])
    ensures Total(x) == x[j] + Total(x[..j] + x[j + 1..])
  {
    hide Total, IndexOf;
    j := if h[0] in x then IndexOf(x, h[0]) else 0;
    assert x[j] in multiset(x) && x[j] in multiset(h);
    HeadLeast(h, x[j], Descending);
    RemoveAt(x, j);
    TailMultiset(h);
    RestIncluded(multiset(x), multiset(h), x[j], h[0]);
  }

  lemma TotalEmpty()
    ensures Total([]) == 0
  {
  }

  lemma TotalOne(v: nat)
    ensures Total([v]) == v
  {
    assert [v][1..] == [];
  }

  function IndexOf(x: seq<nat>, v: nat): (j: nat)
    requires v in x
    ensures j < |x| && x[j] == v
  {
    if x[0] == v then 0 else 1 + IndexOf(x[1..], v)
  }

  lemma RestIncluded(x: multiset<nat>, h: multiset<nat>, v: nat, top: nat)
    requires x <= h && v in x && top in h && (v == top || top !in x)
    ensures x - multiset{v} <= h - multiset{top}
  {
  }

  lemma {:induction false} SubsetSize(x: multiset<nat>, h: multiset<nat>)
    requires x <= h
    ensures |x| <= |h|
  {
    assert h == x + (h - x);
  }

  // ---------------------------------------------------------------- distinct ids select distinct judgements

  function PositiveOnly(g: seq<nat>): seq<nat> {
    if g == [] then [] else PositiveOnly(g[..|g| - 1]) + if g[|g| - 1] > 0 then [g[|g| - 1]] else []
  }

  lemma {:induction false} PositiveOnlyConcat(a: seq<nat>, b: seq<nat>)
    ensures PositiveOnly(a + b) == PositiveOnly(a) + PositiveOnly(b)
    decreases |b|
  {
    if b == [] {
      assert a + b == a;
    } else {
      assert (a + b)[..|a + b| - 1] == a + b[..|b| - 1];
      PositiveOnlyConcat(a, b[..|b| - 1]);
    }
  }

  lemma {:induction false} PositiveOnlyTotal(g: seq<nat>)
    ensures Total(PositiveOnly(g)) == Total(g) && |PositiveOnly(g)| <= |g|
    decreases |g|
  {
    TotalEmpty();
    if g != [] {
      var init, v := g[..|g| - 1], g[|g| - 1];
      assert g == init + [v];
      PositiveOnlyTotal(init);
      TotalConcat(init, [v]);
      TotalConcat(PositiveOnly(init), if v > 0 then [v] else []);
      TotalOne(v);
    }
  }

  lemma {:induction false} NoGains(ids: seq<Id>)
    ensures PositiveOnly(Gains(ids, [])) == []
    decreases |ids|
  {
    if ids != [] {
      NoGains(ids[..|ids| - 1]);
      assert Gains(ids, [])[..|ids| - 1] == Gains(ids[..|ids| - 1], []);
    }
  }

  lemma GainsConcat(a: seq<Id>, b: seq<Id>, grades: seq<Judgement>)
    ensures Gains(a + b, grades) == Gains(a, grades) + Gains(b, grades)
  {
  }

  lemma GainsSkip(ids: seq<Id>, grades: seq<Judgement>)
    requires grades != [] && grades[0].id !in ids
    ensures Gains(ids, grades) == Gains(ids, grades[1..])
  {
  }

  lemma GainsSplit(ids: seq<Id>, j: nat, grades: seq<Judgement>)
    requires j < |ids| && Distinct(ids) && grades != [] && IsMap(grades) && ids[j] == grades[0].id
    ensures var rest := ids[..j] + ids[j + 1..];
            Distinct(rest) && grades[0].id !in rest &&
            multiset(PositiveOnly(Gains(ids, grades))) ==
            multiset(PositiveOnly(Gains(rest, grades[1..]))) +
              multiset(if grades[0].grade > 0 then [grades[0].grade] else [])
  {
    hide PositiveOnly, Gains;
    var a, b, id, v := ids[..j], ids[j + 1..], ids[j], grades[0].grade;
    var rest := a + b;
    assert ids == a + [id] + b;
    GainsConcat(a + [id], b, grades);
    GainsConcat(a, [id], grades);
    assert Gains([id], grades) == [v];
    PositiveOnlyConcat(Gains(a, grades) + [v], Gains(b, grades));
    PositiveOnlyConcat(Gains(a, grades), [v]);
    GainsConcat(a, b, grades[1..]);
    PositiveOnlyConcat(Gains(a, grades[1..]), Gains(b, grades[1..]));
    GainsSkip(a, grades);
    GainsSkip(b, grades);
    assert PositiveOnly([v]) == if v > 0 then [v] else [] by { PositiveOnlyOne(v); }
  }

  lemma PositiveOnlyOne(v: nat)
    ensures PositiveOnly([v]) == if v > 0 then [v] else []
  {
    assert [v][..0] == [];
  }

  function PositionOf(ids: seq<Id>, id: Id): (j: nat)
    requires id in ids
    ensures j < |ids| && ids[j] == id
  {
    if ids[0] == id then 0 else 1 + PositionOf(ids[1..], id)
  }

  /**
    The positive gains of distinct ids are some of the positive grades: all of them exactly when no
    relevant id is missing.
    */
  lemma {:induction false} GainsAreGrades(ids: seq<Id>, grades: seq<Judgement>)
    requires Distinct(ids) && IsMap(grades)
    ensures multiset(PositiveOnly(Gains(ids, grades))) <= multiset(Positive(grades))
    ensures |PositiveOnly(Gains(ids, grades))| <= |Positive(grades)|
    ensures |PositiveOnly(Gains(ids, grades))| == |Positive(grades)| <==>
              forall i | 0 <= i < |grades| && grades[i].grade > 0 :: grades[i].id in ids
    decreases |grades|
  {
    hide PositiveOnly, Gains;
    if grades == [] {
      NoGains(ids);
    } else {
      var rest := grades[1..];
      assert IsMap(rest);
      if grades[0].id in ids {
        var j := PositionOf(ids, grades[0].id);
        var others := ids[..j] + ids[j + 1..];
        GainsSplit(ids, j, grades);
        GainsAreGrades(others, rest);
        MultisetLength(PositiveOnly(Gains(ids, grades)), PositiveOnly(Gains(others, rest)),
                       if grades[0].grade > 0 then [grades[0].grade] else []);
        RelevantTail(ids, others, j, grades);
      } else {
        GainsSkip(ids, grades);
        GainsAreGrades(ids, rest);
        RelevantHead(ids, grades);
      }
    }
  }

  lemma MultisetLength(a: seq<nat>, b: seq<nat>, c: seq<nat>)
    requires multiset(a) == multiset(b) + multiset(c)
    ensures |a| == |b| + |c|
  {
    assert |multiset(a)| == |a| && |multiset(b)| == |b| && |multiset(c)| == |c|;
  }

  ghost predicate AllRelevantIn(ids: seq<Id>, grades: seq<Judgement>) {
    forall i | 0 <= i < |grades| && grades[i].grade > 0 :: grades[i].id in ids
  }

  lemma RelevantTail(ids: seq<Id>, others: seq<Id>, j: nat, grades: seq<Judgement>)
    requires j < |ids| && others == ids[..j] + ids[j + 1..] && grades != [] && IsMap(grades) && ids[j] == grades[0].id
    ensures AllRelevantIn(ids, grades) <==> AllRelevantIn(others, grades[1..])
  {
    forall id | id in ids && id != ids[j] ensures id in others {
      var k :| 0 <= k < |ids| && ids[k] == id;
      assert k < j ==> others[k] == id;
      assert k > j ==> others[k - 1] == id;
    }
    forall i | 0 < i < |grades| && AllRelevantIn(others, grades[1..]) && grades[i].grade > 0
      ensures grades[i].id in ids
    {
      assert grades[1..][i - 1] == grades[i];
    }
  }

  lemma RelevantHead(ids: seq<Id>, grades: seq<Judgement>)
    requires grades != [] && grades[0].id !in ids
    ensures AllRelevantIn(ids, grades) <==> grades[0].grade == 0 && AllRelevantIn(ids, grades[1..])
  {
    forall i | 0 < i < |grades| && AllRelevantIn(ids, grades[1..]) && grades[i].grade > 0 ensures grades[i].id in ids {
      assert grades[1..][i - 1] == grades[i];
    }
  }

  // ---------------------------------------------------------------- nDCG

  lemma {:induction false} SumOfTake(s: seq<nat>, k: nat, i: nat)
    ensures Sum(Take(s, k), i) == Sum(s, if i <= k then i else k)
    decreases i
  {
    if i > 0 {
      SumOfTake(s, k, i - 1);
    }
  }

  /** On every prefix the ideal list is ahead of the gains of the head. */
  lemma IdealAhead(ranked: seq<Id>, grades: seq<Judgement>, k: nat, n: nat)
    requires IsMap(grades)
    ensures Ahead(Gains(Head(ranked, k), grades), Ideal(grades, k), n)
  {
    hide Head, Gains, Sum, Ideal;
    var ids := Head(ranked, k);
    assert |ids| <= k && Distinct(ids) by { HeadShape(ranked, k); }
    forall i | 0 <= i <= n ensures Lead(Gains(ids, grades), Ideal(grades, k), i) >= 0 {
      PrefixSum(ids, grades, k, i);
    }
  }

  lemma HeadShape(ranked: seq<Id>, k: nat)
    ensures |Head(ranked, k)| <= k && Distinct(Head(ranked, k))
  {
  }

  lemma PrefixSum(ids: seq<Id>, grades: seq<Judgement>, k: nat, i: nat)
    requires IsMap(grades) && Distinct(ids) && |ids| <= k
    ensures Sum(Gains(ids, grades), i) <= Sum(Ideal(grades, k), i)
  {
    hide Sum, Total, PositiveOnly, Sort, Positive;
    var prefix, full := Take(ids, i), Sort(Positive(grades), Descending);
    var x := PositiveOnly(Gains(prefix, grades));
    var m := if i <= k then i else k;
    SumIsTotal(Gains(ids, grades), i);
    assert Take(Gains(ids, grades), i) == Gains(prefix, grades);
    PositiveOnlyTotal(Gains(prefix, grades));
    GainsAreGrades(prefix, grades);
    DescendingOrder();
    SortSorted(Positive(grades), Descending);
    BestFirst(full, x);
    assert Take(full, |x|) == full[..|x|];
    SumIsTotal(full, |x|);
    SumMonotone(full, |x|, m);
    SumOfTake(full, k, i);
  }

  lemma DescendingOrder()
    ensures TotalPreorder(Descending)
  {
  }

  lemma {:induction false} WeightedPositive(s: seq<nat>, n: nat, discount: nat -> real)
    requires IsDiscount(discount)
    ensures Weighted(s, n, discount) >= 0.0
    ensures n >= 1 && At(s, 0) > 0 ==> Weighted(s, n, discount) > 0.0
    decreases n
  {
    if n > 0 {
      WeightedPositive(s, n - 1, discount);
      assert discount(n) > 0.0;
      NonNegative(At(s, n - 1) as real, discount(n));
    }
  }

  lemma NonNegative(a: real, w: real)
    requires a >= 0.0 && w > 0.0
    ensures a / w >= 0.0 && (a > 0.0 ==> a / w > 0.0)
  {
  }

  lemma {:induction false} PositiveGrades(grades: seq<Judgement>)
    ensures forall v | v in Positive(grades) :: v > 0
    decreases |grades|
  {
    if grades != [] {
      PositiveGrades(grades[1..]);
    }
  }

  lemma IdealShape(grades: seq<Judgement>, k: nat)
    ensures |Ideal(grades, k)| <= k
    ensures k >= 1 && Positive(grades) != [] ==> At(Ideal(grades, k), 0) > 0
  {
    hide Positive, Sort;
    var p := Positive(grades);
    var full := Sort(p, Descending);
    PositiveGrades(grades);
    if p != [] {
      assert full[0] in multiset(full);
      assert full[0] in p;
    }
  }

  /** The gains of the head and the ideal gains, both padded with zeros, are the same list. */
  ghost predicate HeadIsIdeal(ranked: seq<Id>, grades: seq<Judgement>, k: nat) {
    forall i | 0 <= i < k :: At(Gains(Head(ranked, k), grades), i) == At(Ideal(grades, k), i)
  }

  lemma QuotientBounds(a: real, b: real)
    requires 0.0 <= a <= b && b > 0.0
    ensures 0.0 <= a / b <= 1.0 && (a / b == 1.0 <==> a == b)
  {
  }

  /**
    For every list and all judgements, nDCG@k is between 0 and 1, and it is 1 exactly for an ideal
    head.  With k = 0 and something relevant the quotient is 0/0.
    */
  lemma NdcgBounds(ranked: seq<Id>, grades: seq<Judgement>, k: nat, discount: nat -> real)
    requires IsDiscount(discount) && IsMap(grades)
    ensures var r := NdcgAt(ranked, grades, k, discount);
            (r.NotANumber? <==> k == 0 && Positive(grades) != []) &&
            !r.Infinite? &&
            (r.Finite? ==> 0.0 <= r.value <= 1.0) &&
            (r.Finite? && Positive(grades) != [] ==> (r.value == 1.0 <==> HeadIsIdeal(ranked, grades, k))) &&
            (Positive(grades) == [] ==> r == Finite(0.0))
  {
    hide Positive, Head, Gains, Ideal, Dcg, Weighted, At, Sum, Lead;
    if Positive(grades) != [] {
      var g, h := Gains(Head(ranked, k), grades), Ideal(grades, k);
      HeadShape(ranked, k);
      IdealShape(grades, k);
      DcgIsWeighted(g, k, discount);
      DcgIsWeighted(h, k, discount);
      if k == 0 {
        NothingWeighted(g, discount);
        NothingWeighted(h, discount);
      } else {
        IdealAhead(ranked, grades, k, k);
        WeightedPositive(g, k, discount);
        WeightedPositive(h, k, discount);
        AheadMeans(g, h, k, discount);
        QuotientBounds(Weighted(g, k, discount), Weighted(h, k, discount));
      }
    }
  }

  lemma NothingWeighted(s: seq<nat>, discount: nat -> real)
    requires forall rank | rank >= 1 :: discount(rank) != 0.0
    ensures Weighted(s, 0, discount) == 0.0
  {
  }

  lemma AheadMeans(g: seq<nat>, h: seq<nat>, k: nat, discount: nat -> real)
    requires IsDiscount(discount) && k >= 1 && Ahead(g, h, k)
    ensures Weighted(g, k, discount) <= Weighted(h, k, discount)
    ensures Weighted(g, k, discount) == Weighted(h, k, discount) <==> forall i | 0 <= i < k :: At(g, i) == At(h, i)
  {
    hide Weighted, At, Lead;
    AheadIsWorthMore(g, h, k, discount);
    Falling(discount, k);
    LeadIsMeant(g, h, k, discount);
    assert Lead(g, h, k) >= 0;
    ProductNonNegative(1.0 / discount(k), Lead(g, h, k) as real);
    if Weighted(g, k, discount) == Weighted(h, k, discount) {
      LevelMeansEqual(g, h, k);
    }
    if forall i | 0 <= i < k :: At(g, i) == At(h, i) {
      WeightedLocal(g, h, k, discount);
    }
  }

  lemma LeadIsMeant(g: seq<nat>, h: seq<nat>, k: nat, discount: nat -> real)
    requires forall rank | rank >= 1 :: discount(rank) != 0.0
    ensures WeightedLead(g, h, k, discount) == Weighted(h, k, discount) - Weighted(g, k, discount)
  {
  }

  lemma ProductNonNegative(w: real, p: real)
    requires w > 0.0 && p >= 0.0
    ensures w * p >= 0.0
  {
  }

  // ---------------------------------------------------------------- recall

  lemma {:induction false} HitsArePositive(ids: seq<Id>, grades: seq<Judgement>)
    ensures Hits(ids, grades) == |PositiveOnly(Gains(ids, grades))|
    decreases |ids|
  {
    if ids != [] {
      HitsArePositive(ids[..|ids| - 1], grades);
      assert Gains(ids, grades)[..|ids| - 1] == Gains(ids[..|ids| - 1], grades);
    }
  }

  /** Recall@k is between 0 and 1, and 1 exactly when every relevant id is among the first `k` distinct ones. */
  lemma RecallBounds(ranked: seq<Id>, grades: seq<Judgement>, k: nat)
    requires IsMap(grades)
    ensures 0.0 <= RecallAt(ranked, grades, k) <= 1.0
    ensures Positive(grades) != [] ==>
              (RecallAt(ranked, grades, k) == 1.0 <==>
               forall i | 0 <= i < |grades| && grades[i].grade > 0 :: grades[i].id in Head(ranked, k))
  {
    hide Positive, Head, Gains, Hits, PositiveOnly;
    var ids := Head(ranked, k);
    HeadShape(ranked, k);
    HitsArePositive(ids, grades);
    GainsAreGrades(ids, grades);
    if Positive(grades) != [] {
      QuotientBounds(Hits(ids, grades) as real, |Positive(grades)| as real);
    }
  }

  lemma {:induction false} HitsConcat(a: seq<Id>, b: seq<Id>, grades: seq<Judgement>)
    ensures Hits(a + b, grades) == Hits(a, grades) + Hits(b, grades)
    decreases |b|
  {
    if b == [] {
      assert a + b == a;
    } else {
      assert (a + b)[..|a + b| - 1] == a + b[..|b| - 1];
      HitsConcat(a, b[..|b| - 1], grades);
    }
  }

  /** The order of the ids does not matter to the number of hits. */
  lemma {:induction false} HitsOfPermutation(a: seq<Id>, b: seq<Id>, grades: seq<Judgement>)
    requires multiset(a) == multiset(b)
    ensures Hits(a, grades) == Hits(b, grades)
    decreases |a|
  {
    hide Hits, PositionOf;
    assert |a| == |multiset(a)| == |multiset(b)| == |b|;
    if a != [] {
      assert a[0] in multiset(b);
      var j := PositionOf(b, a[0]);
      TailMultiset(a);
      WithoutAt(b, j);
      HitsOfPermutation(a[1..], b[..j] + b[j + 1..], grades);
      assert a == [a[0]] + a[1..];
      HitsConcat([a[0]], a[1..], grades);
      HitsWithoutOne(b, j, grades);
    } else {
      assert b == [];
    }
  }

  lemma HitsWithoutOne(b: seq<Id>, j: nat, grades: seq<Judgement>)
    requires j < |b|
    ensures Hits(b, grades) == Hits([b[j]], grades) + Hits(b[..j] + b[j + 1..], grades)
  {
    hide Hits;
    assert b == b[..j] + [b[j]] + b[j + 1..];
    HitsConcat(b[..j] + [b[j]], b[j + 1..], grades);
    HitsConcat(b[..j], [b[j]], grades);
    HitsConcat(b[..j], b[j + 1..], grades);
  }
}
