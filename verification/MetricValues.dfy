/**
  The values of nDCG@k and Recall@k, said without the head: each judged id gains its grade, discounted at the number of
  distinct ids up to its first rank, when that number is at most `k`.
  */
module MetricValues {
  import opened Common
  import opened Sorting
  import opened Metrics

  // ---------------------------------------------------------------- distinct ranks

  function First(ranked: seq<Id>, id: Id): (p: nat)
    requires id in ranked
    ensures p < |ranked| && ranked[p] == id && id !in ranked[..p]
  {
    if ranked[0] == id then 0
    else
      assert ranked == [ranked[0]] + ranked[1..];
      var p := First(ranked[1..], id);
      assert ranked[..p + 1] == [ranked[0]] + ranked[1..][..p];
      p + 1
  }

  /** How many distinct ids are ranked up to the first rank of `id`; 0 when it is not ranked. */
  function DistinctRank(ranked: seq<Id>, id: Id): nat {
    if id !in ranked then 0 else |Elements(ranked[..First(ranked, id) + 1])|
  }

  lemma NotBefore(ranked: seq<Id>, id: Id, p: nat, q: nat)
    requires p <= |ranked| && q < |ranked| && id !in ranked[..p] && ranked[q] == id
    ensures p <= q
  {
  }

  lemma FirstIs(ranked: seq<Id>, id: Id, p: nat)
    requires p < |ranked| && ranked[p] == id && id !in ranked[..p]
    ensures id in ranked && First(ranked, id) == p
  {
    NotBefore(ranked, id, p, First(ranked, id));
    NotBefore(ranked, id, First(ranked, id), p);
  }

  lemma ElementsSnoc<T>(s: seq<T>, x: T)
    ensures Elements(s + [x]) == Elements(s) + {x}
    ensures |Elements(s + [x])| == |Elements(s)| + if x in s then 0 else 1
  {
    assert Elements(s + [x]) == Elements(s) + {x};
    if x in s {
      assert Elements(s) + {x} == Elements(s);
    }
  }

  lemma RankSnoc(ranked: seq<Id>, x: Id, id: Id)
    ensures DistinctRank(ranked + [x], id) ==
            if id in ranked then DistinctRank(ranked, id)
            else if x == id then |Elements(ranked)| + 1
            else 0
  {
    hide First;
    var longer := ranked + [x];
    if id in ranked {
      var p := First(ranked, id);
      assert longer[..p] == ranked[..p] && longer[..p + 1] == ranked[..p + 1];
      FirstIs(longer, id, p);
    } else if x == id {
      assert longer[..|ranked|] == ranked && longer[..|ranked| + 1] == longer;
      FirstIs(longer, id, |ranked|);
      ElementsSnoc(ranked, x);
    }
  }

  // ---------------------------------------------------------------- the head by rank

  predicate InHeadAt(h: seq<Id>, id: Id, r: nat) {
    1 <= r <= |h| && h[r - 1] == id
  }

  /** The head holds an id exactly when its distinct rank is at most `k`, and at that rank. */
  lemma {:induction false} HeadByRank(ranked: seq<Id>, n: nat, k: nat, id: Id)
    requires n <= |ranked|
    ensures |HeadTo(ranked, n, k)| == Least(k, |Elements(ranked[..n])|)
    ensures id in HeadTo(ranked, n, k) <==> 1 <= DistinctRank(ranked[..n], id) <= k
    ensures id in HeadTo(ranked, n, k) ==> InHeadAt(HeadTo(ranked, n, k), id, DistinctRank(ranked[..n], id))
    ensures id !in ranked[..n] ==> DistinctRank(ranked[..n], id) == 0
    ensures DistinctRank(ranked[..n], id) <= |Elements(ranked[..n])|
    decreases n
  {
    hide DistinctRank, Elements;
    if n == 0 {
      NothingRanked(id);
      assert ranked[..0] == [];
    } else {
      var x := ranked[n - 1];
      assert ranked[..n] == ranked[..n - 1] + [x];
      HeadByRank(ranked, n - 1, k, id);
      HeadByRank(ranked, n - 1, k, x);
      RankSnoc(ranked[..n - 1], x, id);
      ElementsSnoc(ranked[..n - 1], x);
      RankPositive(ranked[..n - 1], id);
      RankPositive(ranked[..n - 1], x);
    }
  }

  lemma NothingRanked(id: Id)
    ensures DistinctRank([], id) == 0 && |Elements<Id>([])| == 0
  {
  }

  lemma RankPositive(ranked: seq<Id>, id: Id)
    ensures id in ranked <==> DistinctRank(ranked, id) >= 1
    ensures DistinctRank(ranked, id) <= |Elements(ranked)|
  {
    hide First;
    if id in ranked {
      var p := First(ranked, id);
      assert ranked[..p + 1][p] == id;
      assert id in Elements(ranked[..p + 1]) && Elements(ranked[..p + 1]) <= Elements(ranked);
      SubsetCount(Elements(ranked[..p + 1]), Elements(ranked));
    }
  }

  lemma SubsetCount<T>(a: set<T>, b: set<T>)
    requires a <= b
    ensures |a| <= |b| && (a != {} ==> |a| >= 1)
  {
    assert b == a + (b - a);
    if a != {} {
      var x :| x in a;
      assert a == (a - {x}) + {x};
    }
  }

  // ---------------------------------------------------------------- the two sums of nDCG

  /** What a judgement gains at distinct rank `r`: its grade, discounted, when `r` is one of the first `k` ranks. */
  function GainAt(grade: nat, r: nat, k: nat, discount: nat -> real): real
    requires forall rank | rank >= 1 :: discount(rank) != 0.0
  {
    if 1 <= r <= k then grade as real / discount(r) else 0.0
  }

  /** The discounted gains of all judged ids, each at its rank. */
  function GainsByRank(rankOf: Id -> nat, grades: seq<Judgement>, k: nat, discount: nat -> real): real
    requires forall rank | rank >= 1 :: discount(rank) != 0.0
  {
    if grades == [] then 0.0
    else GainAt(grades[0].grade, rankOf(grades[0].id), k, discount) + GainsByRank(rankOf, grades[1..], k, discount)
  }

  /** The discounted sum of the first `n` grades of a list. */
  function GradesInOrder(h: seq<nat>, n: nat, discount: nat -> real): real
    requires n <= |h| && forall rank | rank >= 1 :: discount(rank) != 0.0
  {
    if n == 0 then 0.0 else GradesInOrder(h, n - 1, discount) + h[n - 1] as real / discount(n)
  }

  /** How many judged ids with a grade above zero have a rank among the first `k`. */
  function RelevantByRank(rankOf: Id -> nat, grades: seq<Judgement>, k: nat): nat {
    if grades == [] then 0
    else (if grades[0].grade > 0 && 1 <= rankOf(grades[0].id) <= k then 1 else 0) +
         RelevantByRank(rankOf, grades[1..], k)
  }

  // ---------------------------------------------------------------- the gains, judgement by judgement

  lemma {:induction false} DcgChange(g: seq<nat>, h: seq<nat>, p: nat, discount: nat -> real)
    requires forall rank | rank >= 1 :: discount(rank) != 0.0
    requires p < |g| == |h| && h[p] == 0 && forall i | 0 <= i < |g| && i != p :: g[i] == h[i]
    ensures Dcg(g, discount) == Dcg(h, discount) + g[p] as real / discount(p + 1)
    decreases |g|
  {
    var n := |g| - 1;
    if p == n {
      assert g[..n] == h[..n];
      NoGain(discount(n + 1));
    } else {
      DcgChange(g[..n], h[..n], p, discount);
    }
  }

  lemma NoGain(w: real)
    requires w != 0.0
    ensures 0 as real / w == 0.0
  {
  }

  lemma {:induction false} NoGrade(grades: seq<Judgement>, id: Id)
    requires forall i | 0 <= i < |grades| :: grades[i].id != id
    ensures GradeOf(grades, id) == 0
    decreases |grades|
  {
    if grades != [] {
      NoGrade(grades[1..], id);
    }
  }

  lemma OneJudgement(ids: seq<Id>, grades: seq<Judgement>, r: nat, discount: nat -> real)
    requires forall rank | rank >= 1 :: discount(rank) != 0.0
    requires grades != [] && IsMap(grades) && Distinct(ids)
    ensures grades[0].id !in ids ==> Gains(ids, grades) == Gains(ids, grades[1..])
    ensures InHeadAt(ids, grades[0].id, r) ==>
              Dcg(Gains(ids, grades), discount) ==
              Dcg(Gains(ids, grades[1..]), discount) + grades[0].grade as real / discount(r)
  {
    hide Dcg;
    NoGrade(grades[1..], grades[0].id);
    if InHeadAt(ids, grades[0].id, r) {
      DcgChange(Gains(ids, grades), Gains(ids, grades[1..]), r - 1, discount);
    }
  }

  /** `h` is a head in which ids stand at their ranks. */
  ghost predicate HeadRanks(h: seq<Id>, k: nat, rankOf: Id -> nat) {
    Distinct(h) && forall id ::
      (id in h <==> 1 <= rankOf(id) <= k) && (id in h ==> InHeadAt(h, id, rankOf(id)))
  }

  lemma {:induction false} DcgByRank(h: seq<Id>, k: nat, rankOf: Id -> nat, grades: seq<Judgement>,
                                     discount: nat -> real)
    requires forall rank | rank >= 1 :: discount(rank) != 0.0
    requires IsMap(grades) && HeadRanks(h, k, rankOf)
    ensures Dcg(Gains(h, grades), discount) == GainsByRank(rankOf, grades, k, discount)
    decreases |grades|
  {
    hide Dcg, Gains, InHeadAt;
    if grades == [] {
      NoJudgement(h, discount);
    } else {
      assert IsMap(grades[1..]);
      DcgByRank(h, k, rankOf, grades[1..], discount);
      OneJudgement(h, grades, rankOf(grades[0].id), discount);
    }
  }

  lemma {:induction false} NoJudgement(ids: seq<Id>, discount: nat -> real)
    requires forall rank | rank >= 1 :: discount(rank) != 0.0
    ensures Dcg(Gains(ids, []), discount) == 0.0
    decreases |ids|
  {
    if ids != [] {
      var n := |ids| - 1;
      NoJudgement(ids[..n], discount);
      assert Gains(ids, [])[..n] == Gains(ids[..n], []);
      NoGain(discount(n + 1));
    }
  }

  lemma HeadHasRanks(ranked: seq<Id>, k: nat)
    ensures HeadRanks(Head(ranked, k), k, id => DistinctRank(ranked, id))
  {
    hide DistinctRank, HeadTo, InHeadAt, Elements;
    assert ranked[..|ranked|] == ranked;
    forall id
      ensures id in Head(ranked, k) <==> 1 <= DistinctRank(ranked, id) <= k
      ensures id in Head(ranked, k) ==> InHeadAt(Head(ranked, k), id, DistinctRank(ranked, id))
    {
      HeadByRank(ranked, |ranked|, k, id);
    }
    HeadShape(ranked, k);
  }

  // ---------------------------------------------------------------- the ideal

  lemma {:induction false} DcgInOrder(h: seq<nat>, n: nat, discount: nat -> real)
    requires n <= |h| && forall rank | rank >= 1 :: discount(rank) != 0.0
    ensures Dcg(h[..n], discount) == GradesInOrder(h, n, discount)
    decreases n
  {
    if n > 0 {
      assert h[..n][..n - 1] == h[..n - 1];
      DcgInOrder(h, n - 1, discount);
    }
  }

  /** `h` is the grades above zero, best first. */
  predicate BestGrades(h: seq<nat>, grades: seq<Judgement>) {
    multiset(h) == multiset(Positive(grades)) && forall i, j | 0 <= i < j < |h| :: h[i] >= h[j]
  }

  lemma IdealIs(h: seq<nat>, grades: seq<Judgement>, k: nat, discount: nat -> real)
    requires BestGrades(h, grades) && forall rank | rank >= 1 :: discount(rank) != 0.0
    ensures Dcg(Ideal(grades, k), discount) == GradesInOrder(h, Least(k, |h|), discount)
  {
    hide Positive, Sort, Dcg, GradesInOrder;
    DescendingOrder();
    SortSorted(Positive(grades), Descending);
    SortedUnique(h, Sort(Positive(grades), Descending), Descending);
    DcgInOrder(h, Least(k, |h|), discount);
    assert h[..|h|] == h;
  }

  // ---------------------------------------------------------------- the values

  /**
    nDCG@k of something relevant is one sum over the other: the judged ids' grades discounted at their distinct
    ranks, over the grades above zero, best first, discounted at their places.
    */
  lemma NdcgIs(ranked: seq<Id>, grades: seq<Judgement>, k: nat, discount: nat -> real, h: seq<nat>)
    requires IsDiscount(discount) && IsMap(grades) && BestGrades(h, grades) && h != [] && k >= 1
    ensures var r := NdcgAt(ranked, grades, k, discount);
            var ideal := GradesInOrder(h, Least(k, |h|), discount);
            r.Finite? && ideal > 0.0 &&
            r.value * ideal == GainsByRank(id => DistinctRank(ranked, id), grades, k, discount)
  {
    hide Positive, Head, Gains, Ideal, Dcg, GradesInOrder, DistinctRank, GainsByRank, HeadRanks;
    NonEmptyPart(h, Positive(grades));
    IdealIs(h, grades, k, discount);
    NdcgBounds(ranked, grades, k, discount);
    HeadHasRanks(ranked, k);
    DcgByRank(Head(ranked, k), k, id => DistinctRank(ranked, id), grades, discount);
    IdealWorth(grades, k, discount);
    QuotientTimes(Dcg(Gains(Head(ranked, k), grades), discount), Dcg(Ideal(grades, k), discount));
  }

  lemma NonEmptyPart(h: seq<nat>, g: seq<nat>)
    requires multiset(h) == multiset(g)
    ensures h == [] <==> g == []
  {
    assert |h| == |multiset(h)| == |multiset(g)| == |g|;
  }

  lemma IdealWorth(grades: seq<Judgement>, k: nat, discount: nat -> real)
    requires IsDiscount(discount) && Positive(grades) != [] && k >= 1
    ensures Dcg(Ideal(grades, k), discount) > 0.0
  {
    hide Positive, Ideal, Dcg, Weighted, At;
    IdealShape(grades, k);
    DcgIsWeighted(Ideal(grades, k), k, discount);
    WeightedPositive(Ideal(grades, k), k, discount);
  }

  lemma QuotientTimes(a: real, b: real)
    requires b != 0.0
    ensures Quotient(a, b) == Finite(a / b) && a / b * b == a
  {
  }

  lemma {:induction false} HitsByRank(h: seq<Id>, k: nat, rankOf: Id -> nat, grades: seq<Judgement>)
    requires IsMap(grades) && HeadRanks(h, k, rankOf)
    ensures Hits(h, grades) == RelevantByRank(rankOf, grades, k)
    decreases |grades|
  {
    hide Hits, InHeadAt;
    if grades == [] {
      NoHits(h);
    } else {
      assert IsMap(grades[1..]);
      HitsByRank(h, k, rankOf, grades[1..]);
      OneHit(h, grades);
    }
  }

  lemma {:induction false} NoHits(ids: seq<Id>)
    ensures Hits(ids, []) == 0
    decreases |ids|
  {
    if ids != [] {
      NoHits(ids[..|ids| - 1]);
    }
  }

  lemma {:induction false} OneHit(ids: seq<Id>, grades: seq<Judgement>)
    requires grades != [] && IsMap(grades) && Distinct(ids)
    ensures Hits(ids, grades) ==
            Hits(ids, grades[1..]) + if grades[0].grade > 0 && grades[0].id in ids then 1 else 0
    decreases |ids|
  {
    if ids != [] {
      var n := |ids| - 1;
      assert ids == ids[..n] + [ids[n]];
      OneHit(ids[..n], grades);
      NoGrade(grades[1..], grades[0].id);
    }
  }

  /** Recall@k times the number of relevant ids is the number of those with a distinct rank of at most `k`. */
  lemma RecallIs(ranked: seq<Id>, grades: seq<Judgement>, k: nat)
    requires IsMap(grades) && Positive(grades) != []
    ensures RecallAt(ranked, grades, k) * |Positive(grades)| as real ==
            RelevantByRank(id => DistinctRank(ranked, id), grades, k) as real
  {
    hide Positive, Head, Hits, DistinctRank, RelevantByRank, HeadRanks;
    HeadHasRanks(ranked, k);
    HitsByRank(Head(ranked, k), k, id => DistinctRank(ranked, id), grades);
    QuotientTimes(Hits(Head(ranked, k), grades) as real, |Positive(grades)| as real);
  }

  // ---------------------------------------------------------------- one relevant id

  /** Only the judgement at `m` is above zero. */
  predicate OnlyRelevant(grades: seq<Judgement>, m: nat) {
    m < |grades| && forall i | 0 <= i < |grades| :: grades[i].grade > 0 <==> i == m
  }

  lemma {:induction false} NothingRelevant(rankOf: Id -> nat, grades: seq<Judgement>, k: nat, discount: nat -> real)
    requires forall rank | rank >= 1 :: discount(rank) != 0.0
    requires forall i | 0 <= i < |grades| :: grades[i].grade == 0
    ensures Positive(grades) == [] && GainsByRank(rankOf, grades, k, discount) == 0.0
    decreases |grades|
  {
    if grades != [] {
      NothingRelevant(rankOf, grades[1..], k, discount);
      if 1 <= rankOf(grades[0].id) <= k {
        NoGain(discount(rankOf(grades[0].id)));
      }
    }
  }

  lemma {:induction false} OneGain(rankOf: Id -> nat, grades: seq<Judgement>, m: nat, k: nat, discount: nat -> real)
    requires forall rank | rank >= 1 :: discount(rank) != 0.0
    requires OnlyRelevant(grades, m)
    ensures Positive(grades) == [grades[m].grade]
    ensures GainsByRank(rankOf, grades, k, discount) == GainAt(grades[m].grade, rankOf(grades[m].id), k, discount)
    decreases |grades|
  {
    if m == 0 {
      NothingRelevant(rankOf, grades[1..], k, discount);
    } else {
      OneGain(rankOf, grades[1..], m - 1, k, discount);
      if 1 <= rankOf(grades[0].id) <= k {
        NoGain(discount(rankOf(grades[0].id)));
      }
    }
  }

  /** With one relevant id nDCG@k is the discount at rank 1 over that at its distinct rank, or 0 beyond `k`. */
  lemma NdcgOfOne(ranked: seq<Id>, grades: seq<Judgement>, m: nat, k: nat, discount: nat -> real)
    requires IsDiscount(discount) && IsMap(grades) && OnlyRelevant(grades, m) && k >= 1
    ensures var r := DistinctRank(ranked, grades[m].id);
            NdcgAt(ranked, grades, k, discount) ==
            Finite(if 1 <= r <= k then discount(1) / discount(r) else 0.0)
  {
    hide Positive, DistinctRank, GainsByRank, NdcgAt, GradesInOrder;
    var v := grades[m].grade;
    OneGain(id => DistinctRank(ranked, id), grades, m, k, discount);
    NdcgIs(ranked, grades, k, discount, [v]);
    OneInOrder(v, discount);
    var r := DistinctRank(ranked, grades[m].id);
    if 1 <= r <= k {
      GradesCancel(NdcgAt(ranked, grades, k, discount).value, v as real, discount(1), discount(r));
    } else {
      ZeroFactor(NdcgAt(ranked, grades, k, discount).value, v as real / discount(1));
    }
  }

  lemma OneInOrder(v: nat, discount: nat -> real)
    requires forall rank | rank >= 1 :: discount(rank) != 0.0
    ensures GradesInOrder([v], 1, discount) == v as real / discount(1)
  {
    assert GradesInOrder([v], 0, discount) == 0.0;
  }

  lemma ZeroFactor(x: real, a: real)
    requires x * a == 0.0 && a > 0.0
    ensures x == 0.0
  {
  }

  lemma GradesCancel(x: real, v: real, a: real, b: real)
    requires v > 0.0 && a > 0.0 && b > 0.0 && x * (v / a) == v / b
    ensures x == a / b
  {
    var p, q := v / a, v / b;
    assert p * a == v && q * b == v;
    assert x * p * b == v;
    assert x * p * b == (x * b) * p;
    assert (x * b) * p == a * p;
    assert (x * b - a) * p == 0.0;
    assert p > 0.0 by { NonNegative(v, a); }
    ZeroFactor(x * b - a, p);
  }
}
