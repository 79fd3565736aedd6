/** `score_queries`: every query of a run against the judgements, and the means over those scored. */
module QueryScores {
  import opened Common
  import opened Sorting
  import opened Metrics
  import opened MetricValues

  /** A query's ranked ids; a run is in ascending query order, no query twice. */
  datatype Ranking = Ranking(query: Id, ids: seq<Id>)

  datatype Judged = Judged(query: Id, grades: seq<Judgement>)

  datatype QueryScore = QueryScore(query: Id, ndcg10: real, recall100: real)

  datatype QueryMetrics = QueryMetrics(
    perQuery: seq<QueryScore>, scored: nat, unjudged: nat, notRetrieved: nat, noRelevant: nat,
    droppedIdentical: nat, meanNdcg10: real, meanRecall100: real)

  predicate RunIsMap(run: seq<Ranking>) {
    forall i, j | 0 <= i < j < |run| :: run[i].query != run[j].query
  }

  predicate QrelsIsMap(qrels: seq<Judged>) {
    (forall i, j | 0 <= i < j < |qrels| :: qrels[i].query != qrels[j].query) &&
    (forall i | 0 <= i < |qrels| :: IsMap(qrels[i].grades))
  }

  function RunKeys(run: seq<Ranking>): (r: seq<Id>)
    ensures |r| == |run| && forall i | 0 <= i < |r| :: r[i] == run[i].query
  {
    seq(|run|, i requires 0 <= i < |run| => run[i].query)
  }

  function QrelsKeys(qrels: seq<Judged>): (r: seq<Id>)
    ensures |r| == |qrels| && forall i | 0 <= i < |r| :: r[i] == qrels[i].query
  {
    seq(|qrels|, i requires 0 <= i < |qrels| => qrels[i].query)
  }

  function GradesFor(qrels: seq<Judged>, query: Id): (r: seq<Judgement>)
    requires query in QrelsKeys(qrels) && QrelsIsMap(qrels)
    ensures IsMap(r)
  {
    if qrels[0].query == query then qrels[0].grades
    else
      assert QrelsIsMap(qrels[1..]);
      assert query in QrelsKeys(qrels[1..]) by {
        var i :| 0 <= i < |qrels| && qrels[i].query == query;
        assert QrelsKeys(qrels[1..])[i - 1] == query;
      }
      GradesFor(qrels[1..], query)
  }

  /** The ids without the query's own. */
  function Without(ids: seq<Id>, query: Id): seq<Id> {
    if ids == [] then []
    else Without(ids[..|ids| - 1], query) + if ids[|ids| - 1] == query then [] else [ids[|ids| - 1]]
  }

  function Value(s: Score): real {
    if s.Finite? then s.value else 0.0
  }

  function ScoreOf(r: Ranking, grades: seq<Judgement>, discount: nat -> real): QueryScore
    requires forall rank | rank >= 1 :: discount(rank) != 0.0
  {
    var ids := Without(r.ids, r.query);
    QueryScore(r.query, Value(NdcgAt(ids, grades, 10, discount)), RecallAt(ids, grades, 100))
  }

  /** The scores of the judged queries among the first `n` of the run, in its order. */
  function ScoresTo(run: seq<Ranking>, n: nat, qrels: seq<Judged>, discount: nat -> real): seq<QueryScore>
    requires n <= |run| && QrelsIsMap(qrels) && forall rank | rank >= 1 :: discount(rank) != 0.0
  {
    if n == 0 then []
    else ScoresTo(run, n - 1, qrels, discount) +
         if run[n - 1].query in QrelsKeys(qrels) then
           [ScoreOf(run[n - 1], GradesFor(qrels, run[n - 1].query), discount)]
         else []
  }

  /** The judged queries among the first `n` with nothing relevant. */
  function CountNoRelevant(run: seq<Ranking>, n: nat, qrels: seq<Judged>): nat
    requires n <= |run| && QrelsIsMap(qrels)
  {
    if n == 0 then 0
    else CountNoRelevant(run, n - 1, qrels) +
         if run[n - 1].query in QrelsKeys(qrels) && Positive(GradesFor(qrels, run[n - 1].query)) == [] then 1 else 0
  }

  /** The judged queries among the first `n` whose own id was returned, however often. */
  function CountOwn(run: seq<Ranking>, n: nat, qrels: seq<Judged>): nat
    requires n <= |run|
  {
    if n == 0 then 0
    else CountOwn(run, n - 1, qrels) +
         if run[n - 1].query in QrelsKeys(qrels) && run[n - 1].query in run[n - 1].ids then 1 else 0
  }

  lemma DiscountNonZero(discount: nat -> real)
    requires IsDiscount(discount)
    ensures forall rank | rank >= 1 :: discount(rank) != 0.0
  {
  }

  function SumNdcg(s: seq<QueryScore>): real {
    if s == [] then 0.0 else SumNdcg(s[..|s| - 1]) + s[|s| - 1].ndcg10
  }

  function SumRecall(s: seq<QueryScore>): real {
    if s == [] then 0.0 else SumRecall(s[..|s| - 1]) + s[|s| - 1].recall100
  }

  // ---------------------------------------------------------------- counting

  /** How many of the first `n` ids are in `others`. */
  function CountIn(ids: seq<Id>, n: nat, others: seq<Id>): (c: nat)
    requires n <= |ids|
    ensures c <= n
  {
    if n == 0 then 0 else CountIn(ids, n - 1, others) + if ids[n - 1] in others then 1 else 0
  }

  lemma {:induction false} CountIsIntersection(ids: seq<Id>, n: nat, others: seq<Id>)
    requires n <= |ids| && Distinct(ids)
    ensures CountIn(ids, n, others) == |set id | id in ids[..n] && id in others|
    decreases n
  {
    if n == 0 {
      assert (set id | id in ids[..n] && id in others) == {};
    } else {
      CountIsIntersection(ids, n - 1, others);
      assert ids[..n] == ids[..n - 1] + [ids[n - 1]];
      assert ids[n - 1] !in ids[..n - 1];
      var before := set id | id in ids[..n - 1] && id in others;
      assert (set id | id in ids[..n] && id in others) ==
             if ids[n - 1] in others then before + {ids[n - 1]} else before;
    }
  }

  /** Two lists without repeats share as many ids seen from either side. */
  lemma SharedBothWays(a: seq<Id>, b: seq<Id>)
    requires Distinct(a) && Distinct(b)
    ensures CountIn(a, |a|, b) == CountIn(b, |b|, a)
  {
    hide CountIn, Distinct;
    CountIsIntersection(a, |a|, b);
    CountIsIntersection(b, |b|, a);
    assert a[..|a|] == a && b[..|b|] == b;
    assert (set id | id in a && id in b) == (set id | id in b && id in a);
  }

  // ---------------------------------------------------------------- the loop

  lemma ScoreInRange(r: Ranking, grades: seq<Judgement>, discount: nat -> real)
    requires IsDiscount(discount) && IsMap(grades)
    ensures var s := ScoreOf(r, grades, discount);
            0.0 <= s.ndcg10 <= 1.0 && 0.0 <= s.recall100 <= 1.0 &&
            NdcgAt(Without(r.ids, r.query), grades, 10, discount) == Finite(s.ndcg10)
  {
    hide NdcgAt, RecallAt;
    NdcgBounds(Without(r.ids, r.query), grades, 10, discount);
    RecallBounds(Without(r.ids, r.query), grades, 100);
  }

  lemma {:induction false} SumsInRange(run: seq<Ranking>, n: nat, qrels: seq<Judged>, discount: nat -> real)
    requires n <= |run| && QrelsIsMap(qrels) && IsDiscount(discount)
    ensures var s := ScoresTo(run, n, qrels, discount);
            0.0 <= SumNdcg(s) <= |s| as real && 0.0 <= SumRecall(s) <= |s| as real &&
            |s| == CountIn(RunKeys(run), n, QrelsKeys(qrels))
    decreases n
  {
    hide ScoreOf, GradesFor;
    if n > 0 {
      SumsInRange(run, n - 1, qrels, discount);
      if run[n - 1].query in QrelsKeys(qrels) {
        var before, s := ScoresTo(run, n - 1, qrels, discount), ScoresTo(run, n, qrels, discount);
        ScoreInRange(run[n - 1], GradesFor(qrels, run[n - 1].query), discount);
        assert s[..|s| - 1] == before;
      } else {
        assert ScoresTo(run, n, qrels, discount) == ScoresTo(run, n - 1, qrels, discount);
      }
    }
  }

  /** The loop over the run. */
  method ScoreJudged(run: seq<Ranking>, qrels: seq<Judged>, discount: nat -> real)
    returns (perQuery: seq<QueryScore>, unjudged: nat, noRelevant: nat, dropped: nat)
    requires QrelsIsMap(qrels) && forall rank | rank >= 1 :: discount(rank) != 0.0
    ensures perQuery == ScoresTo(run, |run|, qrels, discount) && |perQuery| + unjudged == |run|
    ensures noRelevant == CountNoRelevant(run, |run|, qrels) <= |perQuery|
    ensures dropped == CountOwn(run, |run|, qrels) <= |perQuery|
  {
    hide ScoreOf, GradesFor, CountIn, Positive;
    perQuery, unjudged, noRelevant, dropped := [], 0, 0, 0;
    for n := 0 to |run|
      invariant perQuery == ScoresTo(run, n, qrels, discount)
      invariant |perQuery| + unjudged == n
      invariant noRelevant == CountNoRelevant(run, n, qrels) <= |perQuery|
      invariant dropped == CountOwn(run, n, qrels) <= |perQuery|
    {
      var q, ids := run[n].query, run[n].ids;
      if q !in QrelsKeys(qrels) {
        unjudged := unjudged + 1;
        continue;
      }
      var grades := GradesFor(qrels, q);
      if Positive(grades) == [] {
        noRelevant := noRelevant + 1;
      }
      if q in ids {
        dropped := dropped + 1;
      }
      perQuery := perQuery + [ScoreOf(run[n], grades, discount)];
    }
  }

  /**
    Every query of the run is scored or unjudged, every judged query scored or not retrieved, and
    the means are the averages of the scored queries, between 0 and 1.
    */
  method ScoreQueries(run: seq<Ranking>, qrels: seq<Judged>, discount: nat -> real) returns (m: QueryMetrics)
    requires RunIsMap(run) && QrelsIsMap(qrels) && IsDiscount(discount)
    ensures m.perQuery == ScoresTo(run, |run|, qrels, discount) && m.scored == |m.perQuery|
    ensures m.scored + m.unjudged == |run|
    ensures m.scored + m.notRetrieved == |qrels|
    ensures m.noRelevant == CountNoRelevant(run, |run|, qrels) <= m.scored
    ensures m.droppedIdentical == CountOwn(run, |run|, qrels) <= m.scored
    ensures m.meanNdcg10 * m.scored as real == SumNdcg(m.perQuery)
    ensures m.meanRecall100 * m.scored as real == SumRecall(m.perQuery)
    ensures 0.0 <= m.meanNdcg10 <= 1.0 && 0.0 <= m.meanRecall100 <= 1.0
  {
    hide ScoreOf, GradesFor, CountIn, SumNdcg, SumRecall, ScoresTo, IsDiscount;
    DiscountNonZero(discount);
    var perQuery, unjudged, noRelevant, dropped := ScoreJudged(run, qrels, discount);
    var notRetrieved := CountMissing(qrels, run);
    SumsInRange(run, |run|, qrels, discount);
    SharedKeys(run, qrels);
    var sumNdcg, sumRecall := SumScores(perQuery);
    var meanNdcg := Mean(sumNdcg, |perQuery|);
    var meanRecall := Mean(sumRecall, |perQuery|);
    m := QueryMetrics(perQuery, |perQuery|, unjudged, notRetrieved, noRelevant, dropped, meanNdcg, meanRecall);
  }

  method Mean(sum: real, n: nat) returns (r: real)
    requires 0.0 <= sum <= n as real
    ensures r * n as real == sum && 0.0 <= r <= 1.0
  {
    r := 0.0;
    if n != 0 {
      QuotientInRange(sum, n as real);
      r := sum / n as real;
    }
  }

  lemma SharedKeys(run: seq<Ranking>, qrels: seq<Judged>)
    requires RunIsMap(run) && QrelsIsMap(qrels)
    ensures CountIn(RunKeys(run), |run|, QrelsKeys(qrels)) == CountIn(QrelsKeys(qrels), |qrels|, RunKeys(run))
  {
    hide CountIn;
    SharedBothWays(RunKeys(run), QrelsKeys(qrels));
  }

  lemma QuotientInRange(a: real, n: real)
    requires 0.0 <= a <= n && n > 0.0
    ensures 0.0 <= a / n <= 1.0 && a / n * n == a
  {
  }

  method CountMissing(qrels: seq<Judged>, run: seq<Ranking>) returns (c: nat)
    ensures c + CountIn(QrelsKeys(qrels), |qrels|, RunKeys(run)) == |qrels|
  {
    c := 0;
    for i := 0 to |qrels|
      invariant c + CountIn(QrelsKeys(qrels), i, RunKeys(run)) == i
    {
      if qrels[i].query !in RunKeys(run) {
        c := c + 1;
      }
    }
  }

  method SumScores(s: seq<QueryScore>) returns (ndcg: real, recall: real)
    ensures ndcg == SumNdcg(s) && recall == SumRecall(s)
  {
    ndcg, recall := 0.0, 0.0;
    for i := 0 to |s|
      invariant ndcg == SumNdcg(s[..i]) && recall == SumRecall(s[..i])
    {
      assert s[..i + 1][..i] == s[..i];
      ndcg, recall := ndcg + s[i].ndcg10, recall + s[i].recall100;
    }
    assert s[..|s|] == s;
  }

  // ---------------------------------------------------------------- what each score is

  /** How many distinct ids other than the query's own are ranked up to the first rank of `id`; 0 when none is. */
  function RankBeside(ids: seq<Id>, query: Id, id: Id): nat {
    if id !in ids || id == query then 0 else |Elements(ids[..First(ids, id) + 1]) - {query}|
  }

  lemma {:induction false} WithoutElements(ids: seq<Id>, query: Id)
    ensures Elements(Without(ids, query)) == Elements(ids) - {query}
    decreases |ids|
  {
    if ids != [] {
      var n := |ids| - 1;
      assert ids == ids[..n] + [ids[n]];
      WithoutElements(ids[..n], query);
      ElementsSnoc(ids[..n], ids[n]);
      ElementsSnoc(Without(ids[..n], query), ids[n]);
    }
  }

  lemma InElements(ids: seq<Id>, id: Id)
    ensures id in ids <==> id in Elements(ids)
  {
  }

  lemma {:induction false} WithoutRanks(ids: seq<Id>, query: Id, id: Id)
    ensures DistinctRank(Without(ids, query), id) == RankBeside(ids, query, id)
    decreases |ids|
  {
    hide First, DistinctRank, Elements, RankBeside;
    if ids == [] {
      NothingRanked(id);
      BesideNothing(query, id);
    } else {
      var n := |ids| - 1;
      var init, x := ids[..n], ids[n];
      assert ids == init + [x];
      WithoutRanks(init, query, id);
      WithoutElements(init, query);
      InElements(Without(init, query), id);
      InElements(init, id);
      RankSnoc(Without(init, query), x, id);
      BesideSnoc(init, x, query, id);
      NoRank(init, query, id);
      assert Without(init, query) + [] == Without(init, query);
    }
  }

  lemma NoRank(ids: seq<Id>, query: Id, id: Id)
    ensures id !in ids || id == query ==> RankBeside(ids, query, id) == 0
  {
  }

  lemma BesideNothing(query: Id, id: Id)
    ensures RankBeside([], query, id) == 0
  {
  }

  lemma BesideSnoc(ids: seq<Id>, x: Id, query: Id, id: Id)
    ensures RankBeside(ids + [x], query, id) ==
            if id == query then 0
            else if id in ids then RankBeside(ids, query, id)
            else if x == id then |Elements(ids) - {query}| + 1
            else 0
  {
    hide First;
    FirstSnoc(ids, x, id);
    if id !in ids && x == id && id != query {
      assert Elements(ids + [x]) - {query} == (Elements(ids) - {query}) + {x};
    }
  }

  lemma FirstSnoc(ids: seq<Id>, x: Id, id: Id)
    ensures id in ids ==> First(ids + [x], id) == First(ids, id) &&
                          (ids + [x])[..First(ids, id) + 1] == ids[..First(ids, id) + 1]
    ensures id !in ids && x == id ==> First(ids + [x], id) == |ids| && (ids + [x])[..|ids| + 1] == ids + [x]
  {
    hide First;
    var longer := ids + [x];
    if id in ids {
      var p := First(ids, id);
      assert longer[..p] == ids[..p] && longer[..p + 1] == ids[..p + 1];
      FirstIs(longer, id, p);
    } else if x == id {
      assert longer[..|ids|] == ids;
      FirstIs(longer, id, |ids|);
    }
  }

  lemma {:induction false} GainsLocal(f: Id -> nat, g: Id -> nat, grades: seq<Judgement>, k: nat,
                                      discount: nat -> real)
    requires forall rank | rank >= 1 :: discount(rank) != 0.0
    requires forall id :: f(id) == g(id)
    ensures GainsByRank(f, grades, k, discount) == GainsByRank(g, grades, k, discount)
    ensures RelevantByRank(f, grades, k) == RelevantByRank(g, grades, k)
    decreases |grades|
  {
    if grades != [] {
      GainsLocal(f, g, grades[1..], k, discount);
    }
  }

  /** nDCG@10 and Recall@100 of the ranked ids, the query's own left out, by the distinct ranks of the judged ids. */
  ghost predicate ScoredAs(s: QueryScore, ids: seq<Id>, grades: seq<Judgement>, discount: nat -> real)
    requires IsDiscount(discount)
  {
    var rankOf := id => RankBeside(ids, s.query, id);
    if Positive(grades) == [] then s.ndcg10 == 0.0 && s.recall100 == 0.0
    else
      && (forall h | BestGrades(h, grades) ::
            GradesInOrder(h, Least(10, |h|), discount) > 0.0 &&
            s.ndcg10 * GradesInOrder(h, Least(10, |h|), discount) == GainsByRank(rankOf, grades, 10, discount))
      && s.recall100 * |Positive(grades)| as real == RelevantByRank(rankOf, grades, 100) as real
  }

  lemma ScoreOfIs(r: Ranking, grades: seq<Judgement>, discount: nat -> real)
    requires IsDiscount(discount) && IsMap(grades)
    ensures ScoreOf(r, grades, discount).query == r.query
    ensures ScoredAs(ScoreOf(r, grades, discount), r.ids, grades, discount)
  {
    hide Positive, NdcgAt, RecallAt, GradesInOrder, GainsByRank, RelevantByRank, DistinctRank, RankBeside, BestGrades;
    var s := ScoreOf(r, grades, discount);
    var ids := Without(r.ids, r.query);
    var f, g := id => DistinctRank(ids, id), id => RankBeside(r.ids, r.query, id);
    ScoreInRange(r, grades, discount);
    if Positive(grades) == [] {
      NdcgBounds(ids, grades, 10, discount);
      NothingToFind(ids, grades, 100);
    } else {
      forall id ensures f(id) == g(id) {
        WithoutRanks(r.ids, r.query, id);
      }
      GainsLocal(f, g, grades, 10, discount);
      GainsLocal(f, g, grades, 100, discount);
      RecallIs(ids, grades, 100);
      forall h | BestGrades(h, grades)
        ensures GradesInOrder(h, Least(10, |h|), discount) > 0.0
        ensures s.ndcg10 * GradesInOrder(h, Least(10, |h|), discount) == GainsByRank(g, grades, 10, discount)
      {
        BestNonEmpty(h, grades);
        NdcgIs(ids, grades, 10, discount, h);
      }
    }
  }

  lemma NothingToFind(ids: seq<Id>, grades: seq<Judgement>, k: nat)
    requires Positive(grades) == []
    ensures RecallAt(ids, grades, k) == 0.0
  {
  }

  lemma BestNonEmpty(h: seq<nat>, grades: seq<Judgement>)
    requires BestGrades(h, grades) && Positive(grades) != []
    ensures h != []
  {
    NonEmptyPart(h, Positive(grades));
  }

  lemma {:induction false} GradesForIs(qrels: seq<Judged>, query: Id)
    requires QrelsIsMap(qrels) && query in QrelsKeys(qrels)
    ensures forall m | 0 <= m < |qrels| && qrels[m].query == query :: qrels[m].grades == GradesFor(qrels, query)
    decreases |qrels|
  {
    if qrels[0].query != query {
      var m :| 0 <= m < |qrels| && qrels[m].query == query;
      assert QrelsKeys(qrels[1..])[m - 1] == query;
      GradesForIs(qrels[1..], query);
    }
  }

  /**
    Each judged query of the run has its score, in the order of the run: for its own ids and the judgements of that
    query.
    */
  lemma {:induction false} EveryJudgedScored(run: seq<Ranking>, n: nat, qrels: seq<Judged>, discount: nat -> real,
                                             i: nat, m: nat)
    requires n <= |run| && QrelsIsMap(qrels) && IsDiscount(discount)
    requires i < n && m < |qrels| && run[i].query == qrels[m].query
    ensures var s, c := ScoresTo(run, n, qrels, discount), CountIn(RunKeys(run), i, QrelsKeys(qrels));
            c < |s| && s[c].query == run[i].query && ScoredAs(s[c], run[i].ids, qrels[m].grades, discount)
    decreases n
  {
    hide ScoreOf, ScoredAs, GradesFor, CountIn;
    assert QrelsKeys(qrels)[m] == run[i].query;
    SumsInRange(run, n - 1, qrels, discount);
    if i == n - 1 {
      GradesForIs(qrels, run[i].query);
      ScoreOfIs(run[i], qrels[m].grades, discount);
    } else {
      EveryJudgedScored(run, n - 1, qrels, discount, i, m);
    }
  }

  /** The sums behind the means, and the two counts of the judged queries of a run. */
  lemma {:induction false} SumsAre(a: seq<QueryScore>, b: seq<QueryScore>, q: QueryScore)
    ensures SumNdcg([]) == 0.0 && SumNdcg([q]) == q.ndcg10 && SumNdcg(a + b) == SumNdcg(a) + SumNdcg(b)
    ensures SumRecall([]) == 0.0 && SumRecall([q]) == q.recall100 && SumRecall(a + b) == SumRecall(a) + SumRecall(b)
    decreases |b|
  {
    assert [q][..0] == [];
    if b == [] {
      assert a + b == a;
    } else {
      assert (a + b)[..|a + b| - 1] == a + b[..|b| - 1];
      SumsAre(a, b[..|b| - 1], q);
    }
  }

  predicate JudgedAt(run: seq<Ranking>, i: nat, qrels: seq<Judged>, m: nat) {
    i < |run| && m < |qrels| && run[i].query == qrels[m].query
  }

  /** The judged queries with no grade above zero. */
  ghost function NoneRelevant(run: seq<Ranking>, n: nat, qrels: seq<Judged>): set<nat> {
    set i: nat, m: nat | i < n && m < |qrels| && JudgedAt(run, i, qrels, m) &&
      forall j | 0 <= j < |qrels[m].grades| :: qrels[m].grades[j].grade == 0 :: i
  }

  /** The judged queries whose own id is among the returned ones. */
  ghost function OwnReturned(run: seq<Ranking>, n: nat, qrels: seq<Judged>): set<nat> {
    set i: nat, m: nat | i < n && m < |qrels| && JudgedAt(run, i, qrels, m) && run[i].query in run[i].ids :: i
  }

  lemma {:induction false} NoPositive(grades: seq<Judgement>)
    ensures Positive(grades) == [] <==> forall j | 0 <= j < |grades| :: grades[j].grade == 0
    decreases |grades|
  {
    if grades != [] {
      NoPositive(grades[1..]);
    }
  }

  lemma AddedOne(before: set<nat>, after: set<nat>, n: nat, more: bool)
    requires forall i: nat :: i in after <==> i in before || (i == n && more)
    requires n !in before
    ensures |after| == |before| + if more then 1 else 0
  {
    assert after == if more then before + {n} else before;
  }

  lemma JudgedIff(run: seq<Ranking>, i: nat, qrels: seq<Judged>)
    requires i < |run|
    ensures run[i].query in QrelsKeys(qrels) <==> exists m: nat :: JudgedAt(run, i, qrels, m)
  {
    if run[i].query in QrelsKeys(qrels) {
      var m :| 0 <= m < |qrels| && QrelsKeys(qrels)[m] == run[i].query;
      assert JudgedAt(run, i, qrels, m);
    }
    if m: nat :| JudgedAt(run, i, qrels, m) {
      assert QrelsKeys(qrels)[m] == run[i].query;
    }
  }

  /** The counts are the numbers of such queries, each counted once. */
  lemma {:induction false} CountsAre(run: seq<Ranking>, n: nat, qrels: seq<Judged>)
    requires n <= |run| && QrelsIsMap(qrels)
    ensures CountNoRelevant(run, n, qrels) == |NoneRelevant(run, n, qrels)|
    ensures CountOwn(run, n, qrels) == |OwnReturned(run, n, qrels)|
    decreases n
  {
    hide Positive, GradesFor, JudgedAt;
    if n > 0 {
      CountsAre(run, n - 1, qrels);
      JudgedIff(run, n - 1, qrels);
      JudgedHas(run, n - 1, qrels);
      var judged := run[n - 1].query in QrelsKeys(qrels);
      AddedOne(OwnReturned(run, n - 1, qrels), OwnReturned(run, n, qrels), n - 1,
        judged && run[n - 1].query in run[n - 1].ids);
      if judged {
        GradesForIs(qrels, run[n - 1].query);
        NoPositive(GradesFor(qrels, run[n - 1].query));
      }
      AddedOne(NoneRelevant(run, n - 1, qrels), NoneRelevant(run, n, qrels), n - 1,
        judged && Positive(GradesFor(qrels, run[n - 1].query)) == []);
    } else {
      assert NoneRelevant(run, 0, qrels) == {} && OwnReturned(run, 0, qrels) == {};
    }
  }

  lemma JudgedHas(run: seq<Ranking>, i: nat, qrels: seq<Judged>)
    requires i < |run|
    ensures forall m: nat | JudgedAt(run, i, qrels, m) :: m < |qrels| && qrels[m].query == run[i].query
  {
  }
}
