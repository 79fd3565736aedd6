/**
  Re-ranking the head of a fused list: the replace, rank-fusion and interpolating orders, what they
  leave of Recall@k, and when two of them agree.  Scores are real numbers.
  */
module Rerank {
  import opened Common
  import opened Sorting
  import opened Metrics

  // ---------------------------------------------------------------- lists without repeats

  lemma {:induction false} DistinctCounts<T>(xs: seq<T>)
    requires Distinct(xs)
    ensures forall x :: multiset(xs)[x] <= 1
    decreases |xs|
  {
    if xs != [] {
      var init, last := xs[..|xs| - 1], xs[|xs| - 1];
      assert xs == init + [last];
      DistinctCounts(init);
      assert last !in init;
    }
  }

  lemma MemberCounted<T>(xs: seq<T>, x: T)
    requires x in xs
    ensures multiset(xs)[x] >= 1
  {
    assert x in multiset(xs);
  }

  lemma CountsDistinct<T>(xs: seq<T>)
    requires forall x | x in xs :: multiset(xs)[x] <= 1
    ensures Distinct(xs)
  {
    forall i, j | 0 <= i < j < |xs| ensures xs[i] != xs[j] {
      assert xs == xs[..j] + xs[j..];
      assert xs[i] in xs[..j] && xs[j] in xs[j..];
      MemberCounted(xs[..j], xs[i]);
      MemberCounted(xs[j..], xs[j]);
      assert multiset(xs)[xs[j]] == multiset(xs[..j])[xs[j]] + multiset(xs[j..])[xs[j]];
    }
  }

  lemma PermutationDistinct<T>(xs: seq<T>, ys: seq<T>)
    requires Distinct(xs) && multiset(ys) == multiset(xs)
    ensures Distinct(ys)
  {
    DistinctCounts(xs);
    CountsDistinct(ys);
  }

  function Keep<T(==)>(xs: seq<T>, ids: set<T>): seq<T> {
    if xs == [] then [] else Keep(xs[..|xs| - 1], ids) + if xs[|xs| - 1] in ids then [xs[|xs| - 1]] else []
  }

  /** The ids that are not in `ids`, in order. */
  function Drop<T(==)>(xs: seq<T>, ids: set<T>): seq<T> {
    if xs == [] then [] else Drop(xs[..|xs| - 1], ids) + if xs[|xs| - 1] in ids then [] else [xs[|xs| - 1]]
  }

  lemma {:induction false} KeepDropPartition<T>(xs: seq<T>, ids: set<T>)
    ensures multiset(Keep(xs, ids)) + multiset(Drop(xs, ids)) == multiset(xs)
    ensures |Keep(xs, ids)| + |Drop(xs, ids)| == |xs|
    decreases |xs|
  {
    if xs != [] {
      var init, last := xs[..|xs| - 1], xs[|xs| - 1];
      assert xs == init + [last];
      KeepDropPartition(init, ids);
      if last in ids {
        assert Keep(xs, ids) == Keep(init, ids) + [last] && Drop(xs, ids) == Drop(init, ids);
      } else {
        assert Keep(xs, ids) == Keep(init, ids) && Drop(xs, ids) == Drop(init, ids) + [last];
      }
    }
  }

  lemma {:induction false} DropConcat<T>(a: seq<T>, b: seq<T>, ids: set<T>)
    ensures Drop(a + b, ids) == Drop(a, ids) + Drop(b, ids)
    decreases |b|
  {
    if b == [] {
      assert a + b == a;
    } else {
      assert (a + b)[..|a + b| - 1] == a + b[..|b| - 1];
      DropConcat(a, b[..|b| - 1], ids);
    }
  }

  lemma {:induction false} DropNone<T>(xs: seq<T>, ids: set<T>)
    requires forall i | 0 <= i < |xs| :: xs[i] !in ids
    ensures Drop(xs, ids) == xs
    decreases |xs|
  {
    if xs != [] {
      DropNone(xs[..|xs| - 1], ids);
    }
  }

  lemma {:induction false} DropAll<T>(xs: seq<T>, ids: set<T>)
    requires forall i | 0 <= i < |xs| :: xs[i] in ids
    ensures Drop(xs, ids) == []
    decreases |xs|
  {
    if xs != [] {
      DropAll(xs[..|xs| - 1], ids);
    }
  }

  lemma {:induction false} KeepMembers<T>(xs: seq<T>, ids: set<T>)
    ensures forall x :: x in Keep(xs, ids) <==> x in xs && x in ids
    decreases |xs|
  {
    if xs != [] {
      KeepMembers(xs[..|xs| - 1], ids);
      assert xs == xs[..|xs| - 1] + [xs[|xs| - 1]];
    }
  }

  /** What a list of distinct ids is made of, as a multiset. */
  lemma SameDistinct<T>(xs: seq<T>, ys: seq<T>)
    requires Distinct(xs) && Distinct(ys) && forall x :: x in xs <==> x in ys
    ensures multiset(xs) == multiset(ys)
  {
    DistinctCounts(xs);
    DistinctCounts(ys);
    forall x ensures multiset(xs)[x] == multiset(ys)[x] {
      assert x in xs <==> x in multiset(xs);
      assert x in ys <==> x in multiset(ys);
    }
  }

  lemma {:induction false} KeepDistinct<T>(xs: seq<T>, ids: set<T>)
    requires Distinct(xs)
    ensures Distinct(Keep(xs, ids))
    decreases |xs|
  {
    KeepDropPartition(xs, ids);
    DistinctCounts(xs);
    var keep, drop := Keep(xs, ids), Drop(xs, ids);
    forall x | x in keep ensures multiset(keep)[x] <= 1 {
      assert multiset(xs)[x] == multiset(keep)[x] + multiset(drop)[x];
      assert x in multiset(keep) && x in xs;
    }
    CountsDistinct(keep);
  }

  // ---------------------------------------------------------------- the head in front

  /**
    Putting some of the first `d` ids in front, in any order, keeps the first `k` ids as a whole
    when `d` is at most `k`.
    */
  lemma HeadInFront(fused: seq<Id>, front: seq<Id>, d: nat, k: nat)
    requires Distinct(fused) && Distinct(front) && d <= k
    requires forall id | id in front :: id in Take(fused, d)
    ensures multiset(Take(front + Drop(fused, Elements(front)), k)) == multiset(Take(fused, k))
    ensures Distinct(Take(front + Drop(fused, Elements(front)), k))
  {
    hide Keep, Drop, Distinct, Elements;
    var ids, first := Elements(front), Take(fused, k);
    var later := fused[|first|..];
    assert fused == first + later;
    TakeDistinct(fused, k);
    TakeNested(fused, d, k);
    FrontIsKept(first, front);
    DropConcat(first, later, ids);
    CutAfter(front + Drop(first, ids), Drop(later, ids), k);
    if |first| < k {
      DropNone(later, ids);
    }
    assert front + Drop(fused, ids) == front + Drop(first, ids) + Drop(later, ids);
    PermutationDistinct(first, front + Drop(first, ids));
  }

  /** Distinct members of a list without repeats, with the others behind them, are a permutation of it. */
  lemma FrontIsKept<T>(first: seq<T>, front: seq<T>)
    requires Distinct(first) && Distinct(front) && forall id | id in front :: id in first
    ensures multiset(front + Drop(first, Elements(front))) == multiset(first)
    ensures |front + Drop(first, Elements(front))| == |first|
  {
    hide Keep, Drop, Distinct;
    var ids := Elements(front);
    KeepDropPartition(first, ids);
    KeepMembers(first, ids);
    KeepDistinct(first, ids);
    SameDistinct(front, Keep(first, ids));
    ElementsOfPermutation(front + Drop(first, ids), first);
  }

  lemma CutAfter<T>(a: seq<T>, b: seq<T>, k: nat)
    ensures |a| == k ==> Take(a + b, k) == a
    ensures |a| <= k && b == [] ==> Take(a + b, k) == a
  {
  }

  lemma TakeDistinct<T>(xs: seq<T>, k: nat)
    requires Distinct(xs)
    ensures Distinct(Take(xs, k))
  {
  }

  lemma TakeNested<T>(xs: seq<T>, d: nat, k: nat)
    requires d <= k
    ensures forall x | x in Take(xs, d) :: x in Take(xs, k)
  {
    forall x | x in Take(xs, d) ensures x in Take(xs, k) {
      var i :| 0 <= i < |Take(xs, d)| && Take(xs, d)[i] == x;
      assert Take(xs, k)[i] == x;
    }
  }

  /** Lists of at most `k` distinct ids with the same ids have the same recall. */
  lemma SameRecall(a: seq<Id>, fused: seq<Id>, grades: seq<Judgement>, k: nat)
    requires Distinct(fused) && Distinct(a) && |a| <= k && multiset(a) == multiset(Take(fused, k))
    ensures RecallAt(a, grades, k) == RecallAt(fused, grades, k)
  {
    hide Hits, HeadTo, Positive;
    HeadOfDistinct(a, |a|, k);
    HeadOfDistinct(fused, |fused|, k);
    assert a[..|a|] == a && fused[..|fused|] == fused;
    HitsOfPermutation(a, Take(fused, k), grades);
  }

  // ---------------------------------------------------------------- the study's orders

  /** A scored candidate: its corpus position, its fused rank and score, its cross-encoder score. */
  datatype HeadEntry = HeadEntry(id: Id, pos: nat, rf: nat, sf: real, sc: real)

  datatype Line = Line(fused: seq<Id>, fusedScores: seq<real>, rerank: map<Id, real>)

  /** The scored candidates among the first `n`. */
  function EntriesTo(line: Line, n: nat, positions: Id -> nat): seq<HeadEntry>
    requires n <= |line.fused| && n <= |line.fusedScores|
  {
    if n == 0 then []
    else
      var id := line.fused[n - 1];
      EntriesTo(line, n - 1, positions) +
      if id in line.rerank then [HeadEntry(id, positions(id), n, line.fusedScores[n - 1], line.rerank[id])] else []
  }

  function Depth(line: Line, d: nat): (n: nat)
    ensures n <= d && n <= |line.fused| && n <= |line.fusedScores|
  {
    var n := if d <= |line.fused| then d else |line.fused|;
    if n <= |line.fusedScores| then n else |line.fusedScores|
  }

  function Entries(line: Line, d: nat, positions: Id -> nat): seq<HeadEntry> {
    EntriesTo(line, Depth(line, d), positions)
  }

  method ComputeEntries(line: Line, d: nat, positions: Id -> nat) returns (out: seq<HeadEntry>)
    ensures out == Entries(line, d, positions)
  {
    out := [];
    for r := 0 to Depth(line, d)
      invariant out == EntriesTo(line, r, positions)
    {
      var id := line.fused[r];
      if id in line.rerank {
        out := out + [HeadEntry(id, positions(id), r + 1, line.fusedScores[r], line.rerank[id])];
      }
    }
  }

  function EntryId(e: HeadEntry): Id {
    e.id
  }

  function Ids(entries: seq<HeadEntry>): seq<Id> {
    Map(EntryId, entries)
  }

  function Rest(line: Line, entries: seq<HeadEntry>): seq<Id> {
    Drop(line.fused, Elements(Ids(entries)))
  }

  predicate ByScore(a: HeadEntry, b: HeadEntry) {
    a.sc > b.sc || (a.sc == b.sc && a.pos <= b.pos)
  }

  function OrderReplace(entries: seq<HeadEntry>, tail: seq<Id>, k: nat): seq<Id> {
    Take(Ids(Sort(entries, ByScore)) + tail, k)
  }

  /** The 1-based rank of an id, by cross-encoder score. */
  function RankOf(byScore: seq<HeadEntry>, id: Id): nat {
    if byScore == [] then 0
    else if byScore[|byScore| - 1].id == id then |byScore| else RankOf(byScore[..|byScore| - 1], id)
  }

  function RrfScore(e: HeadEntry, byScore: seq<HeadEntry>): real {
    1.0 / (60 + e.rf) as real + 1.0 / (60 + RankOf(byScore, e.id)) as real
  }

  function ByRrf(byScore: seq<HeadEntry>): (HeadEntry, HeadEntry) -> bool {
    (a: HeadEntry, b: HeadEntry) =>
      RrfScore(a, byScore) > RrfScore(b, byScore) ||
      (RrfScore(a, byScore) == RrfScore(b, byScore) && a.pos <= b.pos)
  }

  function OrderRrf(entries: seq<HeadEntry>, tail: seq<Id>, k: nat): seq<Id> {
    Take(Ids(Sort(entries, ByRrf(Sort(entries, ByScore)))) + tail, k)
  }

  function MinOf(v: seq<real>): real
    requires v != []
  {
    if |v| == 1 then v[0] else var m := MinOf(v[..|v| - 1]); if v[|v| - 1] < m then v[|v| - 1] else m
  }

  function MaxOf(v: seq<real>): real
    requires v != []
  {
    if |v| == 1 then v[0] else var m := MaxOf(v[..|v| - 1]); if v[|v| - 1] > m then v[|v| - 1] else m
  }

  /** Each column scaled to [0, 1]; a constant one is all zeros. */
  function MinMax(v: seq<real>): (r: seq<real>)
    ensures |r| == |v|
  {
    if v == [] then []
    else
      var lo, hi := MinOf(v), MaxOf(v);
      seq(|v|, i requires 0 <= i < |v| => Ratio(v[i], lo, hi))
  }

  function Ratio(x: real, lo: real, hi: real): real {
    if hi == lo then 0.0 else (x - lo) / (hi - lo)
  }

  function Blend(f: seq<real>, c: seq<real>, alpha: real): (r: seq<real>)
    requires |f| == |c|
    ensures |r| == |f| && forall i | 0 <= i < |r| :: r[i] == (1.0 - alpha) * f[i] + alpha * c[i]
  {
    seq(|f|, i requires 0 <= i < |f| => (1.0 - alpha) * f[i] + alpha * c[i])
  }

  function FusedColumn(entries: seq<HeadEntry>): (r: seq<real>)
    ensures |r| == |entries|
  {
    seq(|entries|, i requires 0 <= i < |entries| => entries[i].sf)
  }

  function ScoreColumn(entries: seq<HeadEntry>): (r: seq<real>)
    ensures |r| == |entries|
  {
    seq(|entries|, i requires 0 <= i < |entries| => entries[i].sc)
  }

  /** The blended score filed under an id; the last entry of the id wins. */
  function FiledUnder(entries: seq<HeadEntry>, blend: seq<real>, id: Id): real
    requires |entries| == |blend|
  {
    if entries == [] then 0.0
    else if entries[|entries| - 1].id == id then blend[|blend| - 1]
    else FiledUnder(entries[..|entries| - 1], blend[..|blend| - 1], id)
  }

  function ByBlend(entries: seq<HeadEntry>, blend: seq<real>): (HeadEntry, HeadEntry) -> bool
    requires |entries| == |blend|
  {
    (a: HeadEntry, b: HeadEntry) => FiledUnder(entries, blend, a.id) > FiledUnder(entries, blend, b.id) ||
              (FiledUnder(entries, blend, a.id) == FiledUnder(entries, blend, b.id) && a.rf <= b.rf)
  }

  function OrderLin(entries: seq<HeadEntry>, tail: seq<Id>, k: nat, alpha: real): seq<Id> {
    var blend := Blend(MinMax(FusedColumn(entries)), MinMax(ScoreColumn(entries)), alpha);
    Take(Ids(Sort(entries, ByBlend(entries, blend))) + tail, k)
  }

  // ---------------------------------------------------------------- recall is unchanged

  lemma {:induction false} EntriesFromHead(line: Line, n: nat, positions: Id -> nat)
    requires n <= |line.fused| && n <= |line.fusedScores| && Distinct(line.fused)
    ensures Distinct(Ids(EntriesTo(line, n, positions)))
    ensures forall id :: id in Ids(EntriesTo(line, n, positions)) <==> id in line.fused[..n] && id in line.rerank
    decreases n
  {
    if n > 0 {
      EntriesFromHead(line, n - 1, positions);
      var before, id := EntriesTo(line, n - 1, positions), line.fused[n - 1];
      assert line.fused[..n] == line.fused[..n - 1] + [id];
      assert id !in line.fused[..n - 1];
      assert Ids(EntriesTo(line, n, positions)) == Ids(before) + if id in line.rerank then [id] else [];
    }
  }

  /** The head reaches no further than the cut. */
  predicate ShallowHead(line: Line, d: nat, k: nat) {
    k == 0 || Depth(line, d) <= k
  }

  /** Any permutation of the head in front of the rest keeps the first `k` ids. */
  lemma AnyOrderKeepsTopK(line: Line, d: nat, k: nat, positions: Id -> nat, ordered: seq<HeadEntry>)
    requires Distinct(line.fused) && ShallowHead(line, d, k)
    requires multiset(ordered) == multiset(Entries(line, d, positions))
    ensures var r := Take(Ids(ordered) + Rest(line, Entries(line, d, positions)), k);
            multiset(r) == multiset(Take(line.fused, k)) && Distinct(r) && |r| <= k
  {
    hide EntriesTo, Drop;
    var entries := Entries(line, d, positions);
    EntriesFromHead(line, Depth(line, d), positions);
    MapPermutation(EntryId, ordered, entries);
    PermutationDistinct(Ids(entries), Ids(ordered));
    ElementsOfPermutation(Ids(ordered), Ids(entries));
    assert Elements(Ids(ordered)) == Elements(Ids(entries));
    if k > 0 {
      assert Take(line.fused, Depth(line, d)) == line.fused[..Depth(line, d)];
      HeadInFront(line.fused, Ids(ordered), Depth(line, d), k);
    }
  }

  /**
    Re-ranking at most the first `k` candidates, or all of a list of at most `k`, never changes
    Recall@k: not by replacing the order, not by rank fusion, not by interpolation with any weight.
    */
  lemma RecallUnchanged(line: Line, d: nat, k: nat, positions: Id -> nat, grades: seq<Judgement>, alpha: real)
    requires Distinct(line.fused) && ShallowHead(line, d, k)
    ensures var h := Entries(line, d, positions);
            var tail := Rest(line, h);
            RecallAt(OrderReplace(h, tail, k), grades, k) == RecallAt(line.fused, grades, k) &&
            RecallAt(OrderRrf(h, tail, k), grades, k) == RecallAt(line.fused, grades, k) &&
            RecallAt(OrderLin(h, tail, k, alpha), grades, k) == RecallAt(line.fused, grades, k)
  {
    hide EntriesTo, Drop, RecallAt, Sort, Rest, MinMax, Blend, ByRrf, ByBlend;
    var h := Entries(line, d, positions);
    var blend := Blend(MinMax(FusedColumn(h)), MinMax(ScoreColumn(h)), alpha);
    AnyOrderKeepsTopK(line, d, k, positions, Sort(h, ByScore));
    AnyOrderKeepsTopK(line, d, k, positions, Sort(h, ByRrf(Sort(h, ByScore))));
    AnyOrderKeepsTopK(line, d, k, positions, Sort(h, ByBlend(h, blend)));
    SameRecall(OrderReplace(h, Rest(line, h), k), line.fused, grades, k);
    SameRecall(OrderRrf(h, Rest(line, h), k), line.fused, grades, k);
    SameRecall(OrderLin(h, Rest(line, h), k, alpha), line.fused, grades, k);
  }

  // ---------------------------------------------------------------- and only then

  datatype Order = Replace | RankFusion | Blended(alpha: real)

  /** What an order compares the head by. */
  function Comparison(order: Order, h: seq<HeadEntry>): (HeadEntry, HeadEntry) -> bool {
    match order
    case Replace => ByScore
    case RankFusion => ByRrf(Sort(h, ByScore))
    case Blended(alpha) => ByBlend(h, Blend(MinMax(FusedColumn(h)), MinMax(ScoreColumn(h)), alpha))
  }

  function Ordered(order: Order, h: seq<HeadEntry>, tail: seq<Id>, k: nat): (r: seq<Id>)
    ensures r == Take(Ids(Sort(h, Comparison(order, h))) + tail, k)
  {
    match order
    case Replace => OrderReplace(h, tail, k)
    case RankFusion => OrderRrf(h, tail, k)
    case Blended(alpha) => OrderLin(h, tail, k, alpha)
  }

  /** The order has the same first `k` ids as the fused list. */
  predicate KeepsTopK(order: Order, line: Line, d: nat, k: nat, positions: Id -> nat) {
    var h := Entries(line, d, positions);
    multiset(Ordered(order, h, Rest(line, h), k)) == multiset(Take(line.fused, k))
  }

  /**
    The bound on the depth is exact for each order: whatever the cross-encoder scores, the first `k`
    ids stay, just when the head is shallow.
    */
  lemma KeepsTopKIff(order: Order, fused: seq<Id>, fusedScores: seq<real>, d: nat, k: nat, positions: Id -> nat)
    requires Distinct(fused) && |fused| == |fusedScores|
    ensures (forall scores: map<Id, real> :: KeepsTopK(order, Line(fused, fusedScores, scores), d, k, positions)) <==>
              k == 0 || d <= k || |fused| <= k
  {
    hide KeepsTopK;
    if k == 0 || d <= k || |fused| <= k {
      forall scores: map<Id, real> ensures KeepsTopK(order, Line(fused, fusedScores, scores), d, k, positions) {
        ShallowKeeps(order, Line(fused, fusedScores, scores), d, k, positions);
      }
    } else {
      DeepDrops(order, fused, fusedScores, d, k, positions);
    }
  }

  lemma ShallowKeeps(order: Order, line: Line, d: nat, k: nat, positions: Id -> nat)
    requires Distinct(line.fused) && ShallowHead(line, d, k)
    ensures KeepsTopK(order, line, d, k, positions)
  {
    hide EntriesTo, Drop, Sort, Ordered, Comparison;
    var h := Entries(line, d, positions);
    AnyOrderKeepsTopK(line, d, k, positions, Sort(h, Comparison(order, h)));
  }

  lemma DeepDrops(order: Order, fused: seq<Id>, fusedScores: seq<real>, d: nat, k: nat, positions: Id -> nat)
    requires Distinct(fused) && |fused| == |fusedScores| && 0 < k < d && k < |fused|
    ensures !KeepsTopK(order, Line(fused, fusedScores, map[fused[k] := 0.0]), d, k, positions)
  {
    hide Entries, Ordered, Rest;
    var line := Line(fused, fusedScores, map[fused[k] := 0.0]);
    LoneEntry(fused, fusedScores, d, k, positions);
    var h := Entries(line, d, positions);
    var r := Ordered(order, h, Rest(line, h), k);
    LoneInFront(h, Comparison(order, h), Rest(line, h), k, fused[k]);
    assert fused[k] in multiset(r) && fused[k] !in multiset(Take(fused, k));
  }

  /** The order has the recall of the fused list at `k`, for all judgements. */
  ghost predicate KeepsRecall(order: Order, line: Line, d: nat, k: nat, positions: Id -> nat) {
    var h := Entries(line, d, positions);
    var r := Ordered(order, h, Rest(line, h), k);
    forall grades | IsMap(grades) :: RecallAt(r, grades, k) == RecallAt(line.fused, grades, k)
  }

  /** And so for recall: it stays for all scores and judgements just when the head is shallow. */
  lemma RecallKeptIff(order: Order, fused: seq<Id>, fusedScores: seq<real>, d: nat, k: nat, positions: Id -> nat)
    requires Distinct(fused) && |fused| == |fusedScores|
    ensures (forall scores: map<Id, real> :: KeepsRecall(order, Line(fused, fusedScores, scores), d, k, positions)) <==>
              k == 0 || d <= k || |fused| <= k
  {
    hide KeepsRecall;
    if k == 0 || d <= k || |fused| <= k {
      forall scores: map<Id, real> ensures KeepsRecall(order, Line(fused, fusedScores, scores), d, k, positions) {
        ShallowKeepsRecall(order, Line(fused, fusedScores, scores), d, k, positions);
      }
    } else {
      DeepChangesRecall(order, fused, fusedScores, d, k, positions);
    }
  }

  lemma ShallowKeepsRecall(order: Order, line: Line, d: nat, k: nat, positions: Id -> nat)
    requires Distinct(line.fused) && ShallowHead(line, d, k)
    ensures KeepsRecall(order, line, d, k, positions)
  {
    hide EntriesTo, Drop, Sort, Ordered, Comparison, RecallAt, Rest;
    var h := Entries(line, d, positions);
    AnyOrderKeepsTopK(line, d, k, positions, Sort(h, Comparison(order, h)));
    var r := Ordered(order, h, Rest(line, h), k);
    forall grades | IsMap(grades) ensures RecallAt(r, grades, k) == RecallAt(line.fused, grades, k) {
      SameRecall(r, line.fused, grades, k);
    }
  }

  lemma DeepChangesRecall(order: Order, fused: seq<Id>, fusedScores: seq<real>, d: nat, k: nat, positions: Id -> nat)
    requires Distinct(fused) && |fused| == |fusedScores| && 0 < k < d && k < |fused|
    ensures !KeepsRecall(order, Line(fused, fusedScores, map[fused[k] := 0.0]), d, k, positions)
  {
    hide Entries, Ordered, Rest, RecallAt, HeadTo, Comparison;
    var line := Line(fused, fusedScores, map[fused[k] := 0.0]);
    LoneEntry(fused, fusedScores, d, k, positions);
    var h := Entries(line, d, positions);
    var r := Ordered(order, h, Rest(line, h), k);
    LoneInFront(h, Comparison(order, h), Rest(line, h), k, fused[k]);
    FirstInHead(r, |r|, k);
    HeadOfDistinct(fused, |fused|, k);
    var grades := [Judgement(fused[k], 1)];
    assert Positive(grades) == [1];
    RecallBounds(r, grades, k);
    RecallBounds(fused, grades, k);
    assert grades[0].id in Head(r, k) && grades[0].id !in Head(fused, k);
    assert IsMap(grades);
  }

  lemma {:induction false} FirstInHead(ranked: seq<Id>, n: nat, k: nat)
    requires 0 < n <= |ranked| && k > 0
    ensures ranked[0] in HeadTo(ranked, n, k)
    decreases n
  {
    if n > 1 {
      FirstInHead(ranked, n - 1, k);
    } else {
      assert HeadTo(ranked, 0, k) == [];
    }
  }

  /** Scoring only the candidate behind the first `k` makes it the head. */
  lemma LoneEntry(fused: seq<Id>, fusedScores: seq<real>, d: nat, k: nat, positions: Id -> nat)
    requires Distinct(fused) && |fused| == |fusedScores| && 0 < k < d && k < |fused|
    ensures var h := Entries(Line(fused, fusedScores, map[fused[k] := 0.0]), d, positions);
            h != [] && forall i | 0 <= i < |h| :: h[i].id == fused[k]
  {
    hide EntriesTo;
    var line := Line(fused, fusedScores, map[fused[k] := 0.0]);
    var h := Entries(line, d, positions);
    EntriesFromHead(line, Depth(line, d), positions);
    assert fused[..Depth(line, d)][k] == fused[k];
    assert fused[k] in Ids(h);
    forall i | 0 <= i < |h| ensures h[i].id == fused[k] {
      assert Ids(h)[i] in Ids(h);
    }
  }

  lemma LoneInFront(h: seq<HeadEntry>, le: (HeadEntry, HeadEntry) -> bool, tail: seq<Id>, k: nat, id: Id)
    requires h != [] && k > 0 && forall i | 0 <= i < |h| :: h[i].id == id
    ensures var r := Take(Ids(Sort(h, le)) + tail, k); r != [] && r[0] == id
  {
    hide Sort;
    var ordered := Sort(h, le);
    assert ordered[0] in multiset(ordered);
    assert ordered[0] in h;
    assert Take(Ids(ordered) + tail, k)[0] == id;
  }

  /** Each order lists the head by its own score, best first, and breaks ties by position or by fused rank. */
  lemma OrdersSortTheHead(entries: seq<HeadEntry>, alpha: real)
    ensures Sorted(Sort(entries, ByScore), ByScore)
    ensures var le := ByRrf(Sort(entries, ByScore)); Sorted(Sort(entries, le), le)
    ensures var le := ByBlend(entries, Blend(MinMax(FusedColumn(entries)), MinMax(ScoreColumn(entries)), alpha));
            Sorted(Sort(entries, le), le)
  {
    hide Sort, MinMax, Blend, FiledUnder, RrfScore;
    assert TotalPreorder(ByScore);
    SortSorted(entries, ByScore);
    var rrf := ByRrf(Sort(entries, ByScore));
    assert TotalPreorder(rrf);
    SortSorted(entries, rrf);
    var blend := ByBlend(entries, Blend(MinMax(FusedColumn(entries)), MinMax(ScoreColumn(entries)), alpha));
    assert TotalPreorder(blend);
    SortSorted(entries, blend);
  }
}
