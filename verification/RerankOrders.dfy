/**
  What the orders of `Rerank` and `Interpolate` are, on the fields of the candidates and with the formulas written out:
  which candidates make up the head, what decides between two of them, and what follows behind.
  */
module RerankOrders {
  import opened Common
  import opened Sorting
  import opened Metrics
  import opened Rerank
  import opened Interpolate

  // ---------------------------------------------------------------- the head and the rest

  /** The candidate at place `r` of the line, scored, became this entry. */
  predicate EntryIs(line: Line, positions: Id -> nat, e: HeadEntry, r: nat) {
    && r < |line.fused| && r < |line.fusedScores|
    && e.id == line.fused[r] && e.id in line.rerank
    && e.rf == r + 1 && e.sf == line.fusedScores[r]
    && e.sc == line.rerank[e.id] && e.pos == positions(e.id)
  }

  /** The entries, in the order of the line, of exactly the scored candidates among the first `n`. */
  ghost predicate EntriesAre(line: Line, n: nat, positions: Id -> nat, h: seq<HeadEntry>) {
    && (forall i | 0 <= i < |h| :: 1 <= h[i].rf <= n && EntryIs(line, positions, h[i], h[i].rf - 1))
    && (forall i, j | 0 <= i < j < |h| :: h[i].rf < h[j].rf)
    && (forall r | 0 <= r < n && r < |line.fused| && line.fused[r] in line.rerank ::
          exists e :: e in h && e.rf == r + 1)
  }

  lemma EntriesOneMore(line: Line, n: nat, positions: Id -> nat, h: seq<HeadEntry>, more: seq<HeadEntry>)
    requires n < |line.fused| && n < |line.fusedScores| && EntriesAre(line, n, positions, h)
    requires if line.fused[n] in line.rerank then |more| == 1 && EntryIs(line, positions, more[0], n) else more == []
    ensures EntriesAre(line, n + 1, positions, h + more)
  {
    hide EntryIs;
    assert more != [] ==> more[0].rf == n + 1 by { RankOfEntry(line, positions, more, n); }
    forall r | 0 <= r < n + 1 && line.fused[r] in line.rerank ensures exists e :: e in h + more && e.rf == r + 1 {
      if r < n {
        var e :| e in h && e.rf == r + 1;
        assert e in h + more;
      } else {
        assert more[0] in h + more;
      }
    }
  }

  lemma RankOfEntry(line: Line, positions: Id -> nat, more: seq<HeadEntry>, n: nat)
    requires more != [] ==> EntryIs(line, positions, more[0], n)
    ensures more != [] ==> more[0].rf == n + 1
  {
  }

  lemma NoEntries(line: Line, positions: Id -> nat)
    ensures EntriesAre(line, 0, positions, [])
  {
  }

  lemma {:induction false} EntriesToAre(line: Line, n: nat, positions: Id -> nat)
    requires n <= |line.fused| && n <= |line.fusedScores|
    ensures EntriesAre(line, n, positions, EntriesTo(line, n, positions))
    decreases n
  {
    hide EntriesAre;
    if n == 0 {
      NoEntries(line, positions);
    } else {
      EntriesToAre(line, n - 1, positions);
      var id := line.fused[n - 1];
      var more := if id in line.rerank then
        [HeadEntry(id, positions(id), n, line.fusedScores[n - 1], line.rerank[id])]
      else [];
      EntriesOneMore(line, n - 1, positions, EntriesTo(line, n - 1, positions), more);
    }
  }

  /** The head: the scored candidates among the first `d` that have a fused score. */
  lemma EntriesMeaning(line: Line, d: nat, positions: Id -> nat)
    ensures EntriesAre(line, Least(d, Least(|line.fused|, |line.fusedScores|)), positions, Entries(line, d, positions))
  {
    hide EntriesTo, EntriesAre;
    EntriesToAre(line, Depth(line, d), positions);
  }

  /** `at` lists, in ascending order, the places of `xs` whose elements are not in `ids`, and `r` their elements. */
  ghost predicate LeftAt<T>(xs: seq<T>, ids: set<T>, r: seq<T>, at: seq<nat>) {
    && |at| == |r|
    && (forall i | 0 <= i < |at| :: at[i] < |xs| && xs[at[i]] == r[i])
    && (forall i, j | 0 <= i < j < |at| :: at[i] < at[j])
    && (forall p | 0 <= p < |xs| :: p in at <==> xs[p] !in ids)
  }

  lemma LeftSnoc<T>(xs: seq<T>, x: T, ids: set<T>, r: seq<T>, at: seq<nat>)
    requires LeftAt(xs, ids, r, at) && x !in ids
    ensures LeftAt(xs + [x], ids, r + [x], at + [|xs|])
  {
    var n: nat := |xs|;
    forall p | 0 <= p < |xs + [x]| ensures p in at + [n] <==> (xs + [x])[p] !in ids {
      assert p in at + [n] <==> p in at || p == n;
    }
  }

  lemma TakenSnoc<T>(xs: seq<T>, x: T, ids: set<T>, r: seq<T>, at: seq<nat>)
    requires LeftAt(xs, ids, r, at) && x in ids
    ensures LeftAt(xs + [x], ids, r, at)
  {
    forall p | 0 <= p < |xs + [x]| ensures p in at <==> (xs + [x])[p] !in ids {
      if p == |xs| {
        assert p !in at;
      }
    }
  }

  lemma LeftNone<T>(ids: set<T>)
    ensures LeftAt([], ids, [], [])
  {
  }

  /** What is left of a list: everything not taken, in its order. */
  lemma {:induction false} DropIs<T>(xs: seq<T>, ids: set<T>) returns (at: seq<nat>)
    ensures LeftAt(xs, ids, Drop(xs, ids), at)
    decreases |xs|
  {
    hide LeftAt;
    if xs == [] {
      at := [];
      LeftNone(ids);
    } else {
      var n := |xs| - 1;
      assert xs == xs[..n] + [xs[n]];
      at := DropIs(xs[..n], ids);
      if xs[n] in ids {
        TakenSnoc(xs[..n], xs[n], ids, Drop(xs[..n], ids), at);
        assert Drop(xs, ids) == Drop(xs[..n], ids);
      } else {
        LeftSnoc(xs[..n], xs[n], ids, Drop(xs[..n], ids), at);
        at := at + [n];
      }
    }
  }

  /** The rest of a line: the fused ids that are not in the head, in fused order. */
  lemma RestMeaning(line: Line, h: seq<HeadEntry>) returns (at: seq<nat>)
    ensures LeftAt(line.fused, set e | e in h :: e.id, Rest(line, h), at)
  {
    hide Drop;
    at := DropIs(line.fused, Elements(Ids(h)));
    forall id ensures id in Elements(Ids(h)) <==> id in (set e | e in h :: e.id) {
      if id in Ids(h) {
        var i :| 0 <= i < |Ids(h)| && Ids(h)[i] == id;
        assert h[i] in h;
      }
      if e :| e in h && e.id == id {
        var i :| 0 <= i < |h| && h[i] == e;
        assert Ids(h)[i] == id;
      }
    }
    assert Elements(Ids(h)) == set e | e in h :: e.id;
  }

  /** The ids of `o`, then `tail`, cut at `k`. */
  predicate ListIs(r: seq<Id>, o: seq<HeadEntry>, tail: seq<Id>, k: nat) {
    |r| == Least(k, |o| + |tail|) &&
    forall i | 0 <= i < |r| :: r[i] == if i < |o| then o[i].id else tail[i - |o|]
  }

  // ---------------------------------------------------------------- the three orders

  /** Replacing: by cross-encoder score, the highest first, and by position among equals. */
  lemma ReplaceIs(h: seq<HeadEntry>, tail: seq<Id>, k: nat) returns (o: seq<HeadEntry>)
    ensures multiset(o) == multiset(h) && ListIs(OrderReplace(h, tail, k), o, tail, k)
    ensures forall i, j | 0 <= i < j < |o| :: o[i].sc > o[j].sc || (o[i].sc == o[j].sc && o[i].pos <= o[j].pos)
  {
    hide Sort;
    o := Sort(h, ByScore);
    SortSorted(h, ByScore);
  }

  /** No two entries share an id or a position. */
  predicate Apart(h: seq<HeadEntry>) {
    forall i, j | 0 <= i < j < |h| :: h[i].id != h[j].id && h[i].pos != h[j].pos
  }

  /** No two ids of the list stand at the same position of the corpus. */
  predicate PositionsDiffer(fused: seq<Id>, positions: Id -> nat) {
    forall a, b | a in fused && b in fused && positions(a) == positions(b) :: a == b
  }

  lemma TwoApart(line: Line, positions: Id -> nat, a: HeadEntry, b: HeadEntry, p: nat, q: nat)
    requires Distinct(line.fused) && PositionsDiffer(line.fused, positions)
    requires EntryIs(line, positions, a, p) && EntryIs(line, positions, b, q) && p < q
    ensures a.id != b.id && a.pos != b.pos
  {
    assert line.fused[p] != line.fused[q];
    assert line.fused[p] in line.fused && line.fused[q] in line.fused;
  }

  /** A fused list without repeats over a corpus, whose positions differ, makes a head whose entries are apart. */
  lemma EntriesApart(line: Line, d: nat, positions: Id -> nat)
    requires Distinct(line.fused) && PositionsDiffer(line.fused, positions)
    ensures Apart(Entries(line, d, positions))
  {
    hide Entries, EntryIs, PositionsDiffer, Distinct;
    EntriesMeaning(line, d, positions);
    var h := Entries(line, d, positions);
    forall i, j | 0 <= i < j < |h| ensures h[i].id != h[j].id && h[i].pos != h[j].pos {
      TwoApart(line, positions, h[i], h[j], h[i].rf - 1, h[j].rf - 1);
    }
  }

  /** The entries ahead of one by cross-encoder score, then position. */
  ghost function Ahead(h: seq<HeadEntry>, e: HeadEntry): set<HeadEntry> {
    set x | x in h && (x.sc > e.sc || (x.sc == e.sc && x.pos < e.pos))
  }

  /** The rank-fusion score: of the fused rank, and of the 1-based rank by cross-encoder score. */
  ghost function FusionOf(h: seq<HeadEntry>, e: HeadEntry): real {
    1.0 / (60 + e.rf) as real + 1.0 / (60 + (1 + |Ahead(h, e)|)) as real
  }

  lemma {:induction false} RankAt(o: seq<HeadEntry>, i: nat)
    requires i < |o| && Apart(o)
    ensures RankOf(o, o[i].id) == i + 1
    decreases |o|
  {
    if i < |o| - 1 {
      RankAt(o[..|o| - 1], i);
    }
  }

  lemma ApartPermutation(h: seq<HeadEntry>, o: seq<HeadEntry>)
    requires Apart(h) && multiset(h) == multiset(o)
    ensures Apart(o)
  {
    hide Apart;
    assert Distinct(h) && (forall a, b | a in h && b in h && a != b :: a.id != b.id && a.pos != b.pos) by {
      ApartMembers(h);
    }
    PermutationDistinct(h, o);
    ElementsOfPermutation(h, o);
    assert Apart(o) by { MembersApart(o); }
  }

  lemma ApartMembers(h: seq<HeadEntry>)
    requires Apart(h)
    ensures Distinct(h) && forall a, b | a in h && b in h && a != b :: a.id != b.id && a.pos != b.pos
  {
  }

  lemma MembersApart(o: seq<HeadEntry>)
    requires Distinct(o) && forall a, b | a in o && b in o && a != b :: a.id != b.id && a.pos != b.pos
    ensures Apart(o)
  {
  }

  lemma {:induction false} PrefixSize<T>(xs: seq<T>, i: nat)
    requires i <= |xs| && Distinct(xs)
    ensures |Elements(xs[..i])| == i
    decreases i
  {
    if i == 0 {
      assert Elements(xs[..0]) == {};
    } else {
      PrefixSize(xs, i - 1);
      assert Elements(xs[..i]) == Elements(xs[..i - 1]) + {xs[i - 1]};
      assert xs[i - 1] !in xs[..i - 1];
    }
  }

  /** In the list by cross-encoder score an entry stands behind those ahead of it. */
  lemma AheadCounts(h: seq<HeadEntry>, o: seq<HeadEntry>, i: nat)
    requires Apart(h) && multiset(h) == multiset(o) && Sorted(o, ByScore) && i < |o|
    ensures |Ahead(h, o[i])| == i
  {
    ApartPermutation(h, o);
    ElementsOfPermutation(h, o);
    PrefixSize(o, i);
    forall x ensures x in Ahead(h, o[i]) <==> x in o[..i] {
      if x in o {
        var j :| 0 <= j < |o| && o[j] == x;
        assert j < i ==> o[..i][j] == x;
        assert i < j ==> ByScore(o[i], o[j]);
        assert j < i ==> ByScore(o[j], o[i]);
      }
    }
    assert Ahead(h, o[i]) == Elements(o[..i]);
  }

  lemma RrfScoreIs(h: seq<HeadEntry>, o: seq<HeadEntry>, e: HeadEntry)
    requires Apart(h) && multiset(h) == multiset(o) && Sorted(o, ByScore) && e in h
    ensures RrfScore(e, o) == FusionOf(h, e)
  {
    hide Ahead, Sorted, RankOf, Apart, ByScore;
    ElementsOfPermutation(h, o);
    var i :| 0 <= i < |o| && o[i] == e;
    ApartPermutation(h, o);
    RankAt(o, i);
    AheadCounts(h, o, i);
  }

  /** Rank fusion: by the sum of the two reciprocal ranks, the highest first, and by position among equals. */
  lemma RankFusionIs(h: seq<HeadEntry>, tail: seq<Id>, k: nat) returns (o: seq<HeadEntry>)
    requires Apart(h)
    ensures multiset(o) == multiset(h) && ListIs(OrderRrf(h, tail, k), o, tail, k)
    ensures forall i, j | 0 <= i < j < |o| ::
              FusionOf(h, o[i]) > FusionOf(h, o[j]) || (FusionOf(h, o[i]) == FusionOf(h, o[j]) && o[i].pos <= o[j].pos)
  {
    hide Sort, FusionOf, Apart, RrfScore;
    var byScore := Sort(h, ByScore);
    SortSorted(h, ByScore);
    var le := ByRrf(byScore);
    assert TotalPreorder(le);
    o := Sort(h, le);
    SortSorted(h, le);
    ElementsOfPermutation(o, h);
    forall i, j | 0 <= i < j < |o|
      ensures FusionOf(h, o[i]) > FusionOf(h, o[j]) ||
              (FusionOf(h, o[i]) == FusionOf(h, o[j]) && o[i].pos <= o[j].pos)
    {
      RrfScoreIs(h, byScore, o[i]);
      RrfScoreIs(h, byScore, o[j]);
      assert le(o[i], o[j]);
    }
  }

  /** The least and the greatest of a column. */
  ghost predicate Range(v: seq<real>, lo: real, hi: real) {
    lo in v && hi in v && forall x | x in v :: lo <= x <= hi
  }

  /** A value scaled into the range of its column; 0 in a constant column. */
  function Scaled(x: real, lo: real, hi: real): real {
    if lo < hi then (x - lo) / (hi - lo) else 0.0
  }

  lemma RangeIs(v: seq<real>, lo: real, hi: real)
    requires Range(v, lo, hi)
    ensures MinOf(v) == lo && MaxOf(v) == hi
    ensures forall i | 0 <= i < |v| :: MinMax(v)[i] == Scaled(v[i], lo, hi)
  {
    hide MinOf, MaxOf;
    MinMaxRange(v);
  }

  /** The blend of an entry's two scores, each scaled over the head. */
  function BlendOf(e: HeadEntry, alpha: real, lf: real, hf: real, lc: real, hc: real): real {
    (1.0 - alpha) * Scaled(e.sf, lf, hf) + alpha * Scaled(e.sc, lc, hc)
  }

  lemma {:induction false} FiledAt(h: seq<HeadEntry>, blend: seq<real>, i: nat)
    requires |blend| == |h| && i < |h| && forall a, b | 0 <= a < b < |h| :: h[a].id != h[b].id
    ensures FiledUnder(h, blend, h[i].id) == blend[i]
    decreases |h|
  {
    if i < |h| - 1 {
      FiledAt(h[..|h| - 1], blend[..|h| - 1], i);
    }
  }

  /** The fused scores and the cross-encoder scores of the head. */
  function FusedScoresOf(h: seq<HeadEntry>): (r: seq<real>)
    ensures |r| == |h| && forall i | 0 <= i < |h| :: r[i] == h[i].sf
  {
    Map((e: HeadEntry) => e.sf, h)
  }

  function EncoderScoresOf(h: seq<HeadEntry>): (r: seq<real>)
    ensures |r| == |h| && forall i | 0 <= i < |h| :: r[i] == h[i].sc
  {
    Map((e: HeadEntry) => e.sc, h)
  }

  lemma ColumnsAre(h: seq<HeadEntry>)
    ensures FusedColumn(h) == FusedScoresOf(h) && ScoreColumn(h) == EncoderScoresOf(h)
  {
    hide Map;
  }

  lemma BlendAt(h: seq<HeadEntry>, i: nat, alpha: real, lf: real, hf: real, lc: real, hc: real)
    requires i < |h| && Range(FusedScoresOf(h), lf, hf) && Range(EncoderScoresOf(h), lc, hc)
    ensures Blend(MinMax(FusedColumn(h)), MinMax(ScoreColumn(h)), alpha)[i] == BlendOf(h[i], alpha, lf, hf, lc, hc)
  {
    hide MinMax, Range, Scaled, FusedScoresOf, EncoderScoresOf, FusedColumn, ScoreColumn;
    ColumnsAre(h);
    RangeIs(FusedScoresOf(h), lf, hf);
    RangeIs(EncoderScoresOf(h), lc, hc);
  }

  lemma FiledIs(h: seq<HeadEntry>, alpha: real, lf: real, hf: real, lc: real, hc: real, e: HeadEntry)
    requires Apart(h) && e in h && Range(FusedScoresOf(h), lf, hf) && Range(EncoderScoresOf(h), lc, hc)
    ensures FiledUnder(h, Blend(MinMax(FusedColumn(h)), MinMax(ScoreColumn(h)), alpha), e.id) ==
            BlendOf(e, alpha, lf, hf, lc, hc)
  {
    hide MinMax, Range, FiledUnder, BlendOf, Blend, FusedScoresOf, EncoderScoresOf, FusedColumn, ScoreColumn;
    var i :| 0 <= i < |h| && h[i] == e;
    BlendAt(h, i, alpha, lf, hf, lc, hc);
    FiledAt(h, Blend(MinMax(FusedColumn(h)), MinMax(ScoreColumn(h)), alpha), i);
  }

  /** Interpolation: by the blend of the scaled scores, the highest first, and by fused rank among equals. */
  lemma BlendedIs(h: seq<HeadEntry>, tail: seq<Id>, k: nat, alpha: real, lf: real, hf: real, lc: real, hc: real)
    returns (o: seq<HeadEntry>)
    requires Apart(h)
    requires h != [] ==> Range(FusedScoresOf(h), lf, hf) && Range(EncoderScoresOf(h), lc, hc)
    ensures multiset(o) == multiset(h) && ListIs(OrderLin(h, tail, k, alpha), o, tail, k)
    ensures forall i, j | 0 <= i < j < |o| ::
              BlendOf(o[i], alpha, lf, hf, lc, hc) > BlendOf(o[j], alpha, lf, hf, lc, hc) ||
              (BlendOf(o[i], alpha, lf, hf, lc, hc) == BlendOf(o[j], alpha, lf, hf, lc, hc) && o[i].rf <= o[j].rf)
  {
    hide Sort, MinMax, Blend, FiledUnder, BlendOf, Range, Apart, FusedScoresOf, EncoderScoresOf;
    var blend := Blend(MinMax(FusedColumn(h)), MinMax(ScoreColumn(h)), alpha);
    var le := ByBlend(h, blend);
    assert TotalPreorder(le);
    o := Sort(h, le);
    SortSorted(h, le);
    ElementsOfPermutation(o, h);
    forall i, j | 0 <= i < j < |o|
      ensures BlendOf(o[i], alpha, lf, hf, lc, hc) > BlendOf(o[j], alpha, lf, hf, lc, hc) ||
              (BlendOf(o[i], alpha, lf, hf, lc, hc) == BlendOf(o[j], alpha, lf, hf, lc, hc) && o[i].rf <= o[j].rf)
    {
      assert o[i] in h && o[j] in h;
      FiledIs(h, alpha, lf, hf, lc, hc, o[i]);
      FiledIs(h, alpha, lf, hf, lc, hc, o[j]);
      assert le(o[i], o[j]);
    }
  }

  // ---------------------------------------------------------------- the ordering oracle

  /** The candidate at place `p`, scored, became this slot. */
  predicate SlotIs(fused: seq<int>, fusedScores: seq<real>, scores: seq<Option<real>>, s: Slot, p: nat) {
    && p < |fused| && p < |fusedScores| && p < |scores| && scores[p].Some?
    && s.index == p && s.id == fused[p] && s.fused == fusedScores[p] && s.score == scores[p].value
  }

  /** The slots, in fused order, of exactly the scored candidates among the first `n`. */
  ghost predicate SlotsAre(fused: seq<int>, fusedScores: seq<real>, scores: seq<Option<real>>, n: nat, h: seq<Slot>) {
    && (forall i | 0 <= i < |h| :: h[i].index < n && SlotIs(fused, fusedScores, scores, h[i], h[i].index))
    && (forall i, j | 0 <= i < j < |h| :: h[i].index < h[j].index)
    && (forall p | 0 <= p < n && p < |scores| && scores[p].Some? :: exists s :: s in h && s.index == p)
  }

  lemma PlaceOfSlot(fused: seq<int>, fusedScores: seq<real>, scores: seq<Option<real>>, more: seq<Slot>, n: nat)
    requires more != [] ==> SlotIs(fused, fusedScores, scores, more[0], n)
    ensures more != [] ==> more[0].index == n
  {
  }

  lemma SlotsOneMore(fused: seq<int>, fusedScores: seq<real>, scores: seq<Option<real>>, n: nat, h: seq<Slot>,
                     more: seq<Slot>)
    requires n < |fused| && n < |fusedScores| && n < |scores| && SlotsAre(fused, fusedScores, scores, n, h)
    requires if scores[n].Some? then |more| == 1 && SlotIs(fused, fusedScores, scores, more[0], n) else more == []
    ensures SlotsAre(fused, fusedScores, scores, n + 1, h + more)
  {
    hide SlotIs;
    PlaceOfSlot(fused, fusedScores, scores, more, n);
    forall p | 0 <= p < n + 1 && scores[p].Some? ensures exists s :: s in h + more && s.index == p {
      if p < n {
        var s :| s in h && s.index == p;
        assert s in h + more;
      } else {
        assert more[0] in h + more;
      }
    }
  }

  lemma NoSlots(fused: seq<int>, fusedScores: seq<real>, scores: seq<Option<real>>)
    ensures SlotsAre(fused, fusedScores, scores, 0, [])
  {
  }

  lemma {:induction false} SlotsToAre(fused: seq<int>, fusedScores: seq<real>, scores: seq<Option<real>>, n: nat)
    requires n <= |fused| && n <= |fusedScores| && n <= |scores|
    ensures SlotsAre(fused, fusedScores, scores, n, SlotsTo(fused, fusedScores, scores, n))
    decreases n
  {
    hide SlotsAre;
    if n == 0 {
      NoSlots(fused, fusedScores, scores);
    } else {
      SlotsToAre(fused, fusedScores, scores, n - 1);
      var more := if scores[n - 1].Some? then
        [Slot(n - 1, fused[n - 1], fusedScores[n - 1], scores[n - 1].value)]
      else [];
      SlotsOneMore(fused, fusedScores, scores, n - 1, SlotsTo(fused, fusedScores, scores, n - 1), more);
    }
  }

  /** The oracle's head: the scored candidates among the first `d`. */
  lemma ScoredHeadMeaning(fused: seq<int>, fusedScores: seq<real>, scores: seq<Option<real>>, d: nat)
    requires |fusedScores| == |fused| && Least(d, |fused|) <= |scores|
    ensures SlotsAre(fused, fusedScores, scores, Least(d, |fused|), ScoredHead(fused, fusedScores, scores, d))
  {
    hide SlotsTo, SlotsAre;
    SlotsToAre(fused, fusedScores, scores, Least(d, |fused|));
  }

  /** The oracle's list: the scored slots of `o` with the score `shown` gives each, then `tail` unscored, cut at `k`. */
  predicate ShownIs(r: seq<Ranked>, o: seq<Slot>, shown: Slot -> real, tail: seq<int>, k: nat) {
    |r| == Least(k, |o| + |tail|) &&
    forall i | 0 <= i < |r| ::
      r[i] == if i < |o| then Ranked(o[i].id, Some(shown(o[i]))) else Ranked(tail[i - |o|], None)
  }

  /** The replace rule: by cross-encoder score, the highest first, and by id among equals; each with its score. */
  lemma RerankedIs(fused: seq<int>, fusedScores: seq<real>, scores: seq<Option<real>>, d: nat, k: nat)
    returns (o: seq<Slot>, tail: seq<int>, at: seq<nat>)
    requires |fusedScores| == |fused| && Least(d, |fused|) <= |scores|
    ensures var head := ScoredHead(fused, fusedScores, scores, d);
            multiset(o) == multiset(head) && LeftAt(fused, set s | s in head :: s.id, tail, at)
    ensures ShownIs(OrderReranked(fused, fusedScores, scores, d, k), o, (s: Slot) => s.score, tail, k)
    ensures forall i, j | 0 <= i < j < |o| ::
            o[i].score > o[j].score || (o[i].score == o[j].score && o[i].id <= o[j].id)
  {
    hide Sort, ScoredHead, Drop;
    var head := ScoredHead(fused, fusedScores, scores, d);
    o, tail := Sort(head, BySlotScore), Drop(fused, SlotIds(head));
    SortSorted(head, BySlotScore);
    at := DropIs(fused, SlotIds(head));
  }

  function FusedColumnOf(h: seq<Slot>): (r: seq<real>)
    ensures |r| == |h| && forall i | 0 <= i < |h| :: r[i] == h[i].fused
  {
    Map((s: Slot) => s.fused, h)
  }

  function ScoreColumnOf(h: seq<Slot>): (r: seq<real>)
    ensures |r| == |h| && forall i | 0 <= i < |h| :: r[i] == h[i].score
  {
    Map((s: Slot) => s.score, h)
  }

  /** The combined score of a slot: the blend of its two scores, each scaled over the head. */
  function CombinedOf(s: Slot, alpha: real, lf: real, hf: real, lc: real, hc: real): real {
    (1.0 - alpha) * Scaled(s.fused, lf, hf) + alpha * Scaled(s.score, lc, hc)
  }

  function PlacedOf(alpha: real, lf: real, hf: real, lc: real, hc: real): Slot -> Placed {
    (s: Slot) => Placed(s.index, s.id, CombinedOf(s, alpha, lf, hf, lc, hc))
  }

  predicate ByCombined(alpha: real, lf: real, hf: real, lc: real, hc: real, a: Slot, b: Slot) {
    CombinedOf(a, alpha, lf, hf, lc, hc) > CombinedOf(b, alpha, lf, hf, lc, hc) ||
    (CombinedOf(a, alpha, lf, hf, lc, hc) == CombinedOf(b, alpha, lf, hf, lc, hc) && a.index <= b.index)
  }

  function CombinedOrder(alpha: real, lf: real, hf: real, lc: real, hc: real): (Slot, Slot) -> bool {
    (a, b) => ByCombined(alpha, lf, hf, lc, hc, a, b)
  }

  lemma CombinedIsOrder(alpha: real, lf: real, hf: real, lc: real, hc: real)
    ensures TotalPreorder(CombinedOrder(alpha, lf, hf, lc, hc))
  {
    hide CombinedOf;
  }

  lemma CombinedAt(head: seq<Slot>, i: nat, alpha: real, lf: real, hf: real, lc: real, hc: real)
    requires i < |head| && Range(FusedColumnOf(head), lf, hf) && Range(ScoreColumnOf(head), lc, hc)
    ensures Combined(head, alpha)[i] == CombinedOf(head[i], alpha, lf, hf, lc, hc)
  {
    hide MinMax, Range, Scaled;
    assert FusedOf(head) == FusedColumnOf(head) && ScoreOf(head) == ScoreColumnOf(head);
    RangeIs(FusedColumnOf(head), lf, hf);
    RangeIs(ScoreColumnOf(head), lc, hc);
  }

  lemma PlaceIs(head: seq<Slot>, alpha: real, lf: real, hf: real, lc: real, hc: real)
    requires head != [] ==> Range(FusedColumnOf(head), lf, hf) && Range(ScoreColumnOf(head), lc, hc)
    ensures Place(head, alpha) == Map(PlacedOf(alpha, lf, hf, lc, hc), head)
  {
    hide Range, Combined, CombinedOf, FusedColumnOf, ScoreColumnOf;
    var a, b := Place(head, alpha), Map(PlacedOf(alpha, lf, hf, lc, hc), head);
    forall i | 0 <= i < |head| ensures a[i] == b[i] {
      CombinedAt(head, i, alpha, lf, hf, lc, hc);
    }
  }

  lemma PlacedSorted(head: seq<Slot>, o: seq<Slot>, alpha: real, lf: real, hf: real, lc: real, hc: real)
    requires multiset(o) == multiset(head) && forall i, j | 0 <= i < j < |head| :: head[i].index < head[j].index
    requires Sorted(o, CombinedOrder(alpha, lf, hf, lc, hc))
    ensures Sort(Map(PlacedOf(alpha, lf, hf, lc, hc), head), ByPlacedBlend) ==
            Map(PlacedOf(alpha, lf, hf, lc, hc), o)
  {
    hide Sort, CombinedOf, ByCombined;
    var f := PlacedOf(alpha, lf, hf, lc, hc);
    var placed := Map(f, head);
    SortedMap(o, alpha, lf, hf, lc, hc);
    MapPermutation(f, o, head);
    assert TotalPreorder(ByPlacedBlend);
    SortSorted(placed, ByPlacedBlend);
    var sorted := Sort(placed, ByPlacedBlend);
    ElementsOfPermutation(sorted, placed);
    forall x, y | x in sorted && y in sorted && ByPlacedBlend(x, y) && ByPlacedBlend(y, x) ensures x == y {
      assert x in placed && y in placed;
    }
    SortedUnique(sorted, Map(f, o), ByPlacedBlend);
  }

  lemma SortedMap(o: seq<Slot>, alpha: real, lf: real, hf: real, lc: real, hc: real)
    requires Sorted(o, CombinedOrder(alpha, lf, hf, lc, hc))
    ensures Sorted(Map(PlacedOf(alpha, lf, hf, lc, hc), o), ByPlacedBlend)
  {
    hide CombinedOf;
    var placed, le := Map(PlacedOf(alpha, lf, hf, lc, hc), o), CombinedOrder(alpha, lf, hf, lc, hc);
    forall i, j | 0 <= i < j < |placed| ensures ByPlacedBlend(placed[i], placed[j]) {
      assert le(o[i], o[j]);
    }
  }

  lemma ShownPlaced(o: seq<Slot>, tail: seq<int>, k: nat, alpha: real, lf: real, hf: real, lc: real, hc: real)
    ensures ShownIs(Take(ScoredPlaced(Map(PlacedOf(alpha, lf, hf, lc, hc), o)) + Unscored(tail), k), o,
              (s: Slot) => CombinedOf(s, alpha, lf, hf, lc, hc), tail, k)
  {
    hide CombinedOf;
  }

  /**
    The interpolating rule: by the combined score, the highest first, and by fused place among equals; each with its
    combined score.
    */
  lemma InterpolatedIs(fused: seq<int>, fusedScores: seq<real>, scores: seq<Option<real>>, d: nat, k: nat, alpha: real,
                       lf: real, hf: real, lc: real, hc: real)
    returns (o: seq<Slot>, tail: seq<int>, at: seq<nat>)
    requires |fusedScores| == |fused| && Least(d, |fused|) <= |scores|
    requires var head := ScoredHead(fused, fusedScores, scores, d);
             head != [] ==> Range(FusedColumnOf(head), lf, hf) && Range(ScoreColumnOf(head), lc, hc)
    ensures var head := ScoredHead(fused, fusedScores, scores, d);
            multiset(o) == multiset(head) && LeftAt(fused, set s | s in head :: s.id, tail, at)
    ensures ShownIs(OrderInterpolated(fused, fusedScores, scores, d, k, alpha), o,
              (s: Slot) => CombinedOf(s, alpha, lf, hf, lc, hc), tail, k)
    ensures forall i, j | 0 <= i < j < |o| :: ByCombined(alpha, lf, hf, lc, hc, o[i], o[j])
  {
    hide Sort, ScoredHead, Drop, Range, Place, FusedColumnOf, ScoreColumnOf, ByCombined, ShownIs, Map,
      PlacedOf, Take, LeftAt, CombinedOf, ScoredPlaced, Unscored;
    var head := ScoredHead(fused, fusedScores, scores, d);
    tail := Drop(fused, SlotIds(head));
    at := DropIs(fused, SlotIds(head));
    var le := CombinedOrder(alpha, lf, hf, lc, hc);
    CombinedIsOrder(alpha, lf, hf, lc, hc);
    o := Sort(head, le);
    SortSorted(head, le);
    ScoredHeadMeaning(fused, fusedScores, scores, d);
    PlaceIs(head, alpha, lf, hf, lc, hc);
    PlacedSorted(head, o, alpha, lf, hf, lc, hc);
    ShownPlaced(o, tail, k, alpha, lf, hf, lc, hc);
    forall i, j | 0 <= i < j < |o| ensures ByCombined(alpha, lf, hf, lc, hc, o[i], o[j]) {
      assert le(o[i], o[j]);
    }
  }
}
