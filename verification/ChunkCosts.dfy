/**
  What passages cost: the bound and its exact exception, how full next-fit leaves them, and that no
  other grouping of the same units in the same order needs fewer passages.
  */
module ChunkCosts {
  import opened Utf8
  import opened ChunkSpec
  import opened ChunkTiling

  // ---------------------------------------------------------------- where splitting stops

  /** No character inside `s[a..b]` starts at or after half its bytes, so `fragments` cannot cut it. */
  predicate Stuck(s: string, a: nat, b: nat)
    requires a <= b <= |s|
  {
    forall m | a < m < b :: ByteAt(s, m) < HalfByte(s, a, b)
  }

  /** Exactly one character, or a last character at least two bytes wider than everything before it. */
  lemma StuckIff(s: string, a: nat, b: nat)
    requires a < b <= |s|
    ensures Stuck(s, a, b) <==> b - a == 1 || ByteAt(s, b - 1) - ByteAt(s, a) + 2 <= Width(s[b - 1])
    ensures Stuck(s, a, b) ==> ByteAt(s, b) - ByteAt(s, a) <= 6
  {
    hide Width;
    ByteAtStep(s, b - 1);
    ByteAtMonotone(s, a, b - 1);
    HalfByteIs(s, a, b);
    if b - a > 1 {
      forall m | a < m < b ensures ByteAt(s, m) <= ByteAt(s, b - 1) {
        ByteAtMonotone(s, m, b - 1);
      }
    }
  }

  lemma HalfByteIs(s: string, a: nat, b: nat)
    requires a <= b <= |s|
    ensures ByteAt(s, a) <= ByteAt(s, b)
    ensures var half := HalfByte(s, a, b) - ByteAt(s, a);
            2 * half <= ByteAt(s, b) - ByteAt(s, a) <= 2 * half + 1
  {
    ByteAtMonotone(s, a, b);
  }

  lemma StuckWhenNoSplit(s: string, a: nat, b: nat)
    requires a < b <= |s|
    requires var split := FirstFrom(s, a, b, HalfByte(s, a, b)); b - a <= 1 || split == a || split == b
    ensures Stuck(s, a, b)
  {
    hide FirstFrom, HalfByte;
    HalfByteIs(s, a, b);
    ByteAtMonotone(s, a, b);
  }

  /** Fragments fit or cannot be cut; a lone fragment is the word itself. */
  lemma {:induction false} FragmentsStop(s: string, a: nat, b: nat, budget: nat, cost: string -> nat)
    requires a < b <= |s|
    ensures SpansIn(s, Fragments(s, a, b, budget, cost))
    ensures forall i | 0 <= i < |Fragments(s, a, b, budget, cost)| ::
              var r := Fragments(s, a, b, budget, cost)[i];
              r.start < r.end && (cost(s[r.start..r.end]) <= budget || Stuck(s, r.start, r.end))
    ensures |Fragments(s, a, b, budget, cost)| == 1 ==> Fragments(s, a, b, budget, cost) == [Span(a, b)]
    decreases b - a
  {
    hide FirstFrom, HalfByte, Stuck, Fragments;
    FragmentsUnfold(s, a, b, budget, cost);
    FragmentsInside(s, a, b, budget, cost);
    var split := FirstFrom(s, a, b, HalfByte(s, a, b));
    if cost(s[a..b]) > budget {
      if b - a <= 1 || split == a || split == b {
        StuckWhenNoSplit(s, a, b);
      } else {
        FragmentsStop(s, a, split, budget, cost);
        FragmentsStop(s, split, b, budget, cost);
      }
    }
  }

  // ---------------------------------------------------------------- units

  /** A unit fits, or it is a run of non-whitespace that cannot be cut. */
  predicate Priced(s: string, u: Unit, budget: nat, cost: string -> nat)
    requires UnitIn(s, u)
  {
    cost(u.text) <= budget ||
      (u.start < u.end && NoWs(s, u.start, u.end) && Stuck(s, u.start, u.end) && u.text == s[u.start..u.end])
  }

  predicate AllPriced(s: string, us: seq<Unit>, budget: nat, cost: string -> nat)
    requires UnitsIn(s, us)
  {
    forall i | 0 <= i < |us| :: Priced(s, us[i], budget, cost)
  }

  lemma {:induction false} ExpandPriced(s: string, budget: nat, cost: string -> nat, u: Unit, level: Level)
    requires UnitIn(s, u) && FineOk(s, u, level)
    requires level == Fragment ==> Priced(s, u, budget, cost)
    ensures UnitsIn(s, Expand(s, budget, cost, u, level))
    ensures AllPriced(s, Expand(s, budget, cost, u, level), budget, cost)
    decreases Rank(level), 0
  {
    hide IsWs, CollapseTo, Expand, ExpandTo, FinerUnits, Clean, Stuck;
    ExpandInside(s, budget, cost, u, level);
    ExpandUnfold(s, budget, cost, u, level);
    if cost(u.text) > budget && level != Fragment {
      FineNonEmpty(s, u, level);
      FinerTile(s, budget, cost, u, level);
      var finer := FinerUnits(s, budget, cost, u, level);
      if level == Word {
        FinerPriced(s, budget, cost, u);
      }
      if !(level == Word && |finer| == 1) {
        ExpandToPriced(s, budget, cost, finer, Finer(level), |finer|);
      }
    }
  }

  lemma FinerPriced(s: string, budget: nat, cost: string -> nat, u: Unit)
    requires UnitIn(s, u) && FineOk(s, u, Word) && cost(u.text) > budget
    ensures AllPriced(s, FinerUnits(s, budget, cost, u, Word), budget, cost)
    ensures |FinerUnits(s, budget, cost, u, Word)| == 1 ==> Priced(s, u, budget, cost)
  {
    hide IsWs, CollapseTo, Fragments, Clean, Stuck;
    FineNonEmpty(s, u, Word);
    FragmentsStop(s, u.start, u.end, budget, cost);
    var spans := Fragments(s, u.start, u.end, budget, cost);
    var us := FinerUnits(s, budget, cost, u, Word);
    FinerTile(s, budget, cost, u, Word);
    assert |us| == |spans| && forall i | 0 <= i < |us| :: us[i].text == s[spans[i].start..spans[i].end];
    if |us| == 1 {
      assert spans[0] == Span(u.start, u.end);
    }
  }

  lemma {:induction false} ExpandToPriced(s: string, budget: nat, cost: string -> nat, us: seq<Unit>, level: Level,
                                          k: nat)
    requires k <= |us| && UnitsIn(s, us) && forall i | 0 <= i < |us| :: FineOk(s, us[i], level)
    requires level == Fragment ==> AllPriced(s, us, budget, cost)
    ensures UnitsIn(s, ExpandTo(s, budget, cost, us, level, k))
    ensures AllPriced(s, ExpandTo(s, budget, cost, us, level, k), budget, cost)
    decreases Rank(level), 1 + k
  {
    hide FineOk, Priced, Expand;
    if k > 0 {
      ExpandToPriced(s, budget, cost, us, level, k - 1);
      ExpandPriced(s, budget, cost, us[k - 1], level);
    }
  }

  lemma AllUnitsPriced(s: string, budget: nat, cost: string -> nat)
    ensures UnitsIn(s, AllUnits(s, budget, cost)) && AllPriced(s, AllUnits(s, budget, cost), budget, cost)
  {
    hide IsWs, CollapseTo, ParagraphsFrom, Tiles, Priced, ExpandTo, Clean;
    ParagraphsTile(s, 0, 0);
    var us := ParagraphUnits(s);
    forall i | 0 <= i < |us| ensures FineOk(s, us[i], Paragraph) {
      SliceUnitOk(s, Paragraphs(s)[i], Paragraph, true);
    }
    ExpandToPriced(s, budget, cost, us, Paragraph, |us|);
  }

  // ---------------------------------------------------------------- groups

  /** A group fits together, or is a single unit. */
  predicate Fits(g: seq<Unit>, budget: nat, cost: string -> nat) {
    g != [] && (Cost(g, cost) <= budget || |g| == 1)
  }

  predicate AllFit(gs: seq<seq<Unit>>, budget: nat, cost: string -> nat) {
    forall i | 0 <= i < |gs| :: Fits(gs[i], budget, cost)
  }

  /** The first unit of a group did not fit beside the group before it. */
  predicate Overfull(g: seq<Unit>, h: seq<Unit>, budget: nat, cost: string -> nat) {
    h != [] && Cost(g, cost) + cost(h[0].text) > budget
  }

  predicate AllOverfull(gs: seq<seq<Unit>>, budget: nat, cost: string -> nat) {
    forall i | 0 <= i < |gs| - 1 :: Overfull(gs[i], gs[i + 1], budget, cost)
  }

  function Closed(p: Packing): seq<seq<Unit>> {
    Close(p).closed
  }

  lemma CostSnoc(us: seq<Unit>, u: Unit, cost: string -> nat)
    ensures Cost(us + [u], cost) == Cost(us, cost) + cost(u.text)
  {
    assert (us + [u])[..|us|] == us;
  }

  lemma FeedFits(p: Packing, u: Unit, budget: nat, cost: string -> nat)
    requires p.open == [] ==> p.closed == []
    requires AllFit(Closed(p), budget, cost) && AllOverfull(Closed(p), budget, cost)
    ensures AllFit(Closed(Feed(p, u, budget, cost)), budget, cost)
    ensures AllOverfull(Closed(Feed(p, u, budget, cost)), budget, cost)
  {
    hide Cost;
    CostSnoc(p.open, u, cost);
    assert [] + [u] == [u];
    var before, after := Closed(p), Closed(Feed(p, u, budget, cost));
    if p.open == [] {
      assert after == [[u]];
    } else if Cost(p.open, cost) + cost(u.text) > budget {
      assert after == before + [[u]] && before[|before| - 1] == p.open;
    } else {
      assert before == p.closed + [p.open] && after == p.closed + [p.open + [u]];
      forall i | 0 <= i < |after| - 1 ensures Overfull(after[i], after[i + 1], budget, cost) {
        assert Overfull(before[i], before[i + 1], budget, cost);
      }
      assert Fits(p.open + [u], budget, cost);
      assert forall i | 0 <= i < |before| - 1 :: after[i] == before[i] && Fits(before[i], budget, cost);
    }
  }

  lemma {:induction false} FeedAllFits(us: seq<Unit>, budget: nat, cost: string -> nat)
    ensures AllFit(Closed(FeedAll(Packing([], []), us, budget, cost)), budget, cost)
    ensures AllOverfull(Closed(FeedAll(Packing([], []), us, budget, cost)), budget, cost)
    decreases |us|
  {
    hide Fits, Overfull, Feed;
    if us != [] {
      FeedAllFits(us[..|us| - 1], budget, cost);
      FeedAllKeepsUnits(us[..|us| - 1], budget, cost);
      var p := FeedAll(Packing([], []), us[..|us| - 1], budget, cost);
      if us[..|us| - 1] == [] {
        assert p == Packing([], []);
      }
      FeedFits(p, us[|us| - 1], budget, cost);
    }
  }

  lemma GroupsFit(s: string, budget: nat, cost: string -> nat)
    ensures AllFit(Groups(s, budget, cost), budget, cost) && AllOverfull(Groups(s, budget, cost), budget, cost)
  {
    hide AllUnits, FeedAll;
    FeedAllFits(AllUnits(s, budget, cost), budget, cost);
  }

  lemma {:induction false} FlattenPriced(s: string, gs: seq<seq<Unit>>, budget: nat, cost: string -> nat)
    requires UnitsIn(s, Flatten(gs)) && AllPriced(s, Flatten(gs), budget, cost)
    ensures forall i, j | 0 <= i < |gs| && 0 <= j < |gs[i]| :: UnitIn(s, gs[i][j]) && Priced(s, gs[i][j], budget, cost)
    decreases |gs|
  {
    hide Priced;
    if gs != [] {
      var init, g := gs[..|gs| - 1], gs[|gs| - 1];
      forall j | 0 <= j < |Flatten(init)|
        ensures UnitIn(s, Flatten(init)[j]) && Priced(s, Flatten(init)[j], budget, cost)
      {
        assert Flatten(init)[j] == Flatten(gs)[j];
      }
      FlattenPriced(s, init, budget, cost);
      forall j | 0 <= j < |g| ensures UnitIn(s, g[j]) && Priced(s, g[j], budget, cost) {
        assert g[j] == Flatten(gs)[|Flatten(init)| + j];
      }
    }
  }

  // ---------------------------------------------------------------- the cost bound

  /** A group over budget is one uncuttable run. */
  lemma DearGroup(s: string, g: seq<Unit>, budget: nat, cost: string -> nat)
    requires Fits(g, budget, cost) && Cost(g, cost) > budget
    requires forall j | 0 <= j < |g| :: UnitIn(s, g[j]) && Priced(s, g[j], budget, cost)
    ensures var p := PassageOf(g, cost);
            p.start < p.end <= |s| && NoWs(s, p.start, p.end) && p.text == s[p.start..p.end] &&
            p.cost == cost(p.text) &&
            Stuck(s, p.start, p.end) && ByteAt(s, p.end) - ByteAt(s, p.start) <= 6
  {
    hide IsWs, Stuck, HalfByte, ByteAt, Cost, Join, NoWs;
    OneUnit(g, cost);
    StuckIff(s, g[0].start, g[0].end);
  }

  /**
    A passage costs at most the budget, or it is one run of characters that `fragments` cannot cut,
    at most six bytes long.  The run may hold more than one character.
    */
  lemma PassagesWithinBudget(s: string, budget: nat, cost: string -> nat)
    ensures forall p | p in Chunk(s, budget, cost) ::
              p.cost <= budget ||
              (p.start < p.end <= |s| && NoWs(s, p.start, p.end) && p.text == s[p.start..p.end] &&
                p.cost == cost(p.text) &&
               Stuck(s, p.start, p.end) && ByteAt(s, p.end) - ByteAt(s, p.start) <= 6)
  {
    hide IsWs, FeedAll, AllUnits, Stuck, Groups, ByteAt, NoWs, Priced, Cost, Join, Fits;
    GroupsFit(s, budget, cost);
    GroupsKeepUnits(s, budget, cost);
    AllUnitsPriced(s, budget, cost);
    var gs := Groups(s, budget, cost);
    FlattenPriced(s, gs, budget, cost);
    forall p | p in Chunk(s, budget, cost) && p.cost > budget
      ensures p.start < p.end <= |s| && NoWs(s, p.start, p.end) && p.text == s[p.start..p.end] && p.cost == cost(p.text)
      ensures Stuck(s, p.start, p.end) && ByteAt(s, p.end) - ByteAt(s, p.start) <= 6
    {
      var i :| 0 <= i < |gs| && p == PassageOf(gs[i], cost);
      DearGroup(s, gs[i], budget, cost);
    }
  }

  lemma OneUnit(g: seq<Unit>, cost: string -> nat)
    requires |g| == 1
    ensures Cost(g, cost) == cost(g[0].text) && Join(g) == g[0].text
  {
    assert g[..0] == [];
    assert "" + g[0].text == g[0].text;
  }

  /** If every run of at most six bytes fits, every passage does. */
  lemma ShortRunsFit(s: string, budget: nat, cost: string -> nat)
    requires forall a, b | 0 <= a < b <= |s| && ByteAt(s, b) - ByteAt(s, a) <= 6 :: cost(s[a..b]) <= budget
    ensures forall p | p in Chunk(s, budget, cost) :: p.cost <= budget
  {
    hide Chunk, Stuck, ByteAt;
    PassagesWithinBudget(s, budget, cost);
  }

  lemma {:induction false} OneParagraph(s: string, i: nat)
    requires i <= |s| && s != "" && !IsWs(s[0]) && !IsWs(s[|s| - 1])
    requires forall k | 0 <= k < |s| :: !BlankLineAt(s, k)
    ensures ParagraphsFrom(s, 0, i) == [Span(0, |s|)]
    decreases |s| - i
  {
    hide IsWs, BlankLineAt;
    if i < |s| {
      OneParagraph(s, i + 1);
    }
  }

  lemma {:induction false} OneSentence(s: string, i: nat)
    requires i <= |s| && s != "" && NoWs(s, 0, |s|)
    ensures SentencesFrom(s, |s|, 0, i) == [Span(0, |s|)]
    decreases |s| - i
  {
    hide IsWs;
    if i < |s| {
      OneSentence(s, i + 1);
    }
  }

  lemma {:induction false} RunEndAll(s: string, i: nat)
    requires i <= |s| && NoWs(s, i, |s|)
    ensures RunEnd(s, i, |s|) == |s|
    decreases |s| - i
  {
    hide IsWs;
    if i < |s| {
      RunEndAll(s, i + 1);
    }
  }

  lemma OneWord(s: string)
    requires s != "" && NoWs(s, 0, |s|)
    ensures Words(s, 0, |s|) == [Span(0, |s|)]
  {
    hide IsWs, RunEnd;
    RunEndAll(s, 0);
    assert Words(s, |s|, |s|) == [];
  }

  lemma StuckFragments(s: string, a: nat, b: nat, budget: nat, cost: string -> nat)
    requires a < b <= |s| && Stuck(s, a, b)
    ensures Fragments(s, a, b, budget, cost) == [Span(a, b)]
  {
    hide FirstFrom, HalfByte, Fragments;
    FragmentsUnfold(s, a, b, budget, cost);
  }

  lemma NoBlankLine(s: string)
    requires NoWs(s, 0, |s|)
    ensures forall k | 0 <= k < |s| :: !BlankLineAt(s, k)
  {
    hide SkipInner;
  }

  /**
    Every dear body that is one such run is emitted whole, over budget.  The run need not be one
    character: "a" followed by a three-byte character is one.
    */
  lemma StuckWordOverflows(s: string, budget: nat, cost: string -> nat)
    requires s != "" && NoWs(s, 0, |s|) && Stuck(s, 0, |s|) && 0 < budget < cost(s)
    ensures Chunk(s, budget, cost) == [Passage(s, 0, |s|, cost(s))]
    ensures Stuck("a\U{20AC}", 0, 2) && NoWs("a\U{20AC}", 0, 2)
  {
    hide IsWs, CollapseTo, Words, Stuck, AllUnits, Groups, SliceText, NoWs;
    assert s[0..|s|] == s;
    CollapseNoWs(s);
    var u := Unit(s, 0, |s|, true);
    StuckUnits(s, budget, cost);
    OneGroup(s, budget, cost, u);
    OneUnit([u], cost);
    assert Chunk(s, budget, cost) == [PassageOf([u], cost)];
    NarrowBeforeWide();
  }

  lemma StuckUnits(s: string, budget: nat, cost: string -> nat)
    requires s != "" && NoWs(s, 0, |s|) && Stuck(s, 0, |s|) && Collapse(s) == s
    ensures AllUnits(s, budget, cost) == [Unit(s, 0, |s|, true)]
  {
    hide IsWs, CollapseTo, ParagraphsFrom, SentencesFrom, Words, Fragments, Stuck, Expand, ExpandTo, SliceText;
    assert s[0..|s|] == s;
    NoBlankLine(s);
    OneParagraph(s, 0);
    OneSentence(s, 0);
    OneWord(s);
    StuckFragments(s, 0, |s|, budget, cost);
    var u := Unit(s, 0, |s|, true);
    assert ParagraphUnits(s) == [u];
    WholeFiner(s, budget, cost, u);
    ExpandUnfold(s, budget, cost, u, Word);
    ExpandUnfold(s, budget, cost, u, Sentence);
    ExpandOne(s, budget, cost, u, Word);
    ExpandUnfold(s, budget, cost, u, Paragraph);
    ExpandOne(s, budget, cost, u, Sentence);
    ExpandOne(s, budget, cost, u, Paragraph);
  }

  lemma NarrowBeforeWide()
    ensures Stuck("a\U{20AC}", 0, 2) && NoWs("a\U{20AC}", 0, 2)
  {
    var s := "a\U{20AC}";
    StuckIff(s, 0, 2);
    assert ByteAt(s, 1) == 1;
  }

  /** No passage of any body is over budget, but for those of at most `n` characters. */
  ghost predicate BoundedBeyond(n: nat, budget: nat, cost: string -> nat) {
    forall s, p | p in Chunk(s, budget, cost) :: p.cost <= budget || p.end - p.start <= n
  }

  /** A text `fragments` cannot cut, without whitespace. */
  predicate Uncuttable(t: string) {
    t != "" && NoWs(t, 0, |t|) && Stuck(t, 0, |t|)
  }

  /** Every uncuttable text of more than `n` characters fits. */
  ghost predicate UncuttableFits(n: nat, budget: nat, cost: string -> nat) {
    forall t: string | |t| > n && Uncuttable(t) :: cost(t) <= budget
  }

  /**
    The exception is exact.  For `n` = 1 this says when the documented bound holds, by which only a
    one-character fragment exceeds the budget; for `n` = 0 when no passage ever does.
    */
  lemma BoundIff(n: nat, budget: nat, cost: string -> nat)
    requires budget > 0
    ensures BoundedBeyond(n, budget, cost) <==> UncuttableFits(n, budget, cost)
  {
    if UncuttableFits(n, budget, cost) {
      FittingRunsBound(n, budget, cost);
    }
    if BoundedBeyond(n, budget, cost) {
      BoundFitsRuns(n, budget, cost);
    }
  }

  lemma FittingRunsBound(n: nat, budget: nat, cost: string -> nat)
    requires UncuttableFits(n, budget, cost)
    ensures BoundedBeyond(n, budget, cost)
  {
    hide Chunk, Stuck, NoWs, ByteAt, Uncuttable;
    forall s, p | p in Chunk(s, budget, cost) && p.cost > budget ensures p.end - p.start <= n {
      PassagesWithinBudget(s, budget, cost);
      RunIsUncuttable(s, p.start, p.end);
    }
  }

  lemma BoundFitsRuns(n: nat, budget: nat, cost: string -> nat)
    requires budget > 0 && BoundedBeyond(n, budget, cost)
    ensures UncuttableFits(n, budget, cost)
  {
    hide Chunk, Stuck, NoWs;
    forall t: string | |t| > n && Uncuttable(t) ensures cost(t) <= budget {
      if cost(t) > budget {
        DearRun(t, budget, cost);
      }
    }
  }

  lemma DearRun(t: string, budget: nat, cost: string -> nat)
    requires 0 < budget < cost(t) && Uncuttable(t)
    ensures Passage(t, 0, |t|, cost(t)) in Chunk(t, budget, cost)
  {
    hide Chunk, Stuck, NoWs;
    StuckWordOverflows(t, budget, cost);
  }

  /** Whether a run can be cut shows in the run alone. */
  lemma RunIsUncuttable(s: string, a: nat, b: nat)
    requires a < b <= |s| && NoWs(s, a, b) && Stuck(s, a, b)
    ensures Uncuttable(s[a..b])
  {
    hide Stuck, ByteAt, IsWs, Width, HalfByte;
    var t := s[a..b];
    var n := b - a;
    StuckIff(s, a, b);
    StuckIff(t, 0, n);
    ByteAtZero(t);
    OffsetInSlice(s, a, b, b - 1);
    assert t[n - 1] == s[b - 1];
  }

  lemma WholeFiner(s: string, budget: nat, cost: string -> nat, u: Unit)
    requires s != "" && u == Unit(s, 0, |s|, true) && Collapse(s) == s
    requires SentencesFrom(s, |s|, 0, 0) == Words(s, 0, |s|) == Fragments(s, 0, |s|, budget, cost) == [Span(0, |s|)]
    ensures forall level | level != Fragment :: FinerUnits(s, budget, cost, u, level) == [u]
  {
    hide CollapseTo, SentencesFrom, Words, Fragments;
    assert s[0..|s|] == s;
    forall level | level != Fragment ensures FinerUnits(s, budget, cost, u, level) == [u] {
      assert FinerSpans(s, budget, cost, u, level) == [Span(0, |s|)];
    }
  }

  lemma ExpandOne(s: string, budget: nat, cost: string -> nat, u: Unit, level: Level)
    requires UnitIn(s, u)
    ensures ExpandTo(s, budget, cost, [u], level, 1) == Expand(s, budget, cost, u, level)
  {
    hide Expand;
  }

  lemma OneGroup(s: string, budget: nat, cost: string -> nat, u: Unit)
    requires AllUnits(s, budget, cost) == [u]
    ensures Groups(s, budget, cost) == [[u]]
  {
    hide AllUnits;
    FeedAllOne(Packing([], []), u, budget, cost);
    assert [] + [u] == [u];
  }

  // ---------------------------------------------------------------- how full the passages are

  function TotalCost(ps: seq<Passage>): nat {
    if ps == [] then 0 else TotalCost(ps[..|ps| - 1]) + ps[|ps| - 1].cost
  }

  lemma {:induction false} CostConcat(a: seq<Unit>, b: seq<Unit>, cost: string -> nat)
    ensures Cost(a + b, cost) == Cost(a, cost) + Cost(b, cost)
    decreases |b|
  {
    if b == [] {
      assert a + b == a;
    } else {
      assert (a + b)[..|a + b| - 1] == a + b[..|b| - 1];
      CostConcat(a, b[..|b| - 1], cost);
    }
  }

  lemma CostOfFirst(g: seq<Unit>, cost: string -> nat)
    requires g != []
    ensures Cost(g, cost) >= cost(g[0].text)
  {
    CostConcat([g[0]], g[1..], cost);
    assert [g[0]] + g[1..] == g && [g[0]][..0] == [];
  }

  lemma {:induction false} TotalCostGroups(gs: seq<seq<Unit>>, cost: string -> nat)
    requires NonEmptyGroups(gs)
    ensures TotalCost(PassagesOf(gs, cost)) == Cost(Flatten(gs), cost)
    decreases |gs|
  {
    hide Cost, Join;
    if gs == [] {
      assert Flatten(gs) == [] && Cost([], cost) == 0 by { CostNone(cost); }
    } else {
      var init := gs[..|gs| - 1];
      TotalCostGroups(init, cost);
      CostConcat(Flatten(init), gs[|gs| - 1], cost);
      assert PassagesOf(gs, cost)[..|gs| - 1] == PassagesOf(init, cost);
    }
  }

  lemma CostNone(cost: string -> nat)
    ensures Cost([], cost) == 0
  {
  }

  /** Nothing is priced twice or left out: the passages' costs add up to the units'. */
  lemma CostsAddUp(s: string, budget: nat, cost: string -> nat)
    requires budget > 0
    ensures TotalCost(Chunk(s, budget, cost)) == Cost(AllUnits(s, budget, cost), cost)
  {
    hide AllUnits, Cost, FeedAll, Groups;
    if s == "" {
      EmptyBody(budget, cost);
      CostNone(cost);
    } else {
      TotalCostGroups(Groups(s, budget, cost), cost);
      GroupsKeepUnits(s, budget, cost);
    }
  }

  lemma EmptyBody(budget: nat, cost: string -> nat)
    ensures AllUnits("", budget, cost) == []
  {
    assert Trimmed("", 0, 0) == [];
    assert ParagraphUnits("") == [];
  }

  /** Two neighbouring passages together cost more than the budget. */
  lemma NeighboursOverflow(s: string, budget: nat, cost: string -> nat)
    ensures var ps := Chunk(s, budget, cost);
            forall i | 0 <= i < |ps| - 1 :: ps[i].cost + ps[i + 1].cost > budget
  {
    hide AllUnits, Cost, FeedAll, Groups, Join;
    GroupsFit(s, budget, cost);
    var ps, gs := Chunk(s, budget, cost), Groups(s, budget, cost);
    forall i | 0 <= i < |ps| - 1 ensures ps[i].cost + ps[i + 1].cost > budget {
      assert Overfull(gs[i], gs[i + 1], budget, cost);
      CostOfFirst(gs[i + 1], cost);
    }
  }

  lemma {:induction false} PairsOverflow(ps: seq<Passage>, budget: nat)
    requires forall i | 0 <= i < |ps| - 1 :: ps[i].cost + ps[i + 1].cost > budget
    ensures |ps| >= 2 ==> budget * (|ps| / 2) < TotalCost(ps)
    decreases |ps|
  {
    if |ps| >= 2 {
      var init := ps[..|ps| - 2];
      assert ps[..|ps| - 1][..|ps| - 2] == init;
      forall i | 0 <= i < |init| - 1 ensures init[i].cost + init[i + 1].cost > budget {
        assert ps[i].cost + ps[i + 1].cost > budget;
      }
      PairsOverflow(init, budget);
      assert TotalCost(ps) == TotalCost(init) + ps[|ps| - 2].cost + ps[|ps| - 1].cost;
      assert ps[|ps| - 2].cost + ps[|ps| - 1].cost > budget;
      assert |ps| / 2 == |init| / 2 + 1;
      Distribute(budget, |init| / 2);
      if |init| < 2 {
        assert |init| / 2 == 0;
      }
    }
  }

  lemma Distribute(x: nat, y: nat)
    ensures x * (y + 1) == x * y + x && x * 0 == 0
  {
  }

  /** At least two passages: half of them, rounded down, could be filled to the budget. */
  lemma HalfFull(s: string, budget: nat, cost: string -> nat)
    requires budget > 0
    ensures var k := |Chunk(s, budget, cost)|;
            k >= 2 ==> budget * (k / 2) < Cost(AllUnits(s, budget, cost), cost)
  {
    hide Chunk, AllUnits, Cost;
    NeighboursOverflow(s, budget, cost);
    PairsOverflow(Chunk(s, budget, cost), budget);
    CostsAddUp(s, budget, cost);
  }

  // ---------------------------------------------------------------- no grouping needs fewer passages

  /** Feeding units that fit together closes at most one more passage. */
  lemma {:induction false} FeedGroup(p: Packing, h: seq<Unit>, k: nat, budget: nat, cost: string -> nat)
    requires k <= |h| && Fits(h, budget, cost)
    ensures var q := FeedAll(p, h[..k], budget, cost);
            |q.closed| == |p.closed| ||
            (|q.closed| == |p.closed| + 1 && p.open != [] && q.open != [] && Cost(q.open, cost) <= Cost(h[..k], cost))
    ensures k > 0 ==> FeedAll(p, h[..k], budget, cost).open != []
    ensures k == 0 ==> FeedAll(p, h[..k], budget, cost) == p
    ensures p.open == [] ==> Cost(FeedAll(p, h[..k], budget, cost).open, cost) <= Cost(h[..k], cost)
    decreases k
  {
    hide Cost, Fits;
    CostNone(cost);
    if k == 0 {
      assert h[..k] == [];
    } else {
      var u := h[k - 1];
      assert h[..k] == h[..k - 1] + [u];
      FeedGroup(p, h, k - 1, budget, cost);
      var r := FeedAll(p, h[..k - 1], budget, cost);
      FeedAllSnoc(p, h[..k - 1], u, budget, cost);
      CostSnoc(r.open, u, cost);
      CostSnoc([], u, cost);
      assert [] + [u] == [u];
      CostSnoc(h[..k - 1], u, cost);
      PrefixFits(h, k, budget, cost);
    }
  }

  lemma PrefixFits(h: seq<Unit>, k: nat, budget: nat, cost: string -> nat)
    requires k <= |h| && Fits(h, budget, cost)
    ensures k > 1 ==> Cost(h[..k], cost) <= budget
  {
    CostConcat(h[..k], h[k..], cost);
    assert h[..k] + h[k..] == h;
  }

  function PassageCount(p: Packing): nat {
    |p.closed| + if p.open == [] then 0 else 1
  }

  lemma {:induction false} FewestGroups(hs: seq<seq<Unit>>, budget: nat, cost: string -> nat)
    requires AllFit(hs, budget, cost)
    ensures PassageCount(FeedAll(Packing([], []), Flatten(hs), budget, cost)) <= |hs|
    decreases |hs|
  {
    hide Fits, Cost, Feed;
    if hs != [] {
      var init, h := hs[..|hs| - 1], hs[|hs| - 1];
      FewestGroups(init, budget, cost);
      FeedAllConcat(Packing([], []), Flatten(init), h, budget, cost);
      FeedGroup(FeedAll(Packing([], []), Flatten(init), budget, cost), h, |h|, budget, cost);
      assert h[..|h|] == h;
    }
  }

  /** Any grouping of the same units, in order, into groups that fit has at least as many groups. */
  lemma FewestPassages(s: string, budget: nat, cost: string -> nat, hs: seq<seq<Unit>>)
    requires Flatten(hs) == AllUnits(s, budget, cost) && AllFit(hs, budget, cost)
    ensures |Chunk(s, budget, cost)| <= |hs|
  {
    hide AllUnits, Flatten, FeedAll, AllFit;
    FewestGroups(hs, budget, cost);
  }
}
