/**
  Chunking that never cuts a word: passage texts are then exactly the collapsed slices, word counts
  add up, and chunking a passage's text again gives that passage back.
  */
module ChunkWords {
  import opened Utf8
  import opened ChunkSpec
  import opened ChunkTiling
  import opened ChunkCosts

  // ---------------------------------------------------------------- slices that cut no word

  predicate LeftEdge(s: string, a: nat)
    requires a <= |s|
  {
    a == 0 || IsWs(s[a - 1])
  }

  predicate RightEdge(s: string, b: nat)
    requires b <= |s|
  {
    b == |s| || IsWs(s[b])
  }

  predicate Flush(s: string, r: Span) {
    r.start < r.end <= |s| && LeftEdge(s, r.start) && RightEdge(s, r.end)
  }

  predicate AllFlush(s: string, rs: seq<Span>) {
    forall i | 0 <= i < |rs| :: Flush(s, rs[i])
  }

  /** Every word of the body, a maximal run of non-whitespace, fits the budget. */
  ghost predicate WordsFit(s: string, budget: nat, cost: string -> nat) {
    forall a, b | 0 <= a < b <= |s| && NoWs(s, a, b) && LeftEdge(s, a) && RightEdge(s, b) :: cost(s[a..b]) <= budget
  }

  lemma TrimmedFlush(s: string, a: nat, b: nat)
    requires a <= b <= |s| && RightEdge(s, b)
    requires LeftEdge(s, a) || (a < b && IsWs(s[a]))
    ensures AllFlush(s, Trimmed(s, a, b))
  {
    hide IsWs, TrimStart, TrimEnd;
    var x := TrimStart(s, a, b);
    var y := TrimEnd(s, x, b);
    assert x > a ==> IsWs(s[x - 1]);
    assert y < b ==> IsWs(s[y]);
  }

  lemma {:induction false} ParagraphsFlush(s: string, start: nat, i: nat)
    requires start <= i <= |s| && LeftEdge(s, start)
    ensures AllFlush(s, ParagraphsFrom(s, start, i))
    decreases |s| - i
  {
    hide IsWs, Trimmed, Flush, SkipInner;
    if i == |s| {
      TrimmedFlush(s, start, i);
    } else if BlankLineAt(s, i) {
      BlankLineIsWs(s, i);
      TrimmedFlush(s, start, i);
      ParagraphsFlush(s, SkipInner(s, i + 1) + 1, SkipInner(s, i + 1) + 1);
    } else {
      ParagraphsFlush(s, start, i + 1);
    }
  }

  lemma {:induction false} SentencesFlush(s: string, b: nat, from: nat, i: nat)
    requires from <= i <= b <= |s| && RightEdge(s, b)
    requires LeftEdge(s, from) || (from < b && IsWs(s[from]))
    ensures AllFlush(s, SentencesFrom(s, b, from, i))
    decreases b - i
  {
    hide IsWs, Trimmed, Flush, IsTerminator;
    if i == b {
      TrimmedFlush(s, from, b);
    } else if SentenceEndsAt(s, b, i) {
      TrimmedFlush2(s, from, i + 1);
      SentencesFlush(s, b, i + 1, i + 1);
    } else {
      SentencesFlush(s, b, from, i + 1);
    }
  }

  lemma TrimmedFlush2(s: string, a: nat, b: nat)
    requires a < b < |s| && RightEdge(s, b)
    requires LeftEdge(s, a) || IsWs(s[a])
    ensures AllFlush(s, Trimmed(s, a, b))
  {
    hide IsWs, Trimmed, Flush;
    TrimmedFlush(s, a, b);
  }

  lemma {:induction false} WordsFlush(s: string, i: nat, b: nat)
    requires i <= b <= |s| && RightEdge(s, b) && (LeftEdge(s, i) || i == b || IsWs(s[i]))
    ensures AllFlush(s, Words(s, i, b))
    decreases b - i
  {
    hide IsWs, TrimStart, RunEnd;
    var x := TrimStart(s, i, b);
    if x < b {
      assert x > i ==> IsWs(s[x - 1]);
      WordsFlush(s, RunEnd(s, x, b), b);
    }
  }

  predicate UnitsFlush(s: string, us: seq<Unit>) {
    AllFlush(s, SpansOf(us))
  }

  lemma {:induction false} ExpandFlush(s: string, budget: nat, cost: string -> nat, u: Unit, level: Level)
    requires WordsFit(s, budget, cost) && FineOk(s, u, level) && level != Fragment && Flush(s, SpanOf(u)) &&
             UnitIn(s, u)
    ensures UnitsFlush(s, Expand(s, budget, cost, u, level))
    decreases Rank(level), 0
  {
    hide IsWs, CollapseTo, Expand, ExpandTo, FinerUnits, Clean, LeftEdge, RightEdge, Words, SentencesFrom, WordsFit;
    ExpandUnfold(s, budget, cost, u, level);
    if cost(u.text) > budget {
      if level == Word {
        WordFits(s, budget, cost, u);
      } else {
        FinerTile(s, budget, cost, u, level);
        FinerFlush(s, budget, cost, u, level);
        var finer := FinerUnits(s, budget, cost, u, level);
        ExpandToFlush(s, budget, cost, finer, Finer(level), |finer|);
      }
    }
  }

  lemma WordFits(s: string, budget: nat, cost: string -> nat, u: Unit)
    requires WordsFit(s, budget, cost) && FineOk(s, u, Word) && Flush(s, SpanOf(u))
    ensures cost(u.text) <= budget
  {
    hide IsWs, CollapseTo;
  }

  lemma FinerFlush(s: string, budget: nat, cost: string -> nat, u: Unit, level: Level)
    requires (level == Paragraph || level == Sentence) && UnitIn(s, u) && Flush(s, SpanOf(u))
    ensures UnitsFlush(s, FinerUnits(s, budget, cost, u, level))
  {
    hide IsWs, Words, SentencesFrom, SliceText;
    var spans := FinerSpans(s, budget, cost, u, level);
    if level == Paragraph {
      SentencesFlush(s, u.end, u.start, u.start);
    } else {
      WordsFlush(s, u.start, u.end);
    }
    assert SpansOf(FinerUnits(s, budget, cost, u, level)) == spans;
  }

  lemma {:induction false} ExpandToFlush(s: string, budget: nat, cost: string -> nat, us: seq<Unit>, level: Level,
                                         k: nat)
    requires WordsFit(s, budget, cost) && level != Fragment && UnitsIn(s, us) && UnitsFlush(s, us)
    requires k <= |us| && forall i | 0 <= i < |us| :: FineOk(s, us[i], level)
    ensures UnitsFlush(s, ExpandTo(s, budget, cost, us, level, k))
    decreases Rank(level), 1 + k
  {
    hide FineOk, Flush, Expand, WordsFit;
    if k > 0 {
      ExpandToFlush(s, budget, cost, us, level, k - 1);
      assert SpansOf(us)[k - 1] == SpanOf(us[k - 1]);
      ExpandFlush(s, budget, cost, us[k - 1], level);
      SpansOfConcat(ExpandTo(s, budget, cost, us, level, k - 1), Expand(s, budget, cost, us[k - 1], level));
    }
  }

  lemma AllUnitsFlush(s: string, budget: nat, cost: string -> nat)
    requires WordsFit(s, budget, cost)
    ensures UnitsFlush(s, AllUnits(s, budget, cost))
  {
    hide IsWs, CollapseTo, ParagraphsFrom, Tiles, ExpandTo, Clean, Flush, WordsFit;
    ParagraphsTile(s, 0, 0);
    var us := ParagraphUnits(s);
    forall i | 0 <= i < |us| ensures FineOk(s, us[i], Paragraph) {
      SliceUnitOk(s, Paragraphs(s)[i], Paragraph, true);
    }
    ParagraphsFlush(s, 0, 0);
    assert SpansOf(us) == Paragraphs(s);
    ExpandToFlush(s, budget, cost, us, Paragraph, |us|);
  }

  lemma {:induction false} FlattenFlush(s: string, gs: seq<seq<Unit>>)
    requires UnitsFlush(s, Flatten(gs))
    ensures forall i | 0 <= i < |gs| :: UnitsFlush(s, gs[i])
    decreases |gs|
  {
    hide Flush;
    if gs != [] {
      var init, g := gs[..|gs| - 1], gs[|gs| - 1];
      SpansOfConcat(Flatten(init), g);
      var a, b := SpansOf(Flatten(init)), SpansOf(g);
      forall j | 0 <= j < |a| ensures Flush(s, a[j]) {
        assert (a + b)[j] == a[j];
      }
      forall j | 0 <= j < |b| ensures Flush(s, b[j]) {
        assert (a + b)[|a| + j] == b[j];
      }
      FlattenFlush(s, init);
    }
  }

  // ---------------------------------------------------------------- tidy texts

  /** Non-empty, whitespace only single and inside, and only spaces and line feeds. */
  predicate Tidy(t: string) {
    && t != ""
    && !IsWs(t[0])
    && !IsWs(t[|t| - 1])
    && (forall i | 0 <= i < |t| && IsWs(t[i]) :: t[i] == ' ' || t[i] == '\n')
    && (forall i | 0 <= i < |t| - 1 && IsWs(t[i]) :: !IsWs(t[i + 1]))
  }

  /** `t` with its line feeds replaced by spaces. */
  function Flat(t: string): (r: string)
    ensures |r| == |t|
  {
    if t == "" then "" else Flat(t[..|t| - 1]) + [if t[|t| - 1] == '\n' then ' ' else t[|t| - 1]]
  }

  lemma {:induction false} FlatConcat(a: string, b: string)
    ensures Flat(a + b) == Flat(a) + Flat(b)
    decreases |b|
  {
    if b == "" {
      assert a + b == a;
    } else {
      assert (a + b)[..|a + b| - 1] == a + b[..|b| - 1];
      FlatConcat(a, b[..|b| - 1]);
    }
  }

  lemma {:induction false} CollapsedPrefix(t: string, k: nat)
    requires k <= |t|
    ensures var c := CollapseTo(t, k);
            && (k > 0 <==> c != "")
            && (k > 0 ==> (IsWs(c[0]) <==> IsWs(t[0])) && (IsWs(c[|c| - 1]) <==> IsWs(t[k - 1])))
            && (forall i | 0 <= i < |c| && IsWs(c[i]) :: c[i] == ' ')
            && (forall i | 0 <= i < |c| - 1 && IsWs(c[i]) :: !IsWs(c[i + 1]))
    decreases k
  {
    hide IsWs;
    SpaceIsWs();
    if k > 0 {
      CollapsedPrefix(t, k - 1);
    }
  }

  lemma {:induction false} NoLineFeedFlat(t: string)
    requires forall i | 0 <= i < |t| :: t[i] != '\n'
    ensures Flat(t) == t
    decreases |t|
  {
    if t != "" {
      NoLineFeedFlat(t[..|t| - 1]);
    }
  }

  lemma UnitTidy(s: string, u: Unit)
    requires UnitOk(s, u)
    ensures Tidy(u.text) && Flat(u.text) == u.text
  {
    hide IsWs, CollapseTo;
    SpaceIsWs();
    var slice := s[u.start..u.end];
    CollapsedPrefix(slice, |slice|);
    assert slice[|slice| - 1] == s[u.end - 1];
    NoLineFeedFlat(u.text);
  }

  lemma {:induction false} JoinTidy(s: string, g: seq<Unit>)
    requires UnitsOk(s, g) && g != []
    ensures Tidy(Join(g))
    decreases |g|
  {
    hide IsWs, UnitOk;
    var init, u := g[..|g| - 1], g[|g| - 1];
    UnitTidy(s, u);
    assert "" + u.text == u.text;
    if init != [] {
      JoinTidy(s, init);
      TidyJoin(Join(init), u.startsParagraph, u.text);
    }
  }

  lemma TidyJoin(a: string, newline: bool, b: string)
    requires Tidy(a) && Tidy(b)
    ensures Tidy(a + (if newline then "\n" else " ") + b)
  {
    hide IsWs;
    SpaceIsWs();
    var t := a + (if newline then "\n" else " ") + b;
    forall i | 0 <= i < |t| && IsWs(t[i]) ensures (t[i] == ' ' || t[i] == '\n') && (i < |t| - 1 ==> !IsWs(t[i + 1])) {
      if i < |a| {
        assert t[i] == a[i] && (i < |a| - 1 ==> t[i + 1] == a[i + 1]);
      } else if i > |a| {
        assert t[i] == b[i - |a| - 1] && (i < |t| - 1 ==> t[i + 1] == b[i - |a|]);
      } else {
        assert t[i + 1] == b[0];
      }
    }
  }

  /** A tidy text collapses to itself, its line feeds turned to spaces. */
  lemma {:induction false} TidyCollapse(t: string, k: nat)
    requires k <= |t| && Tidy(t)
    ensures CollapseTo(t, k) == Flat(t[..k])
    decreases k
  {
    hide IsWs;
    SpaceIsWs();
    if k > 0 {
      TidyCollapse(t, k - 1);
      assert t[..k][..k - 1] == t[..k - 1];
    }
  }

  lemma TidyNoBlankLine(t: string)
    requires Tidy(t)
    ensures forall k | 0 <= k < |t| :: !BlankLineAt(t, k)
  {
    hide IsWs;
    SpaceIsWs();
    forall k | 0 <= k < |t| ensures !BlankLineAt(t, k) {
      if t[k] == '\n' && k + 1 < |t| {
        InnerIsWs(t[k + 1]);
        assert SkipInner(t, k + 1) == k + 1;
      }
    }
  }

  lemma InnerIsWs(c: char)
    ensures IsBlankLineInner(c) ==> IsWs(c)
  {
  }

  /** Chunking a passage's text again, when it fits whole, gives one passage: the text, its line feeds now spaces. */
  lemma RechunkPassage(s: string, budget: nat, cost: string -> nat, p: Passage)
    requires p in Chunk(s, budget, cost) && cost(Flat(p.text)) <= budget
    ensures Chunk(p.text, budget, cost) == [Passage(Flat(p.text), 0, |p.text|, cost(Flat(p.text)))]
  {
    hide Tiles, Groups, Flat, Join, Tidy, Cost, UnitsOk;
    var i := GroupOfPassage(s, budget, cost, p);
    JoinTidy(s, Groups(s, budget, cost)[i]);
    ChunkTidy(p.text, budget, cost);
  }

  lemma ChunkTidy(t: string, budget: nat, cost: string -> nat)
    requires Tidy(t) && budget > 0 && cost(Flat(t)) <= budget
    ensures Chunk(t, budget, cost) == [Passage(Flat(t), 0, |t|, cost(Flat(t)))]
  {
    hide IsWs, AllUnits, Groups, Flat, Join;
    var u := Unit(Flat(t), 0, |t|, true);
    TidyUnits(t, budget, cost);
    OneGroup(t, budget, cost, u);
    OneUnit([u], cost);
    assert Chunk(t, budget, cost) == [PassageOf([u], cost)];
  }

  lemma TidyUnits(t: string, budget: nat, cost: string -> nat)
    requires Tidy(t) && cost(Flat(t)) <= budget
    ensures AllUnits(t, budget, cost) == [Unit(Flat(t), 0, |t|, true)]
  {
    hide IsWs, CollapseTo, ParagraphsFrom, Expand, ExpandTo, Flat, BlankLineAt;
    TidyNoBlankLine(t);
    OneParagraph(t, 0);
    TidyCollapse(t, |t|);
    assert t[0..|t|] == t && t[..|t|] == t;
    var u := Unit(Flat(t), 0, |t|, true);
    assert ParagraphUnits(t) == [u];
    ExpandUnfold(t, budget, cost, u, Paragraph);
    ExpandOne(t, budget, cost, u, Paragraph);
  }

  // ---------------------------------------------------------------- exact texts

  lemma {:induction false} AllWsCollapse(w: string)
    requires w != "" && AllWs(w, 0, |w|)
    ensures Collapse(w) == " "
    decreases |w|
  {
    hide IsWs, CollapseTo;
    var init, c := w[..|w| - 1], w[|w| - 1];
    assert w == init + [c];
    CollapseSnoc(init, c);
    CollapseNothing();
    if init != "" {
      AllWsCollapse(init);
    }
  }

  lemma CollapseAcrossGap(s: string, a: nat, x: nat, y: nat, b: nat)
    requires a < x < y < b <= |s| && AllWs(s, x, y) && !IsWs(s[x - 1]) && !IsWs(s[y])
    ensures Collapse(s[a..b]) == Collapse(s[a..x]) + " " + Collapse(s[y..b])
  {
    hide IsWs, CollapseTo;
    assert s[a..b] == s[a..x] + s[x..y] + s[y..b];
    CollapseConcat(s[a..x], s[x..y]);
    CollapseConcat(s[a..x] + s[x..y], s[y..b]);
    AllWsCollapse(s[x..y]);
  }

  lemma {:induction false} JoinCollapse(s: string, g: seq<Unit>)
    requires GroupOk(s, g) && UnitsFlush(s, g)
    ensures g[0].start <= g[|g| - 1].end <= |s|
    ensures Flat(Join(g)) == Collapse(s[g[0].start..g[|g| - 1].end])
    decreases |g|
  {
    hide IsWs, CollapseTo, Flat, LeftEdge, RightEdge, Tiles;
    var init, u := g[..|g| - 1], g[|g| - 1];
    UnitTidy(s, u);
    assert "" + u.text == u.text;
    if init != [] {
      var v := init[|init| - 1];
      assert SpansOf(g)[|init| - 1] == SpanOf(v) && SpansOf(g)[|init|] == SpanOf(u);
      assert g == init + [u];
      SpansOfConcat(init, [u]);
      TilesSplit(s, g[0].start, u.end, SpansOf(init), SpansOf([u]));
      TilesHull(s, g[0].start, u.start, SpansOf(init));
      assert UnitsFlush(s, init) by {
        assert forall i | 0 <= i < |init| :: SpansOf(init)[i] == SpansOf(g)[i];
      }
      JoinCollapse(s, init);
      GapAfter(s, v, u);
      UnitTidy(s, v);
      CollapseAcrossGap(s, g[0].start, v.end, u.start, u.end);
      JoinTidy(s, init);
      FlatLast(g);
    }
  }

  lemma FlatLast(g: seq<Unit>)
    requires |g| > 1 && Join(g[..|g| - 1]) != ""
    ensures Flat(Join(g)) == Flat(Join(g[..|g| - 1])) + " " + Flat(g[|g| - 1].text)
  {
    hide Flat;
    var init, u := g[..|g| - 1], g[|g| - 1];
    var sep := if u.startsParagraph then "\n" else " ";
    FlatConcat(Join(init), sep);
    FlatConcat(Join(init) + sep, u.text);
    FlatSeparator();
  }

  lemma FlatSeparator()
    ensures Flat("\n") == " " && Flat(" ") == " "
  {
    assert "\n"[..0] == "" && " "[..0] == "";
  }

  lemma GapAfter(s: string, v: Unit, u: Unit)
    requires UnitOk(s, v) && UnitOk(s, u) && Flush(s, SpanOf(v)) && v.end <= u.start
    ensures v.end < u.start
  {
    hide IsWs, CollapseTo;
  }

  lemma {:induction false} TilesHull(s: string, lo: nat, hi: nat, rs: seq<Span>)
    requires Tiles(s, lo, hi, rs) && rs != []
    ensures lo <= rs[0].start < rs[|rs| - 1].end <= hi <= |s|
    ensures AllWs(s, rs[|rs| - 1].end, hi) && Tiles(s, rs[0].start, rs[|rs| - 1].end, rs)
  {
    hide IsWs, Tiles;
    assert [] + rs == rs;
    TilesSplit(s, lo, hi, [], rs);
    TilesMeaning(s, lo, hi, rs);
    TilesBound(s, lo, hi, rs);
  }

  lemma TilesBound(s: string, lo: nat, hi: nat, rs: seq<Span>)
    requires Tiles(s, lo, hi, rs)
    ensures lo <= hi <= |s|
  {
  }

  /**
    When every word fits, a passage's text is its slice of the body collapsed, but for the line feeds;
    `ChunkLineFeeds` says where these stand.
    */
  lemma PassagesAreCollapsedSlices(s: string, budget: nat, cost: string -> nat)
    requires WordsFit(s, budget, cost)
    ensures forall p | p in Chunk(s, budget, cost) ::
              p.start <= p.end <= |s| && Flat(p.text) == Collapse(s[p.start..p.end])
  {
    hide Groups, GroupOk, Chunk, UnitsFlush, Join, Flat, WordsFit, CollapseTo, Flatten, Cost;
    GroupsKeepUnits(s, budget, cost);
    AllUnitsFlush(s, budget, cost);
    var gs := Groups(s, budget, cost);
    FlattenFlush(s, gs);
    forall p | p in Chunk(s, budget, cost)
      ensures p.start <= p.end <= |s| && Flat(p.text) == Collapse(s[p.start..p.end])
    {
      var i := GroupOfPassage(s, budget, cost, p);
      JoinCollapse(s, gs[i]);
    }
  }

  // ---------------------------------------------------------------- counting words

  /** The cost used by the golden fixtures: the number of words. */
  function WordCost(t: string): nat {
    |Words(t, 0, |t|)|
  }

  /** The positions below `k` where a word begins. */
  function RunsTo(t: string, k: nat): nat
    requires k <= |t|
  {
    if k == 0 then 0 else RunsTo(t, k - 1) + if !IsWs(t[k - 1]) && LeftEdge(t, k - 1) then 1 else 0
  }

  function Runs(t: string): nat {
    RunsTo(t, |t|)
  }

  lemma {:induction false} RunsToFlat(t: string, a: nat, b: nat)
    requires a <= b <= |t|
    requires forall i | a <= i < b :: IsWs(t[i]) || !LeftEdge(t, i)
    ensures RunsTo(t, b) == RunsTo(t, a)
    decreases b
  {
    hide IsWs, LeftEdge;
    if a < b {
      RunsToFlat(t, a, b - 1);
    }
  }

  lemma {:induction false} WordsCount(t: string, i: nat)
    requires i <= |t| && (LeftEdge(t, i) || i == |t| || IsWs(t[i]))
    ensures |Words(t, i, |t|)| == Runs(t) - RunsTo(t, i)
    decreases |t| - i
  {
    hide IsWs, TrimStart, RunEnd;
    var x := TrimStart(t, i, |t|);
    RunsToFlat(t, i, x);
    if x < |t| {
      var y := RunEnd(t, x, |t|);
      assert x > i ==> IsWs(t[x - 1]);
      assert !IsWs(t[x]);
      RunsToFlat(t, x + 1, y);
      WordsCount(t, y);
    }
  }

  lemma WordCostIsRuns(t: string)
    ensures WordCost(t) == Runs(t)
  {
    hide RunsTo, Words, IsWs;
    WordsCount(t, 0);
    RunsNone(t);
  }

  lemma RunsNone(t: string)
    ensures RunsTo(t, 0) == 0
  {
  }

  lemma {:induction false} RunsLocal(t: string, u: string, k: nat)
    requires k <= |t| && k <= |u| && t[..k] == u[..k]
    ensures RunsTo(t, k) == RunsTo(u, k)
    decreases k
  {
    hide IsWs;
    if k > 0 {
      assert t[..k - 1] == t[..k][..k - 1] == u[..k][..k - 1] == u[..k - 1];
      assert t[k - 1] == t[..k][k - 1] == u[..k][k - 1] == u[k - 1];
      if k > 1 {
        assert t[k - 2] == t[..k][k - 2] == u[..k][k - 2] == u[k - 2];
      }
      RunsLocal(t, u, k - 1);
    }
  }

  lemma RunsSnoc(t: string, c: char)
    ensures Runs(t + [c]) == Runs(t) + if !IsWs(c) && (t == "" || IsWs(t[|t| - 1])) then 1 else 0
  {
    hide IsWs;
    var u := t + [c];
    assert u[..|t|] == t == t[..|t|];
    RunsLocal(u, t, |t|);
  }

  lemma {:induction false} RunsConcat(a: string, b: string)
    requires a == "" || b == "" || IsWs(a[|a| - 1]) || IsWs(b[0])
    ensures Runs(a + b) == Runs(a) + Runs(b)
    decreases |b|
  {
    hide IsWs, RunsTo;
    RunsNone("");
    if b == "" {
      assert a + b == a;
    } else if a == "" {
      assert a + b == b;
    } else {
      var init, c := b[..|b| - 1], b[|b| - 1];
      assert b == init + [c] && a + b == (a + init) + [c];
      RunsConcat(a, init);
      RunsSnoc(a + init, c);
      RunsSnoc(init, c);
    }
  }

  lemma {:induction false} RunsAllWs(t: string)
    requires AllWs(t, 0, |t|)
    ensures Runs(t) == 0
    decreases |t|
  {
    hide IsWs;
    RunsToFlat(t, 0, |t|);
  }

  lemma {:induction false} RunsCollapse(t: string, k: nat)
    requires k <= |t|
    ensures Runs(CollapseTo(t, k)) == RunsTo(t, k)
    decreases k
  {
    hide IsWs, Runs;
    SpaceIsWs();
    if k == 0 {
      RunsNothing();
    } else {
      RunsCollapse(t, k - 1);
      CollapsedPrefix(t, k - 1);
      RunsSnoc(CollapseTo(t, k - 1), t[k - 1]);
      RunsSnoc(CollapseTo(t, k - 1), ' ');
    }
  }

  lemma RunsNothing()
    ensures Runs("") == 0
  {
  }

  /** Slices that cut no word hold all the words. */
  function RunsOf(s: string, rs: seq<Span>): nat
    requires SpansIn(s, rs)
  {
    if rs == [] then 0 else Runs(s[rs[0].start..rs[0].end]) + RunsOf(s, rs[1..])
  }

  lemma {:induction false} TilesRuns(s: string, lo: nat, hi: nat, rs: seq<Span>)
    requires Tiles(s, lo, hi, rs) && AllFlush(s, rs)
    ensures SpansIn(s, rs) && Runs(s[lo..hi]) == RunsOf(s, rs)
    decreases |rs|
  {
    hide IsWs, Runs;
    TilesMeaning(s, lo, hi, rs);
    if rs == [] {
      RunsAllWs(s[lo..hi]);
    } else {
      var r := rs[0];
      TilesRuns(s, r.end, hi, rs[1..]);
      RunsNothing();
      assert s[lo..hi] == s[lo..r.start] + s[r.start..r.end] + s[r.end..hi];
      RunsConcat(s[lo..r.start], s[r.start..r.end]);
      RunsConcat(s[lo..r.start] + s[r.start..r.end], s[r.end..hi]);
      RunsAllWs(s[lo..r.start]);
    }
  }

  lemma {:induction false} CostIsRuns(s: string, us: seq<Unit>)
    requires UnitsOk(s, us)
    ensures SpansIn(s, SpansOf(us)) && Cost(us, WordCost) == RunsOf(s, SpansOf(us))
    decreases |us|
  {
    hide IsWs, CollapseTo, Runs, WordCost;
    if us != [] {
      var init, u := us[..|us| - 1], us[|us| - 1];
      CostIsRuns(s, init);
      assert SpansOf(us) == SpansOf(init) + [SpanOf(u)];
      RunsOfSnoc(s, SpansOf(init), SpanOf(u));
      UnitCost(s, u);
    }
  }

  lemma UnitCost(s: string, u: Unit)
    requires UnitOk(s, u)
    ensures WordCost(u.text) == Runs(s[u.start..u.end]) == Runs(u.text)
  {
    hide IsWs, RunsTo, CollapseTo;
    WordCostIsRuns(u.text);
    RunsCollapse(s[u.start..u.end], u.end - u.start);
  }

  lemma {:induction false} RunsOfSnoc(s: string, rs: seq<Span>, r: Span)
    requires SpansIn(s, rs + [r])
    ensures SpansIn(s, rs) && r.start <= r.end <= |s|
    ensures RunsOf(s, rs + [r]) == RunsOf(s, rs) + Runs(s[r.start..r.end])
    decreases |rs|
  {
    hide Runs;
    assert (rs + [r])[|rs|] == r;
    forall k | 0 <= k < |rs| ensures rs[k].start <= rs[k].end <= |s| {
      assert (rs + [r])[k] == rs[k];
    }
    if rs == [] {
      assert rs + [r] == [r] && [r][1..] == [];
    } else {
      assert (rs + [r])[1..] == rs[1..] + [r];
      RunsOfSnoc(s, rs[1..], r);
    }
  }

  lemma {:induction false} CostOfJoin(s: string, g: seq<Unit>)
    requires UnitsOk(s, g)
    ensures Cost(g, WordCost) == Runs(Join(g))
    decreases |g|
  {
    hide IsWs, Runs, WordCost, UnitOk;
    RunsNothing();
    SpaceIsWs();
    if g != [] {
      var init, u := g[..|g| - 1], g[|g| - 1];
      CostOfJoin(s, init);
      UnitCost(s, u);
      assert "" + u.text == u.text;
      var sep := if u.startsParagraph then "\n" else " ";
      RunsConcat(Join(init), sep);
      RunsConcat(Join(init) + sep, u.text);
      RunsAllWs(sep);
    }
  }

  lemma OneWordCost(s: string, budget: nat)
    requires budget >= 1
    ensures WordsFit(s, budget, WordCost)
  {
    hide IsWs, Words;
    forall a, b | 0 <= a < b <= |s| && NoWs(s, a, b) && LeftEdge(s, a) && RightEdge(s, b)
      ensures WordCost(s[a..b]) <= budget
    {
      OneWord(s[a..b]);
    }
  }

  /**
    Under word counts nothing exceeds the budget, a passage costs the words of its text, and the
    words of the passages are the words of the body.
    */
  lemma WordChunks(s: string, budget: nat)
    requires budget >= 1
    ensures forall p | p in Chunk(s, budget, WordCost) :: p.cost == WordCost(p.text) && p.cost <= budget
    ensures TotalCost(Chunk(s, budget, WordCost)) == WordCost(s)
  {
    hide IsWs, Groups, Tiles, Flush, Join, WordsFit, CollapseTo, AllUnits, Flatten, Cost, WordCost, TotalCost, RunsTo;
    GroupsOk(s, budget, WordCost);
    OneWordCost(s, budget);
    forall p | p in Chunk(s, budget, WordCost) ensures p.cost == WordCost(p.text) && p.cost <= budget {
      var gs := Groups(s, budget, WordCost);
      var i :| 0 <= i < |gs| && p == PassageOf(gs[i], WordCost);
      CostOfJoin(s, gs[i]);
      WordCostIsRuns(p.text);
      WordPassageFits(s, budget, p);
    }
    CostsAddUp(s, budget, WordCost);
    AllUnitsTile(s, budget, WordCost);
    AllUnitsFlush(s, budget, WordCost);
    CostIsRuns(s, AllUnits(s, budget, WordCost));
    TilesRuns(s, 0, |s|, SpansOf(AllUnits(s, budget, WordCost)));
    assert s[0..|s|] == s;
    WordCostIsRuns(s);
  }

  lemma WordPassageFits(s: string, budget: nat, p: Passage)
    requires budget >= 1 && p in Chunk(s, budget, WordCost)
    ensures p.cost <= budget
  {
    hide IsWs, Words, Chunk, Stuck;
    PassagesWithinBudget(s, budget, WordCost);
    if p.cost > budget {
      OneWord(p.text);
    }
  }
}
