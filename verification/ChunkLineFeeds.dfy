/**
  Where the line feeds of a passage's text stand: exactly where a paragraph of the body begins inside
  the passage.
  */
module ChunkLineFeeds {
  import opened Utf8
  import opened ChunkSpec
  import opened ChunkTiling
  import opened ChunkWords

  // ---------------------------------------------------------------- units that begin a paragraph

  /** Where the marked units begin. */
  function Starts(us: seq<Unit>): seq<nat> {
    if us == [] then []
    else Starts(us[..|us| - 1]) + if us[|us| - 1].startsParagraph then [us[|us| - 1].start] else []
  }

  predicate MarkedAt(us: seq<Unit>, m: nat, q: nat) {
    m < |us| && us[m].startsParagraph && us[m].start == q
  }

  lemma {:induction false} StartsConcat(a: seq<Unit>, b: seq<Unit>)
    ensures Starts(a + b) == Starts(a) + Starts(b)
    decreases |b|
  {
    if b == [] {
      assert a + b == a;
    } else {
      assert (a + b)[..|a + b| - 1] == a + b[..|b| - 1];
      StartsConcat(a, b[..|b| - 1]);
    }
  }

  lemma {:induction false} StartsAre(us: seq<Unit>, q: nat)
    ensures q in Starts(us) <==> exists m: nat :: MarkedAt(us, m, q)
    decreases |us|
  {
    if us != [] {
      var n: nat := |us| - 1;
      StartsAre(us[..n], q);
      if m: nat :| MarkedAt(us[..n], m, q) {
        assert MarkedAt(us, m, q);
      }
      if m: nat :| MarkedAt(us, m, q) {
        assert m < n ==> MarkedAt(us[..n], m, q);
      }
      if MarkedAt(us, n, q) {
        assert q in Starts(us);
      }
    }
  }

  /** What replaces a unit begins where the unit does, and only its first unit may be marked. */
  predicate Led(u: Unit, us: seq<Unit>) {
    us != [] && us[0].start == u.start && us[0].startsParagraph == u.startsParagraph &&
    forall i | 0 < i < |us| :: !us[i].startsParagraph
  }

  lemma {:induction false} StartsLed(u: Unit, us: seq<Unit>)
    requires Led(u, us)
    ensures Starts(us) == if u.startsParagraph then [u.start] else []
    decreases |us|
  {
    var init := us[..|us| - 1];
    if init == [] {
      assert Starts(init) == [];
    } else {
      StartsLed(u, init);
    }
  }

  lemma TilesFirst(s: string, lo: nat, hi: nat, rs: seq<Span>)
    requires Tiles(s, lo, hi, rs) && lo < hi && !IsWs(s[lo])
    ensures rs != [] && rs[0].start == lo
  {
    hide IsWs;
  }

  lemma {:induction false} ExpandLed(s: string, budget: nat, cost: string -> nat, u: Unit, level: Level)
    requires FineOk(s, u, level) && UnitIn(s, u)
    ensures Led(u, Expand(s, budget, cost, u, level))
    decreases Rank(level), 0
  {
    hide IsWs, CollapseTo, Tiles, Expand, ExpandTo, SliceText, FinerSpans;
    ExpandUnfold(s, budget, cost, u, level);
    if cost(u.text) > budget && level != Fragment {
      var finer := FinerUnits(s, budget, cost, u, level);
      FinerTile(s, budget, cost, u, level);
      TilesFirst(s, u.start, u.end, SpansOf(finer));
      assert SpansOf(finer)[0] == SpanOf(finer[0]);
      ExpandToLed(s, budget, cost, finer, Finer(level), |finer|);
    }
  }

  lemma {:induction false} ExpandToLed(s: string, budget: nat, cost: string -> nat, us: seq<Unit>, level: Level, k: nat)
    requires 0 < k <= |us| && UnitsIn(s, us) && forall i | 0 <= i < |us| :: FineOk(s, us[i], level)
    requires forall i | 0 < i < |us| :: !us[i].startsParagraph
    ensures Led(us[0], ExpandTo(s, budget, cost, us, level, k))
    decreases Rank(level), 1 + k
  {
    hide Expand, ExpandTo, FineOk;
    ExpandToUnfold(s, budget, cost, us, level, k - 1);
    ExpandLed(s, budget, cost, us[k - 1], level);
    if k > 1 {
      ExpandToLed(s, budget, cost, us, level, k - 1);
    } else {
      ExpandToNone(s, budget, cost, us, level);
    }
  }

  lemma ExpandToNone(s: string, budget: nat, cost: string -> nat, us: seq<Unit>, level: Level)
    requires UnitsIn(s, us)
    ensures ExpandTo(s, budget, cost, us, level, 0) == []
  {
  }

  lemma {:induction false} ExpandToStarts(s: string, budget: nat, cost: string -> nat, us: seq<Unit>, k: nat)
    requires k <= |us| && UnitsIn(s, us) && forall i | 0 <= i < |us| :: FineOk(s, us[i], Paragraph)
    ensures Starts(ExpandTo(s, budget, cost, us, Paragraph, k)) == Starts(us[..k])
    decreases k
  {
    hide Expand, ExpandTo, FineOk, Starts;
    if k == 0 {
      ExpandToNone(s, budget, cost, us, Paragraph);
      assert us[..0] == [];
    } else {
      var u := us[k - 1];
      ExpandToStarts(s, budget, cost, us, k - 1);
      ExpandToUnfold(s, budget, cost, us, Paragraph, k - 1);
      ExpandLed(s, budget, cost, u, Paragraph);
      StartsLed(u, Expand(s, budget, cost, u, Paragraph));
      StartsConcat(ExpandTo(s, budget, cost, us, Paragraph, k - 1), Expand(s, budget, cost, u, Paragraph));
      assert us[..k] == us[..k - 1] + [u];
      StartsConcat(us[..k - 1], [u]);
      StartsLed(u, [u]);
    }
  }

  predicate ParagraphAt(s: string, k: nat, q: nat) {
    k < |Paragraphs(s)| && Paragraphs(s)[k].start == q
  }

  /** The marked units of a body begin where its paragraphs do. */
  lemma MarkedUnits(s: string, budget: nat, cost: string -> nat, q: nat)
    ensures q in Starts(AllUnits(s, budget, cost)) <==> exists k: nat :: ParagraphAt(s, k, q)
  {
    hide IsWs, CollapseTo, ParagraphsFrom, Tiles, ExpandTo, Clean, Starts;
    ParagraphsTile(s, 0, 0);
    var us := ParagraphUnits(s);
    forall i | 0 <= i < |us| ensures FineOk(s, us[i], Paragraph) {
      SliceUnitOk(s, Paragraphs(s)[i], Paragraph, true);
    }
    ExpandToStarts(s, budget, cost, us, |us|);
    assert us[..|us|] == us;
    StartsAre(us, q);
    if m: nat :| MarkedAt(us, m, q) {
      assert ParagraphAt(s, m, q);
    }
    if k: nat :| ParagraphAt(s, k, q) {
      assert MarkedAt(us, k, q);
    }
  }

  // ---------------------------------------------------------------- line feeds of a joined group

  /** The text up to position `i` is that of the first `m` units, and a line feed follows. */
  ghost predicate FeedAt(g: seq<Unit>, m: nat, i: nat) {
    var t := Join(g);
    0 < m < |g| && i < |t| && t[i] == '\n' && t[..i] == Join(g[..m])
  }

  lemma UnitHasNoFeed(s: string, u: Unit)
    requires UnitOk(s, u)
    ensures u.text != "" && forall i | 0 <= i < |u.text| :: u.text[i] != '\n'
  {
    hide IsWs, CollapseTo;
    LineFeedIsWs();
    var slice := s[u.start..u.end];
    CollapsedPrefix(slice, |slice|);
  }

  lemma LineFeedIsWs()
    ensures IsWs('\n')
  {
  }

  lemma {:induction false} FeedsAreMarks(s: string, g: seq<Unit>, i: nat) returns (m: nat)
    requires UnitsOk(s, g) && i < |Join(g)| && Join(g)[i] == '\n'
    ensures FeedAt(g, m, i) && g[m].startsParagraph
    decreases |g|
  {
    hide IsWs, UnitOk;
    var n := |g| - 1;
    var init, u := g[..n], g[n];
    var t, before := Join(g), Join(init);
    UnitHasNoFeed(s, u);
    if i < |before| {
      assert t[i] == before[i];
      m := FeedsAreMarks(s, init, i);
      assert init[..m] == g[..m] && t[..i] == before[..i];
    } else {
      m := n;
      LastFeed(before, u, i);
      assert init != [] && t[..i] == before;
    }
  }

  lemma LastFeed(before: string, u: Unit, i: nat)
    requires var t := (if before == "" then "" else before + (if u.startsParagraph then "\n" else " ")) + u.text;
             |before| <= i < |t| && t[i] == '\n'
    requires forall j | 0 <= j < |u.text| :: u.text[j] != '\n'
    ensures before != "" && u.startsParagraph && i == |before|
  {
    var lead := if before == "" then "" else before + (if u.startsParagraph then "\n" else " ");
    var t := lead + u.text;
    forall j | |lead| <= j < |t| ensures t[j] != '\n' {
      assert t[j] == u.text[j - |lead|];
    }
  }

  lemma {:induction false} MarksAreFeeds(s: string, g: seq<Unit>, m: nat) returns (i: nat)
    requires UnitsOk(s, g) && 0 < m < |g| && g[m].startsParagraph
    ensures FeedAt(g, m, i)
    decreases |g|
  {
    hide IsWs, UnitOk;
    var n := |g| - 1;
    var init := g[..n];
    JoinTidy(s, init);
    if m < n {
      i := MarksAreFeeds(s, init, m);
      assert init[..m] == g[..m] && Join(g)[..i] == Join(init)[..i];
    } else {
      i := |Join(init)|;
      assert Join(g)[..i] == Join(init);
    }
  }

  /** The text of the first units of a group is that of the body up to the next unit, whitespace aside. */
  lemma CutStrip(s: string, g: seq<Unit>, m: nat)
    requires GroupOk(s, g) && 0 < m < |g|
    ensures g[0].start < g[m].start < g[|g| - 1].end <= |s|
    ensures Strip(Join(g[..m])) == Strip(s[g[0].start..g[m].start])
  {
    hide IsWs, Tiles, Strip, UnitOk, Join, SpansOf;
    var a := g[..m];
    CutTiles(s, g, m);
    TilesStrip(s, g[0].start, g[m].start, SpansOf(a));
    StripJoin(s, a);
  }

  lemma CutTiles(s: string, g: seq<Unit>, m: nat)
    requires GroupOk(s, g) && 0 < m < |g|
    ensures g[0].start < g[m].start < g[|g| - 1].end <= |s| && Tiles(s, g[0].start, g[m].start, SpansOf(g[..m]))
  {
    hide IsWs, Tiles, UnitsOk;
    CutSpans(s, g[0].start, g[|g| - 1].end, SpansOf(g), m);
    assert SpansOf(g)[..m] == SpansOf(g[..m]);
  }

  lemma CutSpans(s: string, lo: nat, hi: nat, rs: seq<Span>, m: nat)
    requires Tiles(s, lo, hi, rs) && 0 < m < |rs|
    ensures lo < rs[m].start < hi <= |s| && Tiles(s, lo, rs[m].start, rs[..m])
  {
    hide IsWs, Tiles;
    assert rs[..m] + rs[m..] == rs;
    TilesSplit(s, lo, hi, rs[..m], rs[m..]);
    TilesMeaning(s, lo, hi, rs);
    assert lo <= rs[0].start < rs[0].end <= rs[m].start;
  }

  // ---------------------------------------------------------------- main result

  /** Position `i` of the passage holds a line feed for the paragraph that begins at `q`, inside the passage. */
  predicate FeedFor(s: string, p: Passage, i: nat, q: nat) {
    i < |p.text| && p.text[i] == '\n' && p.start < q < p.end <= |s| && Strip(p.text[..i]) == Strip(s[p.start..q])
  }

  lemma FeedHasParagraph(s: string, budget: nat, cost: string -> nat, p: Passage, i: nat) returns (k: nat)
    requires p in Chunk(s, budget, cost) && i < |p.text| && p.text[i] == '\n'
    ensures k < |Paragraphs(s)| && FeedFor(s, p, i, Paragraphs(s)[k].start)
  {
    hide Chunk, Groups, Strip, Join, GroupOk, Paragraphs, Cost;
    var j := GroupOfPassage(s, budget, cost, p);
    var m := FeedHasMark(s, Groups(s, budget, cost)[j], i);
    k := MarkIsParagraph(s, budget, cost, j, m);
  }

  lemma FeedHasMark(s: string, g: seq<Unit>, i: nat) returns (m: nat)
    requires GroupOk(s, g) && i < |Join(g)| && Join(g)[i] == '\n'
    ensures 0 < m < |g| && g[m].startsParagraph && g[0].start < g[m].start < g[|g| - 1].end <= |s|
    ensures Strip(Join(g)[..i]) == Strip(s[g[0].start..g[m].start])
  {
    hide IsWs, Tiles, Strip, Join, UnitOk;
    m := FeedsAreMarks(s, g, i);
    CutStrip(s, g, m);
  }

  lemma MarkIsParagraph(s: string, budget: nat, cost: string -> nat, j: nat, m: nat) returns (k: nat)
    requires var gs := Groups(s, budget, cost); j < |gs| && m < |gs[j]| && gs[j][m].startsParagraph
    ensures ParagraphAt(s, k, Groups(s, budget, cost)[j][m].start)
  {
    hide Groups, Starts, AllUnits, Flatten, ParagraphAt;
    var gs: seq<seq<Unit>> := Groups(s, budget, cost);
    var q: nat := gs[j][m].start;
    GroupsKeepUnits(s, budget, cost);
    assert MarkedAt(gs[j], m, q);
    StartsAre(gs[j], q);
    GroupStarts(gs, j, q);
    MarkedUnits(s, budget, cost, q);
    k :| ParagraphAt(s, k, q);
  }

  lemma ParagraphHasFeed(s: string, budget: nat, cost: string -> nat, p: Passage, k: nat) returns (i: nat)
    requires p in Chunk(s, budget, cost) && k < |Paragraphs(s)| && p.start < Paragraphs(s)[k].start < p.end
    ensures FeedFor(s, p, i, Paragraphs(s)[k].start)
  {
    hide Chunk, Groups, Strip, Join, GroupOk, Paragraphs, Cost;
    var gs := Groups(s, budget, cost);
    var j := GroupOfPassage(s, budget, cost, p);
    var h, m := ParagraphHasMark(s, budget, cost, k);
    GroupsOk(s, budget, cost);
    StartInGroup(s, gs[h], m);
    SameHull(s, gs, h, j, Paragraphs(s)[k].start);
    i := MarkHasFeed(s, gs[j], m);
  }

  lemma ParagraphHasMark(s: string, budget: nat, cost: string -> nat, k: nat) returns (h: nat, m: nat)
    requires k < |Paragraphs(s)|
    ensures var gs := Groups(s, budget, cost); h < |gs| && MarkedAt(gs[h], m, Paragraphs(s)[k].start)
  {
    hide Groups, Starts, AllUnits, Flatten, Paragraphs;
    var gs := Groups(s, budget, cost);
    var q := Paragraphs(s)[k].start;
    GroupsKeepUnits(s, budget, cost);
    assert ParagraphAt(s, k, q);
    MarkedUnits(s, budget, cost, q);
    h := GroupOfStart(gs, q);
    StartsAre(gs[h], q);
    m :| MarkedAt(gs[h], m, q);
  }

  lemma MarkHasFeed(s: string, g: seq<Unit>, m: nat) returns (i: nat)
    requires GroupOk(s, g) && 0 < m < |g| && g[m].startsParagraph
    ensures var t := Join(g); i < |t| && t[i] == '\n' && g[0].start < g[m].start < g[|g| - 1].end <= |s|
    ensures Strip(Join(g)[..i]) == Strip(s[g[0].start..g[m].start])
  {
    hide IsWs, Tiles, Strip, Join, UnitOk;
    i := MarksAreFeeds(s, g, m);
    CutStrip(s, g, m);
  }

  lemma {:induction false} GroupStarts(gs: seq<seq<Unit>>, j: nat, q: nat)
    requires j < |gs| && q in Starts(gs[j])
    ensures q in Starts(Flatten(gs))
    decreases |gs|
  {
    hide Starts;
    var n := |gs| - 1;
    StartsConcat(Flatten(gs[..n]), gs[n]);
    if j < n {
      GroupStarts(gs[..n], j, q);
    }
  }

  lemma {:induction false} GroupOfStart(gs: seq<seq<Unit>>, q: nat) returns (h: nat)
    requires q in Starts(Flatten(gs))
    ensures h < |gs| && q in Starts(gs[h])
    decreases |gs|
  {
    hide Starts;
    h := 0;
    if gs == [] {
      StartsNone();
    } else {
      var n := |gs| - 1;
      StartsConcat(Flatten(gs[..n]), gs[n]);
      if q in Starts(gs[n]) {
        h := n;
      } else {
        h := GroupOfStart(gs[..n], q);
      }
    }
  }

  lemma StartsNone()
    ensures Starts([]) == []
  {
  }

  lemma StartInGroup(s: string, g: seq<Unit>, m: nat)
    requires GroupOk(s, g) && m < |g|
    ensures g[0].start <= g[m].start < g[|g| - 1].end
  {
    hide IsWs, Tiles, UnitOk;
    TilesMeaning(s, g[0].start, g[|g| - 1].end, SpansOf(g));
    assert SpansOf(g)[m] == SpanOf(g[m]);
  }

  /** A position lies in the range of one group only. */
  lemma SameHull(s: string, gs: seq<seq<Unit>>, h: nat, j: nat, q: nat)
    requires NonEmptyGroups(gs) && Tiles(s, 0, |s|, Hulls(gs)) && h < |gs| && j < |gs|
    requires Hull(gs[h]).start <= q < Hull(gs[h]).end && Hull(gs[j]).start <= q < Hull(gs[j]).end
    ensures h == j
  {
    hide IsWs, Tiles;
    TilesMeaning(s, 0, |s|, Hulls(gs));
    assert Hulls(gs)[h] == Hull(gs[h]) && Hulls(gs)[j] == Hull(gs[j]);
  }

  /**
    A passage's text has a line feed for every paragraph that begins inside its range, and no other
    line feed; what stands before it is what stands in the body before the paragraph.
    */
  lemma LineFeedsAtParagraphs(s: string, budget: nat, cost: string -> nat, p: Passage)
    requires p in Chunk(s, budget, cost)
    ensures forall i | 0 <= i < |p.text| && p.text[i] == '\n' ::
              exists k :: 0 <= k < |Paragraphs(s)| && FeedFor(s, p, i, Paragraphs(s)[k].start)
    ensures forall k | 0 <= k < |Paragraphs(s)| && p.start < Paragraphs(s)[k].start < p.end ::
              exists i :: FeedFor(s, p, i, Paragraphs(s)[k].start)
  {
    hide *;
    forall i | 0 <= i < |p.text| && p.text[i] == '\n'
      ensures exists k :: 0 <= k < |Paragraphs(s)| && FeedFor(s, p, i, Paragraphs(s)[k].start)
    {
      var k := FeedHasParagraph(s, budget, cost, p, i);
    }
    forall k | 0 <= k < |Paragraphs(s)| && p.start < Paragraphs(s)[k].start < p.end
      ensures exists i :: FeedFor(s, p, i, Paragraphs(s)[k].start)
    {
      var i := ParagraphHasFeed(s, budget, cost, p, k);
    }
  }
}
