/**
  Every level of the chunker and the packer keep the body: slices increase without overlap, only
  whitespace lies outside them, and a passage's text has the characters of its slice of the body.
  */
module ChunkTiling {
  import opened Utf8
  import opened ChunkSpec

  /** `rs` are non-empty, increasing and disjoint inside `lo..hi`, and only whitespace lies between them. */
  ghost predicate Tiles(s: string, lo: nat, hi: nat, rs: seq<Span>)
    decreases |rs|
  {
    lo <= hi <= |s| &&
    if rs == [] then AllWs(s, lo, hi)
    else
      && lo <= rs[0].start < rs[0].end <= hi
      && AllWs(s, lo, rs[0].start)
      && Tiles(s, rs[0].end, hi, rs[1..])
  }

  /** A slice that begins and ends with a character that is not whitespace. */
  predicate Clean(s: string, r: Span) {
    r.start < r.end <= |s| && !IsWs(s[r.start]) && !IsWs(s[r.end - 1])
  }

  predicate AllClean(s: string, rs: seq<Span>) {
    forall i | 0 <= i < |rs| :: Clean(s, rs[i])
  }

  // ---------------------------------------------------------------- tilings

  lemma {:induction false} TilesConcat(s: string, lo: nat, mid: nat, hi: nat, a: seq<Span>, b: seq<Span>)
    requires Tiles(s, lo, mid, a) && Tiles(s, mid, hi, b)
    ensures Tiles(s, lo, hi, a + b)
    decreases |a|
  {
    hide IsWs;
    if a == [] {
      assert a + b == b;
    } else {
      TilesConcat(s, a[0].end, mid, hi, a[1..], b);
      assert (a + b)[1..] == a[1..] + b;
    }
  }

  lemma {:induction false} TilesWiden(s: string, lo: nat, hi: nat, hi': nat, a: seq<Span>)
    requires Tiles(s, lo, hi, a) && hi <= hi' <= |s| && AllWs(s, hi, hi')
    ensures Tiles(s, lo, hi', a)
  {
    hide IsWs;
    TilesConcat(s, lo, hi, hi', a, []);
    assert a + [] == a;
  }

  lemma {:induction false} TilesSplit(s: string, lo: nat, hi: nat, a: seq<Span>, b: seq<Span>)
    requires Tiles(s, lo, hi, a + b) && b != []
    ensures lo <= b[0].start < b[|b| - 1].end <= hi
    ensures hi <= |s| && Tiles(s, lo, b[0].start, a)
    ensures Tiles(s, b[0].start, b[|b| - 1].end, b)
    ensures AllWs(s, b[|b| - 1].end, hi)
    decreases |a|
  {
    hide IsWs;
    if a == [] {
      assert a + b == b;
      TilesTail(s, lo, hi, b);
    } else {
      assert (a + b)[1..] == a[1..] + b && (a + b)[0] == a[0];
      TilesSplit(s, a[0].end, hi, a[1..], b);
    }
  }

  lemma {:induction false} TilesTail(s: string, lo: nat, hi: nat, b: seq<Span>)
    requires Tiles(s, lo, hi, b) && b != []
    ensures lo <= b[0].start < b[|b| - 1].end <= hi
    ensures AllWs(s, lo, b[0].start) && AllWs(s, b[|b| - 1].end, hi)
    ensures Tiles(s, b[0].start, b[|b| - 1].end, b)
    decreases |b|
  {
    hide IsWs;
    if |b| > 1 {
      TilesTail(s, b[0].end, hi, b[1..]);
      TilesWidenLeft(s, b[0].end, b[1].start, b[|b| - 1].end, b[1..]);
    }
  }

  lemma TilesWidenLeft(s: string, lo: nat, lo': nat, hi: nat, a: seq<Span>)
    requires lo <= lo' && Tiles(s, lo', hi, a) && AllWs(s, lo, lo')
    ensures Tiles(s, lo, hi, a)
  {
    hide IsWs;
  }

  /** What a tiling says, position by position. */
  lemma {:induction false} TilesMeaning(s: string, lo: nat, hi: nat, rs: seq<Span>)
    requires Tiles(s, lo, hi, rs)
    ensures forall i | 0 <= i < |rs| :: lo <= rs[i].start < rs[i].end <= hi
    ensures forall i, j | 0 <= i < j < |rs| :: rs[i].end <= rs[j].start
    ensures forall p | lo <= p < hi && !IsWs(s[p]) :: exists i :: 0 <= i < |rs| && rs[i].start <= p < rs[i].end
    decreases |rs|
  {
    hide IsWs;
    if rs != [] {
      var rest := rs[1..];
      TilesMeaning(s, rs[0].end, hi, rest);
      forall i | 0 <= i < |rs| ensures lo <= rs[i].start < rs[i].end <= hi {
        assert i > 0 ==> rs[i] == rest[i - 1];
      }
      forall i, j | 0 <= i < j < |rs| ensures rs[i].end <= rs[j].start {
        assert rs[j] == rest[j - 1];
        assert i > 0 ==> rs[i] == rest[i - 1];
      }
      forall p | lo <= p < hi && !IsWs(s[p]) ensures exists i :: 0 <= i < |rs| && rs[i].start <= p < rs[i].end {
        if p < rs[0].end {
          assert rs[0].start <= p;
        } else {
          var i :| 0 <= i < |rest| && rest[i].start <= p < rest[i].end;
          assert rs[i + 1] == rest[i];
        }
      }
    }
  }

  // ---------------------------------------------------------------- the splitters tile

  lemma TrimmedTiles(s: string, a: nat, b: nat)
    requires a <= b <= |s|
    ensures Tiles(s, a, b, Trimmed(s, a, b)) && AllClean(s, Trimmed(s, a, b))
  {
    hide IsWs, TrimStart, TrimEnd;
    var x := TrimStart(s, a, b);
    var y := TrimEnd(s, x, b);
    if x < y {
      assert [Span(x, y)][1..] == [];
    }
  }

  lemma {:induction false} ParagraphsTile(s: string, start: nat, i: nat)
    requires start <= i <= |s|
    ensures Tiles(s, start, |s|, ParagraphsFrom(s, start, i)) && AllClean(s, ParagraphsFrom(s, start, i))
    decreases |s| - i
  {
    hide IsWs, Tiles, Trimmed, Clean;
    if i == |s| {
      TrimmedTiles(s, start, i);
    } else if BlankLineAt(s, i) {
      var next := SkipInner(s, i + 1) + 1;
      TrimmedTiles(s, start, i);
      ParagraphsTile(s, next, next);
      BlankLineIsWs(s, i);
      TilesWiden(s, start, i, next, Trimmed(s, start, i));
      TilesConcat(s, start, next, |s|, Trimmed(s, start, i), ParagraphsFrom(s, next, next));
    } else {
      ParagraphsTile(s, start, i + 1);
    }
  }

  lemma BlankLineIsWs(s: string, i: nat)
    requires i < |s| && BlankLineAt(s, i)
    ensures AllWs(s, i, SkipInner(s, i + 1) + 1)
  {
    hide SkipInner;
    var j := SkipInner(s, i + 1);
    forall p | i <= p < j + 1 ensures IsWs(s[p]) {
      assert p == i || p == j || IsBlankLineInner(s[p]);
    }
  }

  lemma {:induction false} SentencesTile(s: string, b: nat, from: nat, i: nat)
    requires from <= i <= b <= |s|
    ensures Tiles(s, from, b, SentencesFrom(s, b, from, i)) && AllClean(s, SentencesFrom(s, b, from, i))
    decreases b - i
  {
    hide IsWs, Tiles, Trimmed, Clean, IsTerminator;
    if i == b {
      TrimmedTiles(s, from, b);
    } else if SentenceEndsAt(s, b, i) {
      TrimmedTiles(s, from, i + 1);
      SentencesTile(s, b, i + 1, i + 1);
      TilesConcat(s, from, i + 1, b, Trimmed(s, from, i + 1), SentencesFrom(s, b, i + 1, i + 1));
    } else {
      SentencesTile(s, b, from, i + 1);
    }
  }

  predicate AllNoWs(s: string, rs: seq<Span>)
    requires SpansIn(s, rs)
  {
    forall i | 0 <= i < |rs| :: NoWs(s, rs[i].start, rs[i].end)
  }

  lemma {:induction false} WordsTile(s: string, i: nat, b: nat)
    requires i <= b <= |s|
    ensures SpansIn(s, Words(s, i, b))
    ensures Tiles(s, i, b, Words(s, i, b)) && AllClean(s, Words(s, i, b)) && AllNoWs(s, Words(s, i, b))
    decreases b - i
  {
    hide IsWs, TrimStart, RunEnd;
    var x := TrimStart(s, i, b);
    if x < b {
      var y := RunEnd(s, x, b);
      WordsTile(s, y, b);
      assert ([Span(x, y)] + Words(s, y, b))[1..] == Words(s, y, b);
    }
  }

  lemma {:induction false} FragmentsTile(s: string, a: nat, b: nat, budget: nat, cost: string -> nat)
    requires a < b <= |s| && NoWs(s, a, b)
    ensures SpansIn(s, Fragments(s, a, b, budget, cost))
    ensures Tiles(s, a, b, Fragments(s, a, b, budget, cost))
    ensures AllClean(s, Fragments(s, a, b, budget, cost)) && AllNoWs(s, Fragments(s, a, b, budget, cost))
    decreases b - a
  {
    hide IsWs, FirstFrom, HalfByte, Fragments, Tiles, AllClean, AllNoWs, SpansIn;
    FragmentsUnfold(s, a, b, budget, cost);
    var split := FirstFrom(s, a, b, HalfByte(s, a, b));
    if cost(s[a..b]) <= budget || b - a <= 1 || split == a || split == b {
      OneRun(s, a, b);
    } else {
      FragmentsTile(s, a, split, budget, cost);
      FragmentsTile(s, split, b, budget, cost);
      RunsConcat(s, a, split, b, Fragments(s, a, split, budget, cost), Fragments(s, split, b, budget, cost));
    }
  }

  lemma OneRun(s: string, a: nat, b: nat)
    requires a < b <= |s| && NoWs(s, a, b)
    ensures var r := [Span(a, b)]; SpansIn(s, r) && Tiles(s, a, b, r) && AllClean(s, r) && AllNoWs(s, r)
  {
    hide IsWs;
    assert [Span(a, b)][1..] == [];
  }

  lemma RunsConcat(s: string, lo: nat, mid: nat, hi: nat, x: seq<Span>, y: seq<Span>)
    requires SpansIn(s, x) && Tiles(s, lo, mid, x) && AllClean(s, x) && AllNoWs(s, x)
    requires SpansIn(s, y) && Tiles(s, mid, hi, y) && AllClean(s, y) && AllNoWs(s, y)
    ensures SpansIn(s, x + y) && Tiles(s, lo, hi, x + y) && AllClean(s, x + y) && AllNoWs(s, x + y)
  {
    hide Tiles, Clean, NoWs;
    TilesConcat(s, lo, mid, hi, x, y);
  }

  // ---------------------------------------------------------------- collapsing

  lemma {:induction false} CollapseLocal(t: string, u: string, k: nat)
    requires k <= |t| && k <= |u| && t[..k] == u[..k]
    ensures CollapseTo(t, k) == CollapseTo(u, k)
    decreases k
  {
    hide IsWs;
    if k > 0 {
      assert t[..k - 1] == t[..k][..k - 1] == u[..k][..k - 1] == u[..k - 1];
      assert t[k - 1] == t[..k][k - 1] == u[..k][k - 1] == u[k - 1];
      if k > 1 {
        assert t[k - 2] == t[..k][k - 2] == u[..k][k - 2] == u[k - 2];
      }
      CollapseLocal(t, u, k - 1);
    }
  }

  lemma CollapseSnoc(t: string, c: char)
    ensures Collapse(t + [c]) ==
            if !IsWs(c) then Collapse(t) + [c]
            else if t == "" || !IsWs(t[|t| - 1]) then Collapse(t) + " "
            else Collapse(t)
  {
    hide IsWs;
    var u := t + [c];
    assert u[..|t|] == t == t[..|t|];
    CollapseLocal(u, t, |t|);
  }

  /** Collapsing works piecewise unless a whitespace run straddles the cut. */
  lemma {:induction false} CollapseConcat(a: string, b: string)
    requires a == "" || b == "" || !IsWs(a[|a| - 1]) || !IsWs(b[0])
    ensures Collapse(a + b) == Collapse(a) + Collapse(b)
    decreases |b|
  {
    hide IsWs, CollapseTo;
    if b == "" {
      assert a + b == a;
      CollapseNothing();
    } else if a == "" {
      assert a + b == b;
      CollapseNothing();
    } else {
      var init, c := b[..|b| - 1], b[|b| - 1];
      assert b == init + [c] && a + b == (a + init) + [c];
      CollapseConcat(a, init);
      CollapseSnoc(a + init, c);
      CollapseSnoc(init, c);
      if init == "" {
        CollapseNothing();
        assert a + init == a;
      }
    }
  }

  lemma CollapseNothing()
    ensures Collapse("") == ""
  {
  }

  lemma {:induction false} CollapseNoWs(t: string)
    requires NoWs(t, 0, |t|)
    ensures Collapse(t) == t
    decreases |t|
  {
    hide IsWs, CollapseTo;
    CollapseNothing();
    if t != "" {
      var init := t[..|t| - 1];
      assert t == init + [t[|t| - 1]];
      CollapseNoWs(init);
      CollapseSnoc(init, t[|t| - 1]);
    }
  }

  // ---------------------------------------------------------------- deleting whitespace

  function Strip(t: string): string {
    if t == "" then ""
    else Strip(t[..|t| - 1]) + if IsWs(t[|t| - 1]) then "" else [t[|t| - 1]]
  }

  lemma StripSnoc(t: string, c: char)
    ensures Strip(t + [c]) == Strip(t) + if IsWs(c) then "" else [c]
  {
    hide IsWs;
    assert (t + [c])[..|t|] == t;
  }

  lemma {:induction false} StripConcat(a: string, b: string)
    ensures Strip(a + b) == Strip(a) + Strip(b)
    decreases |b|
  {
    hide IsWs;
    if b == "" {
      assert a + b == a;
    } else {
      var init, c := b[..|b| - 1], b[|b| - 1];
      assert b == init + [c] && a + b == (a + init) + [c];
      StripConcat(a, init);
      StripSnoc(a + init, c);
    }
  }

  lemma {:induction false} StripAllWs(t: string)
    requires AllWs(t, 0, |t|)
    ensures Strip(t) == ""
    decreases |t|
  {
    hide IsWs;
    if t != "" {
      StripAllWs(t[..|t| - 1]);
    }
  }

  lemma SpaceIsWs()
    ensures IsWs(' ') && IsWs('\n') && Strip(" ") == "" && Strip("\n") == "" && Strip("") == ""
  {
    assert " "[..0] == "" && "\n"[..0] == "";
  }

  lemma {:induction false} StripCollapse(t: string)
    ensures Strip(Collapse(t)) == Strip(t)
    decreases |t|
  {
    hide IsWs, CollapseTo, Strip;
    CollapseNothing();
    if t != "" {
      var init, c := t[..|t| - 1], t[|t| - 1];
      assert t == init + [c];
      StripCollapse(init);
      CollapseSnoc(init, c);
      StripSnoc(init, c);
      StripConcat(Collapse(init), [c]);
      StripConcat(Collapse(init), " ");
      SpaceIsWs();
      StripSnoc("", c);
      assert "" + [c] == [c];
    }
  }

  // ---------------------------------------------------------------- units

  function SpanOf(u: Unit): Span {
    Span(u.start, u.end)
  }

  function SpansOf(us: seq<Unit>): (r: seq<Span>)
    ensures |r| == |us| && forall i | 0 <= i < |us| :: r[i] == SpanOf(us[i])
  {
    seq(|us|, i requires 0 <= i < |us| => SpanOf(us[i]))
  }

  lemma SpansOfConcat(a: seq<Unit>, b: seq<Unit>)
    ensures SpansOf(a + b) == SpansOf(a) + SpansOf(b)
  {
  }

  /** A unit carries the collapsed text of a slice without outer whitespace. */
  predicate UnitOk(s: string, u: Unit) {
    Clean(s, SpanOf(u)) && u.text == Collapse(s[u.start..u.end])
  }

  predicate UnitsOk(s: string, us: seq<Unit>) {
    forall i | 0 <= i < |us| :: UnitOk(s, us[i])
  }

  /** Words and fragments hold no whitespace. */
  predicate FineOk(s: string, u: Unit, level: Level) {
    UnitOk(s, u) && (level == Word || level == Fragment ==> NoWs(s, u.start, u.end) && u.text == s[u.start..u.end])
  }

  lemma SliceUnitOk(s: string, span: Span, level: Level, starts: bool)
    requires Clean(s, span)
    requires level == Word || level == Fragment ==> NoWs(s, span.start, span.end)
    ensures FineOk(s, Unit(SliceText(s, span, level), span.start, span.end, starts), level)
  {
    hide IsWs, CollapseTo;
    if level == Word || level == Fragment {
      CollapseNoWs(s[span.start..span.end]);
    }
  }

  lemma FinerTile(s: string, budget: nat, cost: string -> nat, u: Unit, level: Level)
    requires level != Fragment && FineOk(s, u, level)
    ensures var us := FinerUnits(s, budget, cost, u, level);
            Tiles(s, u.start, u.end, SpansOf(us)) && forall i | 0 <= i < |us| :: FineOk(s, us[i], Finer(level))
  {
    hide IsWs, CollapseTo, Tiles, SentencesFrom, Words, Fragments, Clean, SliceText;
    FineNonEmpty(s, u, level);
    var spans := FinerSpans(s, budget, cost, u, level);
    match level {
      case Paragraph => SentencesTile(s, u.end, u.start, u.start);
      case Sentence => WordsTile(s, u.start, u.end);
      case Word => FragmentsTile(s, u.start, u.end, budget, cost);
    }
    var us := FinerUnits(s, budget, cost, u, level);
    assert SpansOf(us) == spans;
    forall i | 0 <= i < |us| ensures FineOk(s, us[i], Finer(level)) {
      SliceUnitOk(s, spans[i], Finer(level), u.startsParagraph && i == 0);
    }
  }

  lemma FineNonEmpty(s: string, u: Unit, level: Level)
    requires FineOk(s, u, level)
    ensures u.start < u.end <= |s|
  {
  }

  lemma {:induction false} ExpandTiles(s: string, budget: nat, cost: string -> nat, u: Unit, level: Level)
    requires FineOk(s, u, level)
    ensures UnitIn(s, u)
    ensures Tiles(s, u.start, u.end, SpansOf(Expand(s, budget, cost, u, level)))
    ensures UnitsOk(s, Expand(s, budget, cost, u, level))
    decreases Rank(level), 0
  {
    hide IsWs, CollapseTo, Tiles, Expand, ExpandTo, FinerUnits, Clean, UnitOk;
    FineNonEmpty(s, u, level);
    ExpandUnfold(s, budget, cost, u, level);
    OneTiles(s, u, level);
    if cost(u.text) > budget && level != Fragment {
      var finer := FinerUnits(s, budget, cost, u, level);
      FinerTile(s, budget, cost, u, level);
      assert finer[..|finer|] == finer;
      ExpandToTiles(s, budget, cost, u.start, u.end, finer, Finer(level), |finer|);
    }
  }

  lemma OneTiles(s: string, u: Unit, level: Level)
    requires FineOk(s, u, level)
    ensures Tiles(s, u.start, u.end, SpansOf([u]))
  {
    assert SpansOf([u]) == [SpanOf(u)] && [SpanOf(u)][1..] == [];
  }

  lemma {:induction false} ExpandToTiles(s: string, budget: nat, cost: string -> nat, lo: nat, hi: nat, us: seq<Unit>,
                                         level: Level, k: nat)
    requires k <= |us| && forall i | 0 <= i < |us| :: FineOk(s, us[i], level) && UnitIn(s, us[i])
    requires Tiles(s, lo, hi, SpansOf(us[..k]))
    ensures Tiles(s, lo, hi, SpansOf(ExpandTo(s, budget, cost, us, level, k)))
    ensures UnitsOk(s, ExpandTo(s, budget, cost, us, level, k))
    decreases Rank(level), 1 + k
  {
    hide IsWs, CollapseTo, Tiles, Expand, Clean, UnitOk, FineOk;
    if k == 0 {
      assert SpansOf(us[..0]) == [] == SpansOf(ExpandTo(s, budget, cost, us, level, 0));
    } else {
      var u := us[k - 1];
      FineNonEmpty(s, u, level);
      assert us[..k] == us[..k - 1] + [u];
      SpansOfConcat(us[..k - 1], [u]);
      TilesSplit(s, lo, hi, SpansOf(us[..k - 1]), SpansOf([u]));
      ExpandToTiles(s, budget, cost, lo, u.start, us, level, k - 1);
      ExpandTiles(s, budget, cost, u, level);
      var before, now := ExpandTo(s, budget, cost, us, level, k - 1), Expand(s, budget, cost, u, level);
      TilesConcat(s, lo, u.start, u.end, SpansOf(before), SpansOf(now));
      TilesWiden(s, lo, u.end, hi, SpansOf(before) + SpansOf(now));
      SpansOfConcat(before, now);
    }
  }

  /** The units the packer is given tile the body. */
  lemma AllUnitsTile(s: string, budget: nat, cost: string -> nat)
    ensures Tiles(s, 0, |s|, SpansOf(AllUnits(s, budget, cost)))
    ensures UnitsOk(s, AllUnits(s, budget, cost))
  {
    hide IsWs, CollapseTo, Tiles, ExpandTo, Clean, ParagraphsFrom;
    ParagraphsTile(s, 0, 0);
    var us, spans := ParagraphUnits(s), Paragraphs(s);
    assert SpansOf(us) == spans && us[..|us|] == us;
    ExpandToTiles(s, budget, cost, 0, |s|, us, Paragraph, |us|);
  }

  // ---------------------------------------------------------------- groups

  function Flatten(gs: seq<seq<Unit>>): seq<Unit> {
    if gs == [] then [] else Flatten(gs[..|gs| - 1]) + gs[|gs| - 1]
  }

  lemma FlattenSnoc(gs: seq<seq<Unit>>, g: seq<Unit>)
    ensures Flatten(gs + [g]) == Flatten(gs) + g
  {
    assert (gs + [g])[..|gs|] == gs;
  }

  /** Packing neither drops, repeats nor reorders a unit. */
  lemma {:induction false} FeedAllKeepsUnits(us: seq<Unit>, budget: nat, cost: string -> nat)
    ensures var p := FeedAll(Packing([], []), us, budget, cost); Flatten(p.closed) + p.open == us
    ensures var p := FeedAll(Packing([], []), us, budget, cost); us != [] ==> p.open != []
    decreases |us|
  {
    hide Flatten, Cost;
    if us == [] {
      FlattenNone();
    } else {
      var init, u := us[..|us| - 1], us[|us| - 1];
      FeedAllKeepsUnits(init, budget, cost);
      var p := FeedAll(Packing([], []), init, budget, cost);
      FlattenSnoc(p.closed, p.open);
      assert us == init + [u];
    }
  }

  lemma FlattenNone()
    ensures Flatten([]) == []
  {
  }

  lemma GroupsKeepUnits(s: string, budget: nat, cost: string -> nat)
    ensures Flatten(Groups(s, budget, cost)) == AllUnits(s, budget, cost)
  {
    hide Flatten, FeedAll, AllUnits;
    FeedAllKeepsUnits(AllUnits(s, budget, cost), budget, cost);
    var p := FeedAll(Packing([], []), AllUnits(s, budget, cost), budget, cost);
    FlattenSnoc(p.closed, p.open);
  }

  function Hull(g: seq<Unit>): Span
    requires g != []
  {
    Span(g[0].start, g[|g| - 1].end)
  }

  function Hulls(gs: seq<seq<Unit>>): (r: seq<Span>)
    requires NonEmptyGroups(gs)
    ensures |r| == |gs| && forall i | 0 <= i < |gs| :: r[i] == Hull(gs[i])
  {
    seq(|gs|, i requires 0 <= i < |gs| && NonEmptyGroups(gs) => Hull(gs[i]))
  }

  /** Consecutive units of a tiling, taken together, tile as well; and each group tiles its own range. */
  lemma {:induction false} GroupsTile(s: string, lo: nat, hi: nat, gs: seq<seq<Unit>>)
    requires NonEmptyGroups(gs) && Tiles(s, lo, hi, SpansOf(Flatten(gs)))
    ensures Tiles(s, lo, hi, Hulls(gs))
    ensures forall i | 0 <= i < |gs| ::
            Hull(gs[i]).start < Hull(gs[i]).end && Tiles(s, Hull(gs[i]).start, Hull(gs[i]).end, SpansOf(gs[i]))
    decreases |gs|
  {
    hide IsWs;
    if gs == [] {
      assert Hulls(gs) == [] == SpansOf(Flatten(gs));
    } else {
      var init, g := gs[..|gs| - 1], gs[|gs| - 1];
      SpansOfConcat(Flatten(init), g);
      TilesSplit(s, lo, hi, SpansOf(Flatten(init)), SpansOf(g));
      GroupsTile(s, lo, Hull(g).start, init);
      assert [Hull(g)][1..] == [];
      TilesConcat(s, lo, Hull(g).start, hi, Hulls(init), [Hull(g)]);
      assert Hulls(gs) == Hulls(init) + [Hull(g)];
    }
  }

  lemma {:induction false} FlattenOk(s: string, gs: seq<seq<Unit>>)
    requires UnitsOk(s, Flatten(gs))
    ensures forall i | 0 <= i < |gs| :: UnitsOk(s, gs[i])
    decreases |gs|
  {
    hide UnitOk;
    if gs != [] {
      var init, g := gs[..|gs| - 1], gs[|gs| - 1];
      forall j | 0 <= j < |Flatten(init)| ensures UnitOk(s, Flatten(init)[j]) {
        assert Flatten(init)[j] == Flatten(gs)[j];
      }
      forall j | 0 <= j < |g| ensures UnitOk(s, g[j]) {
        assert g[j] == Flatten(gs)[|Flatten(init)| + j];
      }
      FlattenOk(s, init);
    }
  }

  /** What every group of units is: well-formed units that tile the passage's range. */
  ghost predicate GroupOk(s: string, g: seq<Unit>) {
    g != [] && UnitsOk(s, g) && Tiles(s, g[0].start, g[|g| - 1].end, SpansOf(g))
  }

  lemma GroupsOk(s: string, budget: nat, cost: string -> nat)
    ensures Tiles(s, 0, |s|, Hulls(Groups(s, budget, cost)))
    ensures forall i | 0 <= i < |Groups(s, budget, cost)| :: GroupOk(s, Groups(s, budget, cost)[i])
  {
    hide Tiles, UnitsOk, Groups, AllUnits, Flatten;
    GroupsKeepUnits(s, budget, cost);
    AllUnitsTile(s, budget, cost);
    var gs := Groups(s, budget, cost);
    GroupsTile(s, 0, |s|, gs);
    FlattenOk(s, gs);
  }

  /** The group of units a passage is made of. */
  lemma GroupOfPassage(s: string, budget: nat, cost: string -> nat, p: Passage) returns (j: nat)
    requires p in Chunk(s, budget, cost)
    ensures var gs := Groups(s, budget, cost); j < |gs| && p == PassageOf(gs[j], cost) && GroupOk(s, gs[j])
  {
    hide Groups, GroupOk, PassageOf, Tiles;
    GroupsOk(s, budget, cost);
    j :| 0 <= j < |Chunk(s, budget, cost)| && Chunk(s, budget, cost)[j] == p;
  }

  // ---------------------------------------------------------------- text

  /** The slices of a tiling hold every character of the body that is not whitespace, in order. */
  function StripSlices(s: string, rs: seq<Span>): string
    requires SpansIn(s, rs)
  {
    if rs == [] then "" else Strip(s[rs[0].start..rs[0].end]) + StripSlices(s, rs[1..])
  }

  lemma {:induction false} TilesStrip(s: string, lo: nat, hi: nat, rs: seq<Span>)
    requires Tiles(s, lo, hi, rs)
    ensures SpansIn(s, rs) && Strip(s[lo..hi]) == StripSlices(s, rs)
    decreases |rs|
  {
    hide IsWs, Strip;
    TilesMeaning(s, lo, hi, rs);
    if rs == [] {
      StripAllWs(s[lo..hi]);
    } else {
      var r := rs[0];
      TilesStrip(s, r.end, hi, rs[1..]);
      assert s[lo..hi] == s[lo..r.start] + s[r.start..r.end] + s[r.end..hi];
      StripConcat(s[lo..r.start] + s[r.start..r.end], s[r.end..hi]);
      StripConcat(s[lo..r.start], s[r.start..r.end]);
      StripAllWs(s[lo..r.start]);
    }
  }

  lemma {:induction false} StripSlicesSnoc(s: string, rs: seq<Span>, r: Span)
    requires SpansIn(s, rs + [r])
    ensures SpansIn(s, rs) && r.start <= r.end <= |s|
    ensures StripSlices(s, rs + [r]) == StripSlices(s, rs) + Strip(s[r.start..r.end])
    decreases |rs|
  {
    hide Strip;
    assert (rs + [r])[|rs|] == r;
    forall k | 0 <= k < |rs| ensures rs[k].start <= rs[k].end <= |s| {
      assert (rs + [r])[k] == rs[k];
    }
    if rs == [] {
      assert rs + [r] == [r] && [r][1..] == [];
    } else {
      assert (rs + [r])[1..] == rs[1..] + [r];
      StripSlicesSnoc(s, rs[1..], r);
    }
  }

  lemma {:induction false} StripJoin(s: string, us: seq<Unit>)
    requires UnitsOk(s, us)
    ensures SpansIn(s, SpansOf(us)) && Strip(Join(us)) == StripSlices(s, SpansOf(us))
    decreases |us|
  {
    hide IsWs, Strip, CollapseTo;
    SpaceIsWs();
    if us != [] {
      var init, u := us[..|us| - 1], us[|us| - 1];
      StripJoin(s, init);
      assert SpansOf(us) == SpansOf(init) + [SpanOf(u)];
      StripSlicesSnoc(s, SpansOf(init), SpanOf(u));
      StripCollapse(s[u.start..u.end]);
      var sep := if u.startsParagraph then "\n" else " ";
      StripConcat(Join(init), sep);
      StripConcat(Join(init) + sep, u.text);
      assert "" + u.text == u.text;
    }
  }

  // ---------------------------------------------------------------- main results

  /** Ranges lie inside the body, increase and do not overlap, and every character outside them is whitespace. */
  lemma PassagesTile(s: string, budget: nat, cost: string -> nat)
    requires budget > 0
    ensures var ps := Chunk(s, budget, cost);
            (forall i | 0 <= i < |ps| :: ps[i].start < ps[i].end <= |s|) &&
            (forall i, j | 0 <= i < j < |ps| :: ps[i].end <= ps[j].start) &&
            (forall p | 0 <= p < |s| && !IsWs(s[p]) :: exists i :: 0 <= i < |ps| && ps[i].start <= p < ps[i].end)
  {
    hide IsWs, Groups, Tiles, Hulls;
    if s != "" {
      GroupsOk(s, budget, cost);
      TilesMeaning(s, 0, |s|, Hulls(Groups(s, budget, cost)));
      RangesAreHulls(s, budget, cost);
      RangesTile(s, Chunk(s, budget, cost), Hulls(Groups(s, budget, cost)));
    }
  }

  lemma RangesAreHulls(s: string, budget: nat, cost: string -> nat)
    requires budget > 0 && s != ""
    ensures var ps, hulls := Chunk(s, budget, cost), Hulls(Groups(s, budget, cost));
            |ps| == |hulls| && forall i | 0 <= i < |ps| :: Span(ps[i].start, ps[i].end) == hulls[i]
  {
    hide Groups, Join, Cost;
  }

  lemma RangesTile(s: string, ps: seq<Passage>, hulls: seq<Span>)
    requires |ps| == |hulls| && forall i | 0 <= i < |ps| :: Span(ps[i].start, ps[i].end) == hulls[i]
    requires forall i | 0 <= i < |hulls| :: hulls[i].start < hulls[i].end <= |s|
    requires forall i, j | 0 <= i < j < |hulls| :: hulls[i].end <= hulls[j].start
    requires forall p | 0 <= p < |s| && !IsWs(s[p]) :: exists i ::
             0 <= i < |hulls| && hulls[i].start <= p < hulls[i].end
    ensures forall i | 0 <= i < |ps| :: ps[i].start < ps[i].end <= |s|
    ensures forall i, j | 0 <= i < j < |ps| :: ps[i].end <= ps[j].start
    ensures forall p | 0 <= p < |s| && !IsWs(s[p]) :: exists i :: 0 <= i < |ps| && ps[i].start <= p < ps[i].end
  {
    hide IsWs;
    forall p | 0 <= p < |s| && !IsWs(s[p]) ensures exists i :: 0 <= i < |ps| && ps[i].start <= p < ps[i].end {
      var i :| 0 <= i < |hulls| && hulls[i].start <= p < hulls[i].end;
      assert ps[i].start <= p < ps[i].end;
    }
  }

  /** A passage's text and its slice of the body agree once whitespace is deleted. */
  lemma PassagesKeepText(s: string, budget: nat, cost: string -> nat)
    ensures PassagesIn(s, Chunk(s, budget, cost))
    ensures forall p | p in Chunk(s, budget, cost) :: p.start <= p.end && Strip(p.text) == Strip(s[p.start..p.end])
  {
    hide IsWs, Groups, Tiles, Strip, Join, GroupOk, Chunk, Cost;
    ChunkInside(s, budget, cost);
    forall p | p in Chunk(s, budget, cost) ensures p.start <= p.end && Strip(p.text) == Strip(s[p.start..p.end]) {
      var i := GroupOfPassage(s, budget, cost, p);
      GroupStrip(s, Groups(s, budget, cost)[i]);
    }
  }

  lemma GroupStrip(s: string, g: seq<Unit>)
    requires GroupOk(s, g)
    ensures g[0].start <= g[|g| - 1].end <= |s| && Strip(Join(g)) == Strip(s[g[0].start..g[|g| - 1].end])
  {
    hide IsWs, Tiles, Strip, Join, UnitOk;
    var lo, hi := g[0].start, g[|g| - 1].end;
    TilesMeaning(s, lo, hi, SpansOf(g));
    assert SpansOf(g)[0] == SpanOf(g[0]) && SpansOf(g)[|g| - 1] == SpanOf(g[|g| - 1]);
    TilesStrip(s, lo, hi, SpansOf(g));
    StripJoin(s, g);
  }
}
