/**
  What a body is cut into, said without the expansion and the packing loop: which slices become units,
  where a passage can therefore begin and end, which grouping of the units is taken, and how a passage
  is made of its units.
  */
module ChunkMeaning {
  import opened Utf8
  import opened ChunkSpec
  import opened ChunkTiling
  import opened ChunkCosts
  import opened ChunkLineFeeds
  import ChunkWords

  // ---------------------------------------------------------------- the slices of the levels

  predicate Inside(s: string, r: Span) {
    r.start < r.end <= |s|
  }

  /** The slice alone, its whitespace collapsed, costs at most the budget. */
  predicate Cheap(s: string, r: Span, budget: nat, cost: string -> nat)
    requires Inside(s, r)
  {
    cost(Collapse(s[r.start..r.end])) <= budget
  }

  predicate IsParagraph(s: string, p: Span) {
    Inside(s, p) && p in Paragraphs(s)
  }

  /** `t` is a sentence of the slice `p`. */
  predicate IsSentence(s: string, p: Span, t: Span) {
    Inside(s, p) && Inside(s, t) && t in Sentences(s, p.start, p.end)
  }

  /** `w` is a word of the slice `t`. */
  predicate IsWord(s: string, t: Span, w: Span) {
    Inside(s, t) && Inside(s, w) && w in Words(s, t.start, t.end)
  }

  predicate IsFragment(s: string, w: Span, f: Span, budget: nat, cost: string -> nat) {
    Inside(s, w) && f in Fragments(s, w.start, w.end, budget, cost)
  }

  // ---------------------------------------------------------------- the slices that become units

  predicate WordPiece(s: string, w: Span, x: Span, budget: nat, cost: string -> nat)
    requires Inside(s, w)
  {
    if cost(s[w.start..w.end]) <= budget then x == w else IsFragment(s, w, x, budget, cost)
  }

  ghost predicate SentencePiece(s: string, t: Span, x: Span, budget: nat, cost: string -> nat)
    requires Inside(s, t)
  {
    if Cheap(s, t, budget, cost) then x == t
    else exists w :: IsWord(s, t, w) && WordPiece(s, w, x, budget, cost)
  }

  ghost predicate ParagraphPiece(s: string, p: Span, x: Span, budget: nat, cost: string -> nat)
    requires Inside(s, p)
  {
    if Cheap(s, p, budget, cost) then x == p
    else exists t :: IsSentence(s, p, t) && SentencePiece(s, t, x, budget, cost)
  }

  /**
    A paragraph that fits; or a sentence that fits, of a paragraph that does not; or a word that fits, of such a
    sentence that does not; or a fragment of such a word that does not.
    */
  ghost predicate Piece(s: string, x: Span, budget: nat, cost: string -> nat) {
    exists p :: IsParagraph(s, p) && ParagraphPiece(s, p, x, budget, cost)
  }

  /** The pieces a unit of a level stands for. */
  ghost predicate PieceAt(s: string, u: Span, level: Level, x: Span, budget: nat, cost: string -> nat)
    requires Inside(s, u)
  {
    match level
    case Paragraph => ParagraphPiece(s, u, x, budget, cost)
    case Sentence => SentencePiece(s, u, x, budget, cost)
    case Word => WordPiece(s, u, x, budget, cost)
    case Fragment => x == u
  }

  /** A unit of a level carries the text that level gives its slice. */
  predicate Fine(s: string, u: Unit, level: Level) {
    FineOk(s, u, level) && UnitIn(s, u) && Inside(s, SpanOf(u))
  }

  predicate AllFine(s: string, us: seq<Unit>, level: Level) {
    forall i | 0 <= i < |us| :: Fine(s, us[i], level)
  }

  ghost predicate PieceOfSome(s: string, us: seq<Unit>, level: Level, k: nat, x: Span, budget: nat,
                              cost: string -> nat)
    requires k <= |us| && AllFine(s, us, level)
  {
    exists i :: 0 <= i < k && PieceAt(s, SpanOf(us[i]), level, x, budget, cost)
  }

  lemma {:induction false} ExpandPieces(s: string, budget: nat, cost: string -> nat, u: Unit, level: Level, x: Span)
    requires Fine(s, u, level)
    ensures x in SpansOf(Expand(s, budget, cost, u, level)) <==> PieceAt(s, SpanOf(u), level, x, budget, cost)
    decreases Rank(level), 0
  {
    hide Expand, ExpandTo, FinerUnits, FineOk, PieceAt, PieceOfSome, AllFine, SpansOf;
    ExpandUnfold(s, budget, cost, u, level);
    UnitPrice(s, u, level, budget, cost);
    if cost(u.text) <= budget || level == Fragment {
      OneSpan(u, x);
      PieceOfFitting(s, u, level, x, budget, cost);
    } else {
      var finer := FinerUnits(s, budget, cost, u, level);
      FinerFine(s, budget, cost, u, level);
      DearPieces(s, budget, cost, u, level, x);
      if level == Word && |finer| == 1 {
        OneSpan(u, x);
        LoneFragment(s, budget, cost, u, x);
      } else {
        ExpandToPieces(s, budget, cost, finer, Finer(level), |finer|, x);
      }
    }
  }

  lemma {:induction false} ExpandToPieces(s: string, budget: nat, cost: string -> nat, us: seq<Unit>, level: Level,
                                          k: nat, x: Span)
    requires k <= |us| && AllFine(s, us, level) && UnitsIn(s, us)
    ensures x in SpansOf(ExpandTo(s, budget, cost, us, level, k)) <==> PieceOfSome(s, us, level, k, x, budget, cost)
    decreases Rank(level), 1 + k
  {
    hide Expand, ExpandTo, Fine, PieceAt;
    if k == 0 {
      ExpandToNone(s, budget, cost, us, level);
    } else {
      ExpandToPieces(s, budget, cost, us, level, k - 1, x);
      ExpandPieces(s, budget, cost, us[k - 1], level, x);
      ExpandToUnfold(s, budget, cost, us, level, k - 1);
      SpansOfConcat(ExpandTo(s, budget, cost, us, level, k - 1), Expand(s, budget, cost, us[k - 1], level));
      InConcat(SpansOf(ExpandTo(s, budget, cost, us, level, k - 1)),
        SpansOf(Expand(s, budget, cost, us[k - 1], level)), x);
      PieceOfOneMore(s, us, level, k, x, budget, cost);
    }
  }

  lemma InConcat(a: seq<Span>, b: seq<Span>, x: Span)
    ensures x in a + b <==> x in a || x in b
  {
  }

  lemma PieceOfOneMore(s: string, us: seq<Unit>, level: Level, k: nat, x: Span, budget: nat, cost: string -> nat)
    requires 0 < k <= |us| && AllFine(s, us, level)
    ensures PieceOfSome(s, us, level, k, x, budget, cost) <==>
            PieceOfSome(s, us, level, k - 1, x, budget, cost) ||
            PieceAt(s, SpanOf(us[k - 1]), level, x, budget, cost)
  {
    hide PieceAt, FineOk, Inside;
  }

  lemma OneSpan(u: Unit, x: Span)
    ensures x in SpansOf([u]) <==> x == SpanOf(u)
  {
    assert SpansOf([u]) == [SpanOf(u)];
  }

  lemma UnitPrice(s: string, u: Unit, level: Level, budget: nat, cost: string -> nat)
    requires Fine(s, u, level)
    ensures Inside(s, SpanOf(u))
    ensures level == Word ==> u.text == s[u.start..u.end]
    ensures Cheap(s, SpanOf(u), budget, cost) <==> cost(u.text) <= budget
  {
    hide CollapseTo, IsWs;
  }

  lemma PieceOfFitting(s: string, u: Unit, level: Level, x: Span, budget: nat, cost: string -> nat)
    requires Fine(s, u, level) && (cost(u.text) <= budget || level == Fragment)
    ensures PieceAt(s, SpanOf(u), level, x, budget, cost) <==> x == SpanOf(u)
  {
    hide Fine, Collapse, IsWs, IsSentence, IsWord, IsFragment;
    UnitPrice(s, u, level, budget, cost);
  }

  lemma FinerFine(s: string, budget: nat, cost: string -> nat, u: Unit, level: Level)
    requires Fine(s, u, level) && level != Fragment
    ensures UnitsIn(s, FinerUnits(s, budget, cost, u, level))
    ensures AllFine(s, FinerUnits(s, budget, cost, u, level), Finer(level))
  {
    hide IsWs, CollapseTo, Tiles, FinerUnits, FineOk;
    FinerTile(s, budget, cost, u, level);
    var us := FinerUnits(s, budget, cost, u, level);
    TilesMeaning(s, u.start, u.end, SpansOf(us));
    forall i | 0 <= i < |us| ensures Inside(s, SpanOf(us[i])) {
      assert SpansOf(us)[i] == SpanOf(us[i]);
    }
  }

  lemma FinerAre(s: string, budget: nat, cost: string -> nat, u: Unit, level: Level)
    requires UnitIn(s, u) && level != Fragment
    ensures SpansOf(FinerUnits(s, budget, cost, u, level)) == FinerSpans(s, budget, cost, u, level)
  {
    hide FinerSpans, SliceText;
  }

  lemma DearPieces(s: string, budget: nat, cost: string -> nat, u: Unit, level: Level, x: Span)
    requires Fine(s, u, level) && level != Fragment && cost(u.text) > budget
    requires AllFine(s, FinerUnits(s, budget, cost, u, level), Finer(level))
    ensures var finer := FinerUnits(s, budget, cost, u, level);
            PieceAt(s, SpanOf(u), level, x, budget, cost) <==>
            PieceOfSome(s, finer, Finer(level), |finer|, x, budget, cost)
  {
    hide FinerUnits, FineOk, Collapse, Sentences, Words, Fragments;
    var finer := FinerUnits(s, budget, cost, u, level);
    UnitPrice(s, u, level, budget, cost);
    FinerAre(s, budget, cost, u, level);
    if PieceAt(s, SpanOf(u), level, x, budget, cost) {
      match level {
        case Paragraph =>
          var t :| IsSentence(s, SpanOf(u), t) && SentencePiece(s, t, x, budget, cost);
          FoundAt(finer, t);
        case Sentence =>
          var w :| IsWord(s, SpanOf(u), w) && WordPiece(s, w, x, budget, cost);
          FoundAt(finer, w);
        case Word =>
          FoundAt(finer, x);
      }
    }
    if i :| 0 <= i < |finer| && PieceAt(s, SpanOf(finer[i]), Finer(level), x, budget, cost) {
      assert SpansOf(finer)[i] == SpanOf(finer[i]);
    }
  }

  lemma FoundAt(us: seq<Unit>, x: Span)
    requires x in SpansOf(us)
    ensures exists i :: 0 <= i < |us| && SpanOf(us[i]) == x
  {
  }

  lemma LoneFragment(s: string, budget: nat, cost: string -> nat, u: Unit, x: Span)
    requires Fine(s, u, Word) && cost(u.text) > budget && |FinerUnits(s, budget, cost, u, Word)| == 1
    ensures PieceAt(s, SpanOf(u), Word, x, budget, cost) <==> x == SpanOf(u)
  {
    hide FineOk, Collapse, Fragments, SliceText;
    UnitPrice(s, u, Word, budget, cost);
    FragmentsStop(s, u.start, u.end, budget, cost);
  }

  lemma ParagraphsFine(s: string)
    ensures AllFine(s, ParagraphUnits(s), Paragraph) && UnitsIn(s, ParagraphUnits(s))
    ensures SpansOf(ParagraphUnits(s)) == Paragraphs(s)
  {
    hide IsWs, CollapseTo, ParagraphsFrom, Tiles, FineOk, Clean;
    ParagraphsTile(s, 0, 0);
    TilesMeaning(s, 0, |s|, Paragraphs(s));
    var us := ParagraphUnits(s);
    forall i | 0 <= i < |us| ensures Fine(s, us[i], Paragraph) {
      SliceUnitOk(s, Paragraphs(s)[i], Paragraph, true);
      assert SpansOf(us)[i] == SpanOf(us[i]);
    }
  }

  /** The slices of the units the packer is given are exactly the pieces. */
  lemma UnitsArePieces(s: string, budget: nat, cost: string -> nat, x: Span)
    ensures x in SpansOf(AllUnits(s, budget, cost)) <==> Piece(s, x, budget, cost)
  {
    hide ExpandTo, ParagraphUnits, Paragraphs, Fine, ParagraphPiece;
    var us := ParagraphUnits(s);
    ParagraphsFine(s);
    ExpandToPieces(s, budget, cost, us, Paragraph, |us|, x);
    ParagraphPieces(s, us, x, budget, cost);
  }

  lemma ParagraphPieces(s: string, us: seq<Unit>, x: Span, budget: nat, cost: string -> nat)
    requires AllFine(s, us, Paragraph) && SpansOf(us) == Paragraphs(s)
    ensures PieceOfSome(s, us, Paragraph, |us|, x, budget, cost) <==> Piece(s, x, budget, cost)
  {
    hide FineOk, Paragraphs, ParagraphPiece;
    if p :| IsParagraph(s, p) && ParagraphPiece(s, p, x, budget, cost) {
      FoundAt(us, p);
    }
    if i :| 0 <= i < |us| && PieceAt(s, SpanOf(us[i]), Paragraph, x, budget, cost) {
      assert SpansOf(us)[i] == SpanOf(us[i]);
    }
  }

  // ---------------------------------------------------------------- where a passage begins and ends

  lemma InTiling(s: string, lo: nat, hi: nat, rs: seq<Span>, x: Span, y: Span)
    requires Tiles(s, lo, hi, rs) && x in rs && y in rs
    ensures hi <= |s| && lo <= x.start < x.end <= hi && (x == y || x.end <= y.start || y.end <= x.start)
  {
    hide IsWs, Tiles;
    TilesMeaning(s, lo, hi, rs);
    TilesEnd(s, lo, hi, rs);
    var i :| 0 <= i < |rs| && rs[i] == x;
    var j :| 0 <= j < |rs| && rs[j] == y;
  }

  lemma TilesEnd(s: string, lo: nat, hi: nat, rs: seq<Span>)
    requires Tiles(s, lo, hi, rs)
    ensures lo <= hi <= |s|
  {
  }

  lemma PiecesApart(s: string, x: Span, y: Span, budget: nat, cost: string -> nat)
    requires Piece(s, x, budget, cost) && Piece(s, y, budget, cost)
    ensures Inside(s, x) && (x == y || x.end <= y.start || y.end <= x.start)
  {
    hide Piece, Tiles, AllUnits, UnitsOk, SpansOf;
    AllUnitsTile(s, budget, cost);
    UnitsArePieces(s, budget, cost, x);
    UnitsArePieces(s, budget, cost, y);
    InTiling(s, 0, |s|, SpansOf(AllUnits(s, budget, cost)), x, y);
  }

  /** A passage begins where a piece begins and ends where one ends. */
  lemma PassageOfPieces(s: string, budget: nat, cost: string -> nat, q: Passage) returns (x: Span, y: Span)
    requires q in Chunk(s, budget, cost)
    ensures Piece(s, x, budget, cost) && Piece(s, y, budget, cost) && x.start == q.start && y.end == q.end
  {
    hide Groups, AllUnits, Flatten, Piece, Join, Cost, GroupOk;
    var j := GroupOfPassage(s, budget, cost, q);
    var gs := Groups(s, budget, cost);
    var g := gs[j];
    GroupNonEmpty(s, g);
    GroupsKeepUnits(s, budget, cost);
    UnitOfGroup(gs, j, 0);
    UnitOfGroup(gs, j, |g| - 1);
    x, y := SpanOf(g[0]), SpanOf(g[|g| - 1]);
    UnitsArePieces(s, budget, cost, x);
    UnitsArePieces(s, budget, cost, y);
  }

  lemma GroupNonEmpty(s: string, g: seq<Unit>)
    requires GroupOk(s, g)
    ensures g != []
  {
  }

  lemma {:induction false} UnitOfGroup(gs: seq<seq<Unit>>, j: nat, k: nat)
    requires j < |gs| && k < |gs[j]|
    ensures gs[j][k] in Flatten(gs) && SpanOf(gs[j][k]) in SpansOf(Flatten(gs))
    decreases |gs|
  {
    hide Flatten, SpanOf;
    var n := |gs| - 1;
    FlattenSnoc(gs[..n], gs[n]);
    assert gs == gs[..n] + [gs[n]];
    if j < n {
      UnitOfGroup(gs[..n], j, k);
      assert gs[j][k] in Flatten(gs[..n]);
    } else {
      assert gs[j][k] in gs[n];
    }
    assert gs[j][k] in Flatten(gs);
    var i :| 0 <= i < |Flatten(gs)| && Flatten(gs)[i] == gs[j][k];
    assert SpansOf(Flatten(gs))[i] == SpanOf(gs[j][k]);
  }

  /** The passage begins or ends strictly inside the slice. */
  predicate Cuts(q: Passage, r: Span) {
    r.start < q.start < r.end || r.start < q.end < r.end
  }

  lemma Uncut(s: string, budget: nat, cost: string -> nat, q: Passage, y: Span, r: Span)
    requires q in Chunk(s, budget, cost) && Piece(s, y, budget, cost) && y.start <= r.start && r.end <= y.end
    ensures !Cuts(q, r)
  {
    hide Piece, Chunk;
    var b, e := PassageOfPieces(s, budget, cost, q);
    PiecesApart(s, b, y, budget, cost);
    PiecesApart(s, y, b, budget, cost);
    PiecesApart(s, e, y, budget, cost);
    PiecesApart(s, y, e, budget, cost);
  }

  lemma SentenceInside(s: string, p: Span, t: Span)
    requires IsSentence(s, p, t)
    ensures p.start <= t.start < t.end <= p.end
  {
    hide Sentences, Tiles, IsWs, Clean;
    SentencesTile(s, p.end, p.start, p.start);
    assert Sentences(s, p.start, p.end) == SentencesFrom(s, p.end, p.start, p.start) by { SentencesAre(s, p); }
    InTiling(s, p.start, p.end, Sentences(s, p.start, p.end), t, t);
  }

  lemma SentencesAre(s: string, p: Span)
    requires Inside(s, p)
    ensures Sentences(s, p.start, p.end) == SentencesFrom(s, p.end, p.start, p.start)
  {
  }

  lemma WordInside(s: string, t: Span, w: Span)
    requires IsWord(s, t, w)
    ensures t.start <= w.start < w.end <= t.end && NoWs(s, w.start, w.end)
  {
    hide Words, Tiles, IsWs, Clean, NoWs;
    WordsTile(s, t.start, t.end);
    InTiling(s, t.start, t.end, Words(s, t.start, t.end), w, w);
  }

  lemma FragmentInside(s: string, w: Span, f: Span, budget: nat, cost: string -> nat)
    requires IsFragment(s, w, f, budget, cost) && NoWs(s, w.start, w.end)
    ensures w.start <= f.start < f.end <= w.end
  {
    hide Fragments, Tiles, IsWs, Clean, NoWs;
    FragmentsTile(s, w.start, w.end, budget, cost);
    InTiling(s, w.start, w.end, Fragments(s, w.start, w.end, budget, cost), f, f);
  }

  lemma ParagraphInside(s: string, p: Span, q: Span)
    requires IsParagraph(s, p) && IsParagraph(s, q)
    ensures p == q || p.end <= q.start || q.end <= p.start
  {
    hide Tiles, IsWs, Clean, ParagraphsFrom;
    ParagraphsTile(s, 0, 0);
    InTiling(s, 0, |s|, Paragraphs(s), p, q);
  }

  lemma ParagraphUncut(s: string, budget: nat, cost: string -> nat, q: Passage, p: Span)
    requires q in Chunk(s, budget, cost) && IsParagraph(s, p) && Cheap(s, p, budget, cost)
    ensures !Cuts(q, p)
  {
    hide Chunk, Cheap, Paragraphs, Sentences;
    assert ParagraphPiece(s, p, p, budget, cost);
    Uncut(s, budget, cost, q, p, p);
  }

  lemma SentenceUncut(s: string, budget: nat, cost: string -> nat, q: Passage, p: Span, t: Span)
    requires q in Chunk(s, budget, cost) && IsParagraph(s, p) && IsSentence(s, p, t) && Cheap(s, t, budget, cost)
    ensures !Cuts(q, t)
  {
    hide Chunk, Cheap, Paragraphs, Sentences, Words;
    SentenceInside(s, p, t);
    if Cheap(s, p, budget, cost) {
      ParagraphUncut(s, budget, cost, q, p);
    } else {
      assert SentencePiece(s, t, t, budget, cost);
      assert ParagraphPiece(s, p, t, budget, cost);
      Uncut(s, budget, cost, q, t, t);
    }
  }

  lemma WordUncut(s: string, budget: nat, cost: string -> nat, q: Passage, p: Span, t: Span, w: Span)
    requires q in Chunk(s, budget, cost) && IsParagraph(s, p) && IsSentence(s, p, t) && IsWord(s, t, w)
    requires cost(s[w.start..w.end]) <= budget
    ensures !Cuts(q, w)
  {
    hide Chunk, Cheap, Paragraphs, Sentences, Words, IsFragment;
    SentenceInside(s, p, t);
    WordInside(s, t, w);
    if Cheap(s, p, budget, cost) {
      ParagraphUncut(s, budget, cost, q, p);
    } else if Cheap(s, t, budget, cost) {
      SentenceUncut(s, budget, cost, q, p, t);
    } else {
      assert WordPiece(s, w, w, budget, cost);
      assert SentencePiece(s, t, w, budget, cost);
      assert ParagraphPiece(s, p, w, budget, cost);
      Uncut(s, budget, cost, q, w, w);
    }
  }

  /** No passage begins or ends strictly inside a paragraph, a sentence or a word that fits. */
  lemma FittingPiecesUncut(s: string, budget: nat, cost: string -> nat, q: Passage)
    requires q in Chunk(s, budget, cost)
    ensures forall p | IsParagraph(s, p) && Cheap(s, p, budget, cost) :: !Cuts(q, p)
    ensures forall p, t | IsParagraph(s, p) && IsSentence(s, p, t) && Cheap(s, t, budget, cost) :: !Cuts(q, t)
    ensures forall p, t, w | IsParagraph(s, p) && IsSentence(s, p, t) && IsWord(s, t, w) &&
                             cost(s[w.start..w.end]) <= budget :: !Cuts(q, w)
  {
    hide Chunk, Cheap, Paragraphs, Sentences, Words, Cuts;
    forall p | IsParagraph(s, p) && Cheap(s, p, budget, cost) ensures !Cuts(q, p) {
      ParagraphUncut(s, budget, cost, q, p);
    }
    forall p, t | IsParagraph(s, p) && IsSentence(s, p, t) && Cheap(s, t, budget, cost) ensures !Cuts(q, t) {
      SentenceUncut(s, budget, cost, q, p, t);
    }
    forall p, t, w | IsParagraph(s, p) && IsSentence(s, p, t) && IsWord(s, t, w) && cost(s[w.start..w.end]) <= budget
      ensures !Cuts(q, w)
    {
      WordUncut(s, budget, cost, q, p, t, w);
    }
  }

  // ---------------------------------------------------------------- where a dear piece is broken

  predicate Edge(r: Span, c: nat, begins: bool) {
    c == if begins then r.start else r.end
  }

  predicate Within(r: Span, c: nat) {
    r.start < c < r.end
  }

  /** `c` is an edge of the word, or of a fragment of it when the word does not fit. */
  ghost predicate BreaksWord(s: string, w: Span, c: nat, begins: bool, budget: nat, cost: string -> nat)
    requires Inside(s, w)
  {
    Edge(w, c, begins) ||
    (Within(w, c) && cost(s[w.start..w.end]) > budget &&
     exists f :: IsFragment(s, w, f, budget, cost) && Edge(f, c, begins))
  }

  /** `c` is an edge of the sentence, or breaks a word of it when the sentence does not fit. */
  ghost predicate BreaksSentence(s: string, t: Span, c: nat, begins: bool, budget: nat, cost: string -> nat)
    requires Inside(s, t)
  {
    Edge(t, c, begins) ||
    (Within(t, c) && !Cheap(s, t, budget, cost) &&
     exists w :: IsWord(s, t, w) && BreaksWord(s, w, c, begins, budget, cost))
  }

  /** The paragraph does not fit, and `c` breaks a sentence of it. */
  ghost predicate BreaksParagraph(s: string, p: Span, c: nat, begins: bool, budget: nat, cost: string -> nat)
    requires Inside(s, p)
  {
    !Cheap(s, p, budget, cost) &&
    exists t :: IsSentence(s, p, t) && BreaksSentence(s, t, c, begins, budget, cost)
  }

  lemma EdgeOfWord(s: string, t: Span, w: Span, x: Span, c: nat, begins: bool, budget: nat, cost: string -> nat)
    requires IsWord(s, t, w) && WordPiece(s, w, x, budget, cost) && Edge(x, c, begins)
    ensures w.start <= x.start < x.end <= w.end && BreaksWord(s, w, c, begins, budget, cost)
  {
    hide Words, Fragments;
    WordInside(s, t, w);
    if cost(s[w.start..w.end]) > budget {
      FragmentInside(s, w, x, budget, cost);
    }
  }

  lemma EdgeOfSentence(s: string, t: Span, x: Span, c: nat, begins: bool, budget: nat, cost: string -> nat)
    requires Inside(s, t) && SentencePiece(s, t, x, budget, cost) && Edge(x, c, begins)
    ensures t.start <= x.start < x.end <= t.end && BreaksSentence(s, t, c, begins, budget, cost)
  {
    hide Words, WordPiece, BreaksWord, Cheap;
    if !Cheap(s, t, budget, cost) {
      var w :| IsWord(s, t, w) && WordPiece(s, w, x, budget, cost);
      WordInside(s, t, w);
      EdgeOfWord(s, t, w, x, c, begins, budget, cost);
    }
  }

  lemma EdgeOfParagraph(s: string, p: Span, x: Span, c: nat, begins: bool, budget: nat, cost: string -> nat)
    requires Inside(s, p) && ParagraphPiece(s, p, x, budget, cost) && Edge(x, c, begins)
    ensures p.start <= x.start < x.end <= p.end
    ensures Within(p, c) ==> BreaksParagraph(s, p, c, begins, budget, cost)
  {
    hide Sentences, SentencePiece, BreaksSentence, Cheap;
    if !Cheap(s, p, budget, cost) {
      var t :| IsSentence(s, p, t) && SentencePiece(s, t, x, budget, cost);
      SentenceInside(s, p, t);
      EdgeOfSentence(s, t, x, c, begins, budget, cost);
    }
  }

  lemma EdgeOfPiece(s: string, p: Span, x: Span, c: nat, begins: bool, budget: nat, cost: string -> nat)
    requires IsParagraph(s, p) && Within(p, c) && Piece(s, x, budget, cost) && Edge(x, c, begins)
    ensures BreaksParagraph(s, p, c, begins, budget, cost)
  {
    hide Paragraphs, ParagraphPiece, BreaksParagraph;
    var o :| IsParagraph(s, o) && ParagraphPiece(s, o, x, budget, cost);
    EdgeOfParagraph(s, o, x, c, begins, budget, cost);
    ParagraphInside(s, p, o);
  }

  /**
    A passage that begins, or ends, strictly inside a paragraph does so where the paragraph does not fit: at the
    edge of a sentence of it or, inside a sentence that does not fit, at the edge of a word or, inside a word that
    does not fit, of a fragment.
    */
  lemma CutsAreEdges(s: string, budget: nat, cost: string -> nat, q: Passage)
    requires q in Chunk(s, budget, cost)
    ensures forall p | IsParagraph(s, p) && Within(p, q.start) :: BreaksParagraph(s, p, q.start, true, budget, cost)
    ensures forall p | IsParagraph(s, p) && Within(p, q.end) :: BreaksParagraph(s, p, q.end, false, budget, cost)
  {
    hide Chunk, Piece, Paragraphs, BreaksParagraph;
    var b, e := PassageOfPieces(s, budget, cost, q);
    forall p | IsParagraph(s, p) && Within(p, q.start)
      ensures BreaksParagraph(s, p, q.start, true, budget, cost)
    {
      EdgeOfPiece(s, p, b, q.start, true, budget, cost);
    }
    forall p | IsParagraph(s, p) && Within(p, q.end)
      ensures BreaksParagraph(s, p, q.end, false, budget, cost)
    {
      EdgeOfPiece(s, p, e, q.end, false, budget, cost);
    }
  }

  // ---------------------------------------------------------------- fragments

  /** The character at `m` starts at or after half the bytes of `s[a..b]`, the half rounded down. */
  predicate PastHalf(s: string, a: nat, b: nat, m: nat)
    requires a <= m <= b <= |s|
  {
    |Encode(s[a..m])| >= |Encode(s[a..b])| / 2
  }

  lemma PastHalfIs(s: string, a: nat, b: nat, m: nat)
    requires a <= m <= b <= |s|
    ensures PastHalf(s, a, b, m) <==> ByteAt(s, m) >= HalfByte(s, a, b)
  {
    hide ByteAt, EncodeTo;
    EncodeSlice(s, a, m);
    EncodeSlice(s, a, b);
    HalfBytes(s, a, b);
  }

  /** A run that fits, or has no character inside that starts past half its bytes, stays whole. */
  lemma FragmentsWhole(s: string, a: nat, b: nat, budget: nat, cost: string -> nat)
    requires a < b <= |s|
    requires cost(s[a..b]) <= budget || forall m | a < m < b :: !PastHalf(s, a, b, m)
    ensures Fragments(s, a, b, budget, cost) == [Span(a, b)]
  {
    hide Fragments, FirstFrom, ByteAt, HalfByte, PastHalf;
    FragmentsUnfold(s, a, b, budget, cost);
    var split := FirstFrom(s, a, b, HalfByte(s, a, b));
    if a < split < b {
      PastHalfIs(s, a, b, split);
    }
  }

  /** Any other run is cut at the first such character, and each part likewise. */
  lemma FragmentsCut(s: string, a: nat, m: nat, b: nat, budget: nat, cost: string -> nat)
    requires a < m < b <= |s| && cost(s[a..b]) > budget
    requires PastHalf(s, a, b, m) && forall k | a < k < m :: !PastHalf(s, a, b, k)
    ensures Fragments(s, a, b, budget, cost) ==
            Fragments(s, a, m, budget, cost) + Fragments(s, m, b, budget, cost)
  {
    hide Fragments, FirstFrom, ByteAt, HalfByte, PastHalf;
    FragmentsUnfold(s, a, b, budget, cost);
    PastHalfIs(s, a, b, m);
    var split := FirstFrom(s, a, b, HalfByte(s, a, b));
    BeforeHalf(s, a, b);
    assert split <= m;
    if split < m {
      PastHalfIs(s, a, b, split);
    }
  }

  lemma BeforeHalf(s: string, a: nat, b: nat)
    requires a + 1 < b <= |s|
    ensures ByteAt(s, a) < HalfByte(s, a, b)
  {
    hide ByteAt;
    ByteAtMonotone(s, a, b);
    HalfBytes(s, a, b);
  }

  // ---------------------------------------------------------------- which grouping is taken

  lemma {:induction false} FeedRest(c: seq<seq<Unit>>, g: seq<Unit>, k: nat, budget: nat, cost: string -> nat)
    requires 0 < k <= |g| && Fits(g, budget, cost)
    ensures FeedAll(Packing(c, [g[0]]), g[1..k], budget, cost) == Packing(c, g[..k])
    decreases k
  {
    hide Cost, Fits;
    if k == 1 {
      assert g[1..1] == [] && g[..1] == [g[0]];
    } else {
      FeedRest(c, g, k - 1, budget, cost);
      assert g[1..k] == g[1..k - 1] + [g[k - 1]] && g[..k] == g[..k - 1] + [g[k - 1]];
      FeedAllSnoc(Packing(c, [g[0]]), g[1..k - 1], g[k - 1], budget, cost);
      CostSnoc(g[..k - 1], g[k - 1], cost);
      PrefixFits(g, k, budget, cost);
    }
  }

  /** Feeding a group that does not fit beside the open one closes that and leaves the group open. */
  lemma FeedNextGroup(p: Packing, g: seq<Unit>, budget: nat, cost: string -> nat)
    requires Fits(g, budget, cost) && (p.open == [] || Overfull(p.open, g, budget, cost))
    ensures FeedAll(p, g, budget, cost) == Packing(Closed(p), g)
  {
    hide Cost;
    assert g == [g[0]] + g[1..] && g[..|g|] == g && g[1..|g|] == g[1..];
    FeedAllConcat(p, [g[0]], g[1..], budget, cost);
    FeedAllOne(p, g[0], budget, cost);
    assert [] + [g[0]] == [g[0]];
    FeedRest(Closed(p), g, |g|, budget, cost);
  }

  lemma {:induction false} FeedGroups(gs: seq<seq<Unit>>, budget: nat, cost: string -> nat)
    requires AllFit(gs, budget, cost) && AllOverfull(gs, budget, cost)
    ensures var p := FeedAll(Packing([], []), Flatten(gs), budget, cost);
            Closed(p) == gs && p.open == if gs == [] then [] else gs[|gs| - 1]
    decreases |gs|
  {
    hide Cost, Overfull, Flatten, Feed;
    var start := Packing([], []);
    if gs == [] {
      FlattenNone();
      assert FeedAll(start, [], budget, cost) == start;
    } else {
      var init, g := gs[..|gs| - 1], gs[|gs| - 1];
      FeedGroups(init, budget, cost);
      assert gs == init + [g];
      FlattenSnoc(init, g);
      FeedAllConcat(start, Flatten(init), g, budget, cost);
      FeedNextGroup(FeedAll(start, Flatten(init), budget, cost), g, budget, cost);
    }
  }

  /**
    The groups are the one grouping of the units in which each group fits or is a single unit and the first unit of
    the next did not fit beside it.
    */
  lemma GroupsAreNextFit(s: string, budget: nat, cost: string -> nat, gs: seq<seq<Unit>>)
    ensures gs == Groups(s, budget, cost) <==>
            Flatten(gs) == AllUnits(s, budget, cost) && AllFit(gs, budget, cost) && AllOverfull(gs, budget, cost)
  {
    hide AllUnits, Flatten, FeedAll, AllFit, AllOverfull;
    GroupsKeepUnits(s, budget, cost);
    GroupsFit(s, budget, cost);
    if Flatten(gs) == AllUnits(s, budget, cost) && AllFit(gs, budget, cost) && AllOverfull(gs, budget, cost) {
      FeedGroups(gs, budget, cost);
    }
  }

  // ---------------------------------------------------------------- how a passage is made

  /** Where the text of unit `m` begins in the passage's text: one character separates neighbours. */
  function TextAt(us: seq<Unit>, m: nat): nat
    requires m <= |us|
  {
    if m == 0 then 0 else TextAt(us, m - 1) + |us[m - 1].text| + 1
  }

  lemma {:induction false} TextAtLocal(us: seq<Unit>, u: Unit, m: nat)
    requires m <= |us|
    ensures TextAt(us + [u], m) == TextAt(us, m)
    decreases m
  {
    if m > 0 {
      TextAtLocal(us, u, m - 1);
    }
  }

  predicate TextsNonEmpty(us: seq<Unit>) {
    forall i | 0 <= i < |us| :: us[i].text != ""
  }

  /** The text of unit `m` stands in `t`, behind a line feed when it begins a paragraph and a space when it does not. */
  predicate StandsIn(us: seq<Unit>, m: nat, t: string)
    requires m < |us|
  {
    var i := TextAt(us, m);
    && i + |us[m].text| <= |t|
    && t[i..i + |us[m].text|] == us[m].text
    && (m > 0 ==> i > 0 && t[i - 1] == if us[m].startsParagraph then '\n' else ' ')
  }

  lemma StandsInLonger(us: seq<Unit>, u: Unit, m: nat, t: string, v: string)
    requires m < |us| && StandsIn(us, m, t)
    ensures StandsIn(us + [u], m, t + v)
  {
    TextAtLocal(us, u, m);
    assert (us + [u])[m] == us[m];
    var i := TextAt(us, m);
    assert (t + v)[i..i + |us[m].text|] == t[i..i + |us[m].text|];
  }

  lemma LastStands(us: seq<Unit>, u: Unit, t: string)
    requires u.text != "" && if us == [] then t == "" else t != "" && |t| + 1 == TextAt(us, |us|)
    ensures var sep := if us == [] then "" else if u.startsParagraph then "\n" else " ";
            StandsIn(us + [u], |us|, t + sep + u.text) &&
            |t + sep + u.text| + 1 == TextAt(us + [u], |us| + 1)
  {
    TextAtLocal(us, u, |us|);
    assert (us + [u])[|us|] == u;
    var sep := if us == [] then "" else if u.startsParagraph then "\n" else " ";
    assert (t + sep + u.text)[|t + sep|..] == u.text;
  }

  lemma JoinUnfold(us: seq<Unit>, u: Unit)
    ensures Join(us + [u]) ==
            (if Join(us) == "" then "" else Join(us) + if u.startsParagraph then "\n" else " ") + u.text
  {
    assert (us + [u])[..|us|] == us;
  }

  /** A passage's text is laid out unit by unit, with one character between neighbours and nothing else. */
  lemma {:induction false} JoinLayout(us: seq<Unit>)
    requires us != [] && TextsNonEmpty(us)
    ensures |Join(us)| + 1 == TextAt(us, |us|)
    ensures forall m | 0 <= m < |us| :: StandsIn(us, m, Join(us))
    decreases |us|
  {
    hide Join, StandsIn, TextAt;
    var init, u := us[..|us| - 1], us[|us| - 1];
    assert us == init + [u];
    JoinUnfold(init, u);
    JoinNone();
    assert "" + "" + u.text == "" + u.text == u.text;
    if init == [] {
      LastStands(init, u, "");
    } else {
      JoinLayout(init);
      TextAtPositive(init);
      LastStands(init, u, Join(init));
      var sep := if u.startsParagraph then "\n" else " ";
      Regroup(Join(init), sep, u.text);
      forall m | 0 <= m < |init| ensures StandsIn(us, m, Join(us)) {
        StandsInLonger(init, u, m, Join(init), sep + u.text);
      }
    }
  }

  lemma JoinNone()
    ensures Join([]) == ""
  {
  }

  lemma TextAtPositive(us: seq<Unit>)
    requires us != [] && TextsNonEmpty(us)
    ensures TextAt(us, |us|) > 1
  {
    assert us[|us| - 1].text != "";
  }

  lemma Regroup(a: string, b: string, c: string)
    ensures a + b + c == a + (b + c)
  {
  }

  /** A cost is the sum over the units. */
  lemma CostIsSum(g: seq<Unit>, h: seq<Unit>, u: Unit, cost: string -> nat)
    ensures Cost([], cost) == 0 && Cost([u], cost) == cost(u.text)
    ensures Cost(g + h, cost) == Cost(g, cost) + Cost(h, cost)
  {
    hide Cost;
    CostNone(cost);
    OneUnit([u], cost);
    CostConcat(g, h, cost);
  }

  /** A passage carries the range, the summed cost and the joined text of its group. */
  predicate MadeOf(p: Passage, g: seq<Unit>, cost: string -> nat) {
    && g != []
    && p.start == g[0].start
    && p.end == g[|g| - 1].end
    && p.cost == Cost(g, cost)
    && |p.text| + 1 == TextAt(g, |g|)
    && forall m | 0 <= m < |g| :: StandsIn(g, m, p.text)
  }

  lemma GroupMakesPassage(s: string, g: seq<Unit>, cost: string -> nat)
    requires GroupOk(s, g)
    ensures MadeOf(PassageOf(g, cost), g, cost)
  {
    hide Join, StandsIn, TextAt, Cost, Tiles, IsWs;
    TextsOfUnits(s, g);
    JoinLayout(g);
  }

  lemma TextsOfUnits(s: string, g: seq<Unit>)
    requires UnitsOk(s, g)
    ensures TextsNonEmpty(g)
  {
    hide UnitOk;
    forall i | 0 <= i < |g| ensures g[i].text != "" {
      UnitNotEmpty(s, g[i]);
    }
  }

  lemma UnitNotEmpty(s: string, u: Unit)
    requires UnitOk(s, u)
    ensures u.text != ""
  {
    hide IsWs, CollapseTo;
    ChunkWords.UnitTidy(s, u);
  }

  lemma UnitMarked(s: string, budget: nat, cost: string -> nat, m: nat)
    requires m < |AllUnits(s, budget, cost)|
    ensures AllUnits(s, budget, cost)[m].startsParagraph <==>
            exists k: nat :: ParagraphAt(s, k, AllUnits(s, budget, cost)[m].start)
  {
    hide AllUnits, Paragraphs, Tiles, UnitsOk, Starts;
    var us := AllUnits(s, budget, cost);
    AllUnitsTile(s, budget, cost);
    TilesMeaning(s, 0, |s|, SpansOf(us));
    MarkedUnits(s, budget, cost, us[m].start);
    StartsAre(us, us[m].start);
    if us[m].startsParagraph {
      assert MarkedAt(us, m, us[m].start);
    }
    if us[m].start in Starts(us) {
      var j: nat :| MarkedAt(us, j, us[m].start);
      assert SpansOf(us)[j] == SpanOf(us[j]) && SpansOf(us)[m] == SpanOf(us[m]);
    }
  }

  /**
    What chunking is.  The units tile the body, their slices are exactly the pieces, each has the collapsed text of
    its slice and is marked when a paragraph begins there; the groups are next-fit; each passage is made of its group.
    */
  lemma ChunkMeaning(s: string, budget: nat, cost: string -> nat) returns (us: seq<Unit>, gs: seq<seq<Unit>>)
    requires budget > 0
    ensures Tiles(s, 0, |s|, SpansOf(us)) && UnitsOk(s, us)
    ensures forall x :: x in SpansOf(us) <==> Piece(s, x, budget, cost)
    ensures forall m | 0 <= m < |us| :: us[m].startsParagraph <==> exists k: nat :: ParagraphAt(s, k, us[m].start)
    ensures Flatten(gs) == us && AllFit(gs, budget, cost) && AllOverfull(gs, budget, cost)
    ensures |Chunk(s, budget, cost)| == |gs|
    ensures forall i | 0 <= i < |gs| :: MadeOf(Chunk(s, budget, cost)[i], gs[i], cost)
  {
    hide Tiles, UnitsOk, SpansOf, AllUnits, Piece, ParagraphAt, Flatten, AllFit, AllOverfull, MadeOf, Groups, GroupOk,
      Join, Cost;
    us, gs := AllUnits(s, budget, cost), Groups(s, budget, cost);
    AllUnitsTile(s, budget, cost);
    forall x ensures x in SpansOf(us) <==> Piece(s, x, budget, cost) {
      UnitsArePieces(s, budget, cost, x);
    }
    forall m | 0 <= m < |us| ensures us[m].startsParagraph <==> exists k: nat :: ParagraphAt(s, k, us[m].start) {
      UnitMarked(s, budget, cost, m);
    }
    GroupsAreNextFit(s, budget, cost, gs);
    GroupsOk(s, budget, cost);
    forall i | 0 <= i < |gs| ensures MadeOf(PassageOf(gs[i], cost), gs[i], cost) {
      GroupMakesPassage(s, gs[i], cost);
    }
    if s == "" {
      EmptyBody(budget, cost);
      NoGroups(gs, budget, cost);
    }
  }

  lemma SomeUnits(gs: seq<seq<Unit>>, budget: nat, cost: string -> nat)
    requires gs != [] && AllFit(gs, budget, cost)
    ensures Flatten(gs) != []
  {
    hide Cost;
    assert Fits(gs[|gs| - 1], budget, cost);
  }

  lemma NoGroups(gs: seq<seq<Unit>>, budget: nat, cost: string -> nat)
    requires Flatten(gs) == [] && AllFit(gs, budget, cost)
    ensures gs == []
  {
    hide AllFit, Flatten;
    if gs != [] {
      SomeUnits(gs, budget, cost);
    }
  }

  /** Budget 0 or an empty body gives nothing, and any other budget something for a body that is not all whitespace. */
  lemma ChunkNothing(s: string, budget: nat, cost: string -> nat)
    ensures Chunk(s, budget, cost) == [] <==> budget == 0 || AllWs(s, 0, |s|)
  {
    hide Groups, IsWs, Tiles;
    if budget > 0 && s != "" {
      PassagesTile(s, budget, cost);
      if Chunk(s, budget, cost) != [] {
        SomethingThere(s, budget, cost);
      }
    }
  }

  lemma SomethingThere(s: string, budget: nat, cost: string -> nat)
    requires budget > 0 && Chunk(s, budget, cost) != []
    ensures !AllWs(s, 0, |s|)
  {
    hide Chunk, Piece, IsWs, Tiles, AllUnits, UnitsOk, SpansOf;
    var x, y := PassageOfPieces(s, budget, cost, Chunk(s, budget, cost)[0]);
    UnitsArePieces(s, budget, cost, x);
    AllUnitsTile(s, budget, cost);
    PieceBegins(s, AllUnits(s, budget, cost), x);
  }

  lemma PieceBegins(s: string, us: seq<Unit>, x: Span)
    requires UnitsOk(s, us) && x in SpansOf(us)
    ensures x.start < |s| && !IsWs(s[x.start])
  {
    hide IsWs, CollapseTo;
    FoundAt(us, x);
  }
}
