/**
  What the chunker computes, on the characters of a body: the four splitting levels, the expansion
  of a unit that does not fit into finer ones, and next-fit packing.  Both chunkers are proved to
  compute these functions; what the functions guarantee is proved in `ChunkMeaning`, `ChunkTiling`,
  `ChunkCosts`, `ChunkWords`, `ChunkLineFeeds` and `ChunkLevels`.
  */
module ChunkSpec {
  import opened Utf8

  datatype Span = Span(start: nat, end: nat)

  datatype Unit = Unit(text: string, start: nat, end: nat, startsParagraph: bool)

  /** A passage; its range counts characters. */
  datatype Passage = Passage(text: string, start: nat, end: nat, cost: nat)

  datatype Level = Paragraph | Sentence | Word | Fragment

  /** Unicode `White_Space`. */
  predicate IsWs(c: char) {
    var n := c as int;
    0x09 <= n <= 0x0D || n == 0x20 || n == 0x85 || n == 0xA0 || n == 0x1680 || 0x2000 <= n <= 0x200A ||
    n == 0x2028 || n == 0x2029 || n == 0x202F || n == 0x205F || n == 0x3000
  }

  predicate IsBlankLineInner(c: char) {
    c == ' ' || c == '\t' || c == '\r'
  }

  predicate IsTerminator(c: char) {
    c == '.' || c == '!' || c == '?'
  }

  predicate AllWs(s: string, lo: nat, hi: nat)
    requires hi <= |s|
  {
    forall p | lo <= p < hi :: IsWs(s[p])
  }

  predicate NoWs(s: string, lo: nat, hi: nat)
    requires hi <= |s|
  {
    forall p | lo <= p < hi :: !IsWs(s[p])
  }

  // ---------------------------------------------------------------- text of a slice

  /** The first `k` characters of `t` with every whitespace run collapsed to one space. */
  function CollapseTo(t: string, k: nat): string
    requires k <= |t|
  {
    if k == 0 then ""
    else if !IsWs(t[k - 1]) then CollapseTo(t, k - 1) + [t[k - 1]]
    else if k == 1 || !IsWs(t[k - 2]) then CollapseTo(t, k - 1) + " "
    else CollapseTo(t, k - 1)
  }

  function Collapse(t: string): string {
    CollapseTo(t, |t|)
  }

  // ---------------------------------------------------------------- the splitters

  function TrimStart(s: string, a: nat, b: nat): (r: nat)
    requires a <= b <= |s|
    ensures a <= r <= b && AllWs(s, a, r) && (r < b ==> !IsWs(s[r]))
    decreases b - a
  {
    if a < b && IsWs(s[a]) then TrimStart(s, a + 1, b) else a
  }

  function TrimEnd(s: string, a: nat, b: nat): (r: nat)
    requires a <= b <= |s|
    ensures a <= r <= b && AllWs(s, r, b) && (a < r ==> !IsWs(s[r - 1]))
  {
    if a < b && IsWs(s[b - 1]) then TrimEnd(s, a, b - 1) else b
  }

  /** The slice without its outer whitespace, dropped when nothing is left. */
  function Trimmed(s: string, a: nat, b: nat): seq<Span>
    requires a <= b <= |s|
  {
    var x := TrimStart(s, a, b);
    var y := TrimEnd(s, x, b);
    if x < y then [Span(x, y)] else []
  }

  /** The first position at or after `j` that is not a space, tab or carriage return. */
  function SkipInner(s: string, j: nat): (r: nat)
    requires j <= |s|
    ensures j <= r <= |s| && (forall p | j <= p < r :: IsBlankLineInner(s[p]))
    ensures r < |s| ==> !IsBlankLineInner(s[r])
    decreases |s| - j
  {
    if j < |s| && IsBlankLineInner(s[j]) then SkipInner(s, j + 1) else j
  }

  /** A blank line starts at `i`: a line feed, then only inner blanks, then another line feed. */
  predicate BlankLineAt(s: string, i: nat)
    requires i < |s|
  {
    s[i] == '\n' && SkipInner(s, i + 1) < |s| && s[SkipInner(s, i + 1)] == '\n'
  }

  /** The paragraphs from `i` on, when the paragraph at hand began at `start`. */
  function ParagraphsFrom(s: string, start: nat, i: nat): seq<Span>
    requires start <= i <= |s|
    decreases |s| - i
  {
    if i == |s| then Trimmed(s, start, i)
    else if BlankLineAt(s, i) then
      var next := SkipInner(s, i + 1) + 1;
      Trimmed(s, start, i) + ParagraphsFrom(s, next, next)
    else ParagraphsFrom(s, start, i + 1)
  }

  function Paragraphs(s: string): seq<Span> {
    ParagraphsFrom(s, 0, 0)
  }

  /** A sentence of `s[..b]` ends with the character at `i`. */
  predicate SentenceEndsAt(s: string, b: nat, i: nat)
    requires i < b <= |s|
  {
    IsTerminator(s[i]) && i + 1 < b && IsWs(s[i + 1])
  }

  function SentencesFrom(s: string, b: nat, from: nat, i: nat): seq<Span>
    requires from <= i <= b <= |s|
    decreases b - i
  {
    if i == b then Trimmed(s, from, b)
    else if SentenceEndsAt(s, b, i) then Trimmed(s, from, i + 1) + SentencesFrom(s, b, i + 1, i + 1)
    else SentencesFrom(s, b, from, i + 1)
  }

  function Sentences(s: string, a: nat, b: nat): seq<Span>
    requires a <= b <= |s|
  {
    SentencesFrom(s, b, a, a)
  }

  function RunEnd(s: string, i: nat, b: nat): (r: nat)
    requires i <= b <= |s|
    ensures i <= r <= b && NoWs(s, i, r) && (r < b ==> IsWs(s[r]))
    decreases b - i
  {
    if i < b && !IsWs(s[i]) then RunEnd(s, i + 1, b) else i
  }

  /** The maximal runs of non-whitespace of `s[i..b]`. */
  function Words(s: string, i: nat, b: nat): seq<Span>
    requires i <= b <= |s|
    decreases b - i
  {
    var x := TrimStart(s, i, b);
    if x == b then [] else [Span(x, RunEnd(s, x, b))] + Words(s, RunEnd(s, x, b), b)
  }

  /** The first character at or after `k` that starts at or after byte `half`, else `b`. */
  function FirstFrom(s: string, k: nat, b: nat, half: nat): (r: nat)
    requires k <= b <= |s|
    ensures k <= r <= b && (r < b ==> half <= ByteAt(s, r))
    ensures forall m | k <= m < r :: ByteAt(s, m) < half
    decreases b - k
  {
    if k < b && ByteAt(s, k) < half then FirstFrom(s, k + 1, b, half) else k
  }

  /** Half the bytes of `s[a..b]`, rounded down, as an offset in `s`. */
  function HalfByte(s: string, a: nat, b: nat): nat
    requires a <= b <= |s|
  {
    ByteAtMonotone(s, a, b);
    ByteAt(s, a) + (ByteAt(s, b) - ByteAt(s, a)) / 2
  }

  function Fragments(s: string, a: nat, b: nat, budget: nat, cost: string -> nat): (r: seq<Span>)
    requires a <= b <= |s|
    ensures |r| >= 1
    decreases b - a
  {
    var split := FirstFrom(s, a, b, HalfByte(s, a, b));
    if cost(s[a..b]) <= budget || b - a <= 1 || split == a || split == b then [Span(a, b)]
    else Fragments(s, a, split, budget, cost) + Fragments(s, split, b, budget, cost)
  }

  lemma FirstFromStep(s: string, k: nat, b: nat, half: nat)
    requires k <= b <= |s|
    ensures k < b && ByteAt(s, k) < half ==> FirstFrom(s, k, b, half) == FirstFrom(s, k + 1, b, half)
    ensures k == b || ByteAt(s, k) >= half ==> FirstFrom(s, k, b, half) == k
  {
  }

  lemma FragmentsUnfold(s: string, a: nat, b: nat, budget: nat, cost: string -> nat)
    requires a <= b <= |s|
    ensures var split := FirstFrom(s, a, b, HalfByte(s, a, b));
            Fragments(s, a, b, budget, cost) ==
            if cost(s[a..b]) <= budget || b - a <= 1 || split == a || split == b then [Span(a, b)]
            else Fragments(s, a, split, budget, cost) + Fragments(s, split, b, budget, cost)
  {
  }

  lemma HalfBytes(s: string, a: nat, b: nat)
    requires a <= b <= |s|
    ensures ByteAt(s, a) <= ByteAt(s, b) && HalfByte(s, a, b) == ByteAt(s, a) + (ByteAt(s, b) - ByteAt(s, a)) / 2
  {
    ByteAtMonotone(s, a, b);
  }

  // ---------------------------------------------------------------- expansion

  predicate SpansIn(s: string, spans: seq<Span>) {
    forall k | 0 <= k < |spans| :: spans[k].start <= spans[k].end <= |s|
  }

  predicate UnitIn(s: string, u: Unit) {
    u.start <= u.end <= |s|
  }

  function SliceText(s: string, span: Span, level: Level): string
    requires span.start <= span.end <= |s|
  {
    if level == Paragraph || level == Sentence then Collapse(s[span.start..span.end])
    else s[span.start..span.end]
  }

  /** The units of a list of slices; only the first can begin a paragraph. */
  function UnitsOf(s: string, spans: seq<Span>, level: Level, starts: bool): (us: seq<Unit>)
    requires SpansIn(s, spans)
    ensures |us| == |spans|
    ensures forall k | 0 <= k < |us| ::
            us[k] == Unit(SliceText(s, spans[k], level), spans[k].start, spans[k].end, starts && k == 0)
  {
    seq(|spans|, k requires 0 <= k < |spans| && SpansIn(s, spans) =>
      Unit(SliceText(s, spans[k], level), spans[k].start, spans[k].end, starts && k == 0))
  }

  function Rank(level: Level): nat {
    match level
    case Paragraph => 3
    case Sentence => 2
    case Word => 1
    case Fragment => 0
  }

  function Finer(level: Level): Level
    requires level != Fragment
  {
    match level
    case Paragraph => Sentence
    case Sentence => Word
    case Word => Fragment
  }

  function FinerSpans(s: string, budget: nat, cost: string -> nat, u: Unit, level: Level): (r: seq<Span>)
    requires UnitIn(s, u) && level != Fragment
    ensures SpansIn(s, r)
  {
    match level
    case Paragraph => SentencesInside(s, u.end, u.start, u.start); Sentences(s, u.start, u.end)
    case Sentence => WordsInside(s, u.start, u.end); Words(s, u.start, u.end)
    case Word => FragmentsInside(s, u.start, u.end, budget, cost); Fragments(s, u.start, u.end, budget, cost)
  }

  /** The finer units that replace a unit too dear to fit alone. */
  function FinerUnits(s: string, budget: nat, cost: string -> nat, u: Unit, level: Level): (us: seq<Unit>)
    requires UnitIn(s, u) && level != Fragment
    ensures forall k | 0 <= k < |us| :: UnitIn(s, us[k])
  {
    UnitsOf(s, FinerSpans(s, budget, cost, u, level), Finer(level), u.startsParagraph)
  }

  /** The units a unit is packed as: itself when it fits or nothing is finer, else the expansion of its finer units. */
  function Expand(s: string, budget: nat, cost: string -> nat, u: Unit, level: Level): seq<Unit>
    requires UnitIn(s, u)
    decreases Rank(level), 0
  {
    if cost(u.text) <= budget || level == Fragment then [u]
    else
      var finer := FinerUnits(s, budget, cost, u, level);
      if level == Word && |finer| == 1 then [u]
      else ExpandTo(s, budget, cost, finer, Finer(level), |finer|)
  }

  function ExpandTo(s: string, budget: nat, cost: string -> nat, us: seq<Unit>, level: Level, k: nat): seq<Unit>
    requires k <= |us| && forall i | 0 <= i < |us| :: UnitIn(s, us[i])
    decreases Rank(level), 1 + k
  {
    if k == 0 then [] else ExpandTo(s, budget, cost, us, level, k - 1) + Expand(s, budget, cost, us[k - 1], level)
  }

  /** One unfolding of `Expand`, by level. */
  lemma ExpandUnfold(s: string, budget: nat, cost: string -> nat, u: Unit, level: Level)
    requires UnitIn(s, u)
    ensures cost(u.text) <= budget || level == Fragment ==> Expand(s, budget, cost, u, level) == [u]
    ensures cost(u.text) > budget && level != Fragment ==>
              var finer := FinerUnits(s, budget, cost, u, level);
              Expand(s, budget, cost, u, level) ==
              if level == Word && |finer| == 1 then [u] else ExpandTo(s, budget, cost, finer, Finer(level), |finer|)
  {
  }

  lemma ExpandToUnfold(s: string, budget: nat, cost: string -> nat, us: seq<Unit>, level: Level, k: nat)
    requires k < |us| && forall i | 0 <= i < |us| :: UnitIn(s, us[i])
    ensures ExpandTo(s, budget, cost, us, level, k + 1) ==
            ExpandTo(s, budget, cost, us, level, k) + Expand(s, budget, cost, us[k], level)
  {
  }

  function ParagraphUnits(s: string): (us: seq<Unit>)
    ensures forall k | 0 <= k < |us| :: UnitIn(s, us[k])
  {
    ParagraphsInside(s, 0, 0);
    var spans := Paragraphs(s);
    seq(|spans|, k requires 0 <= k < |spans| && SpansIn(s, spans) =>
      Unit(Collapse(s[spans[k].start..spans[k].end]), spans[k].start, spans[k].end, true))
  }

  /** Every unit the packer is given, in order. */
  function AllUnits(s: string, budget: nat, cost: string -> nat): seq<Unit> {
    var us := ParagraphUnits(s);
    ExpandTo(s, budget, cost, us, Paragraph, |us|)
  }

  // ---------------------------------------------------------------- packing

  /** Next-fit: the closed passages' units, and the units of the passage being filled. */
  datatype Packing = Packing(closed: seq<seq<Unit>>, open: seq<Unit>)

  function Cost(us: seq<Unit>, cost: string -> nat): nat {
    if us == [] then 0 else Cost(us[..|us| - 1], cost) + cost(us[|us| - 1].text)
  }

  function Close(p: Packing): Packing {
    if p.open == [] then p else Packing(p.closed + [p.open], [])
  }

  function Feed(p: Packing, u: Unit, budget: nat, cost: string -> nat): Packing {
    var q := if p.open != [] && Cost(p.open, cost) + cost(u.text) > budget then Close(p) else p;
    q.(open := q.open + [u])
  }

  function FeedAll(p: Packing, us: seq<Unit>, budget: nat, cost: string -> nat): Packing {
    if us == [] then p else Feed(FeedAll(p, us[..|us| - 1], budget, cost), us[|us| - 1], budget, cost)
  }

  /** Units joined by a space, or by a line feed where a paragraph begins. */
  function Join(us: seq<Unit>): string {
    if us == [] then ""
    else
      var u := us[|us| - 1];
      var t := Join(us[..|us| - 1]);
      (if t == "" then "" else t + (if u.startsParagraph then "\n" else " ")) + u.text
  }

  function PassageOf(g: seq<Unit>, cost: string -> nat): Passage
    requires g != []
  {
    Passage(Join(g), g[0].start, g[|g| - 1].end, Cost(g, cost))
  }

  predicate NonEmptyGroups(gs: seq<seq<Unit>>) {
    forall i | 0 <= i < |gs| :: gs[i] != []
  }

  function PassagesOf(gs: seq<seq<Unit>>, cost: string -> nat): (ps: seq<Passage>)
    requires NonEmptyGroups(gs)
    ensures |ps| == |gs| && forall i | 0 <= i < |gs| :: ps[i] == PassageOf(gs[i], cost)
  {
    seq(|gs|, i requires 0 <= i < |gs| && NonEmptyGroups(gs) => PassageOf(gs[i], cost))
  }

  /** The unit groups of the passages. */
  function Groups(s: string, budget: nat, cost: string -> nat): (gs: seq<seq<Unit>>)
    ensures NonEmptyGroups(gs)
  {
    FeedAllNonEmpty(Packing([], []), AllUnits(s, budget, cost), budget, cost);
    Close(FeedAll(Packing([], []), AllUnits(s, budget, cost), budget, cost)).closed
  }

  function Chunk(s: string, budget: nat, cost: string -> nat): seq<Passage> {
    if budget == 0 || s == "" then [] else PassagesOf(Groups(s, budget, cost), cost)
  }

  // ---------------------------------------------------------------- well-formedness

  lemma ParagraphsInside(s: string, start: nat, i: nat)
    requires start <= i <= |s|
    ensures SpansIn(s, ParagraphsFrom(s, start, i))
    decreases |s| - i
  {
  }

  lemma SentencesInside(s: string, b: nat, from: nat, i: nat)
    requires from <= i <= b <= |s|
    ensures SpansIn(s, SentencesFrom(s, b, from, i))
    decreases b - i
  {
  }

  lemma WordsInside(s: string, i: nat, b: nat)
    requires i <= b <= |s|
    ensures SpansIn(s, Words(s, i, b))
    decreases b - i
  {
  }

  lemma FragmentsInside(s: string, a: nat, b: nat, budget: nat, cost: string -> nat)
    requires a <= b <= |s|
    ensures SpansIn(s, Fragments(s, a, b, budget, cost))
    decreases b - a
  {
  }

  lemma FeedAllNonEmpty(p: Packing, us: seq<Unit>, budget: nat, cost: string -> nat)
    requires NonEmptyGroups(p.closed)
    ensures NonEmptyGroups(FeedAll(p, us, budget, cost).closed)
  {
  }

  lemma FeedAllSnoc(p: Packing, us: seq<Unit>, u: Unit, budget: nat, cost: string -> nat)
    ensures FeedAll(p, us + [u], budget, cost) == Feed(FeedAll(p, us, budget, cost), u, budget, cost)
  {
    assert (us + [u])[..|us|] == us;
  }

  lemma FeedAllOne(p: Packing, u: Unit, budget: nat, cost: string -> nat)
    ensures FeedAll(p, [u], budget, cost) == Feed(p, u, budget, cost)
  {
    assert [u][..0] == [];
  }

  /** Feeding the expansion of one more unit. */
  lemma FeedExpansion(s: string, p: Packing, us: seq<Unit>, level: Level, k: nat, budget: nat, cost: string -> nat)
    requires k < |us| && forall i | 0 <= i < |us| :: UnitIn(s, us[i])
    ensures FeedAll(p, ExpandTo(s, budget, cost, us, level, k + 1), budget, cost) ==
            FeedAll(FeedAll(p, ExpandTo(s, budget, cost, us, level, k), budget, cost),
              Expand(s, budget, cost, us[k], level), budget, cost)
  {
    ExpandToUnfold(s, budget, cost, us, level, k);
    FeedAllConcat(p, ExpandTo(s, budget, cost, us, level, k), Expand(s, budget, cost, us[k], level), budget, cost);
  }

  lemma FeedNothing(s: string, p: Packing, us: seq<Unit>, level: Level, budget: nat, cost: string -> nat)
    requires forall i | 0 <= i < |us| :: UnitIn(s, us[i])
    ensures FeedAll(p, ExpandTo(s, budget, cost, us, level, 0), budget, cost) == p
  {
  }

  lemma {:induction false} FeedAllConcat(p: Packing, a: seq<Unit>, b: seq<Unit>, budget: nat, cost: string -> nat)
    ensures FeedAll(p, a + b, budget, cost) == FeedAll(FeedAll(p, a, budget, cost), b, budget, cost)
    decreases |b|
  {
    if b == [] {
      assert a + b == a;
    } else {
      var init, last := b[..|b| - 1], b[|b| - 1];
      assert b == init + [last] && a + b == (a + init) + [last];
      FeedAllConcat(p, a, init, budget, cost);
      FeedAllSnoc(p, a + init, last, budget, cost);
      FeedAllSnoc(FeedAll(p, a, budget, cost), init, last, budget, cost);
    }
  }

  // ---------------------------------------------------------------- staying inside the body

  predicate UnitsIn(s: string, us: seq<Unit>) {
    forall i | 0 <= i < |us| :: UnitIn(s, us[i])
  }

  predicate PackingIn(s: string, p: Packing) {
    UnitsIn(s, p.open) && forall i | 0 <= i < |p.closed| :: p.closed[i] != [] && UnitsIn(s, p.closed[i])
  }

  predicate PassagesIn(s: string, ps: seq<Passage>) {
    forall i | 0 <= i < |ps| :: ps[i].start <= |s| && ps[i].end <= |s|
  }

  lemma {:induction false} ExpandInside(s: string, budget: nat, cost: string -> nat, u: Unit, level: Level)
    requires UnitIn(s, u)
    ensures UnitsIn(s, Expand(s, budget, cost, u, level))
    decreases Rank(level), 0
  {
    if cost(u.text) > budget && level != Fragment {
      var finer := FinerUnits(s, budget, cost, u, level);
      ExpandToInside(s, budget, cost, finer, Finer(level), |finer|);
    }
  }

  lemma {:induction false} ExpandToInside(s: string, budget: nat, cost: string -> nat, us: seq<Unit>, level: Level,
                                          k: nat)
    requires k <= |us| && UnitsIn(s, us)
    ensures UnitsIn(s, ExpandTo(s, budget, cost, us, level, k))
    decreases Rank(level), 1 + k
  {
    if k > 0 {
      ExpandToInside(s, budget, cost, us, level, k - 1);
      ExpandInside(s, budget, cost, us[k - 1], level);
    }
  }

  lemma FeedInside(s: string, p: Packing, u: Unit, budget: nat, cost: string -> nat)
    requires PackingIn(s, p) && UnitIn(s, u)
    ensures PackingIn(s, Feed(p, u, budget, cost)) && Feed(p, u, budget, cost).open != []
  {
  }

  lemma {:induction false} FeedAllInside(s: string, p: Packing, us: seq<Unit>, budget: nat, cost: string -> nat)
    requires PackingIn(s, p) && UnitsIn(s, us)
    ensures PackingIn(s, FeedAll(p, us, budget, cost))
    decreases |us|
  {
    if us != [] {
      FeedAllInside(s, p, us[..|us| - 1], budget, cost);
      FeedInside(s, FeedAll(p, us[..|us| - 1], budget, cost), us[|us| - 1], budget, cost);
    }
  }

  lemma ChunkInside(s: string, budget: nat, cost: string -> nat)
    ensures PassagesIn(s, Chunk(s, budget, cost))
  {
    var us := ParagraphUnits(s);
    ExpandToInside(s, budget, cost, us, Paragraph, |us|);
    FeedAllInside(s, Packing([], []), AllUnits(s, budget, cost), budget, cost);
  }
}
