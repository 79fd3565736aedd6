/**
  The engine's chunker, which works on the UTF-8 bytes of a body.  `s` is always the text of the
  bytes, and `a`, `b`, `k` the characters at the byte offsets a method is given: they are ghosts
  that tie every method to what `ChunkSpec` computes on characters.
  */
module RustChunker {
  import opened Utf8
  import opened ChunkSpec
  import Spec = ChunkSpec

  datatype RsPassage = RsPassage(text: seq<Byte>, byteRange: (nat, nat), cost: nat)

  datatype RsUnit = RsUnit(text: seq<Byte>, start: nat, end: nat, startsParagraph: bool)

  /** The price of a text, given the price of its bytes. */
  function OnText(cost: seq<Byte> -> nat): string -> nat {
    (t: string) => cost(Encode(t))
  }

  function UnitBytes(s: string, u: Unit): RsUnit
    requires UnitIn(s, u)
  {
    RsUnit(Encode(u.text), ByteAt(s, u.start), ByteAt(s, u.end), u.startsParagraph)
  }

  function UnitsBytes(s: string, us: seq<Unit>): (r: seq<RsUnit>)
    requires UnitsIn(s, us)
    ensures |r| == |us| && forall i | 0 <= i < |us| :: r[i] == UnitBytes(s, us[i])
  {
    seq(|us|, i requires 0 <= i < |us| && UnitsIn(s, us) => UnitBytes(s, us[i]))
  }

  function SpanBytes(s: string, span: Span): Span
    requires span.start <= span.end <= |s|
  {
    Span(ByteAt(s, span.start), ByteAt(s, span.end))
  }

  function SpansBytes(s: string, spans: seq<Span>): (r: seq<Span>)
    requires SpansIn(s, spans)
    ensures |r| == |spans| && forall i | 0 <= i < |spans| :: r[i] == SpanBytes(s, spans[i])
  {
    seq(|spans|, i requires 0 <= i < |spans| && SpansIn(s, spans) => SpanBytes(s, spans[i]))
  }

  lemma SpansBytesConcat(s: string, x: seq<Span>, y: seq<Span>)
    requires SpansIn(s, x) && SpansIn(s, y)
    ensures SpansIn(s, x + y)
    ensures SpansBytes(s, x + y) == SpansBytes(s, x) + SpansBytes(s, y)
  {
  }

  /** A passage as the engine reports it: its text and its range in bytes. */
  function Report(s: string, p: Passage): RsPassage
    requires p.start <= |s| && p.end <= |s|
  {
    RsPassage(Encode(p.text), (ByteAt(s, p.start), ByteAt(s, p.end)), p.cost)
  }

  function ReportAll(s: string, ps: seq<Passage>): (r: seq<RsPassage>)
    requires PassagesIn(s, ps)
    ensures |r| == |ps| && forall i | 0 <= i < |ps| :: r[i] == Report(s, ps[i])
  {
    seq(|ps|, i requires 0 <= i < |ps| && PassagesIn(s, ps) => Report(s, ps[i]))
  }

  // ---------------------------------------------------------------- `str` methods

  /** `start..end` are the bytes of the characters `a..b` of `s`. */
  predicate IsSlice(body: seq<Byte>, s: string, start: nat, end: nat, a: nat, b: nat) {
    a <= b <= |s| && body == Encode(s) && start == ByteAt(s, a) && end == ByteAt(s, b)
  }

  /** `str::trim_start`, as the offset of what it keeps. */
  method TrimStartBytes(body: seq<Byte>, start: nat, end: nat, ghost s: string, ghost a: nat, ghost b: nat)
    returns (r: nat)
    requires IsSlice(body, s, start, end, a, b)
    ensures r == ByteAt(s, TrimStart(s, a, b))
  {
    hide IsWs, Encode, CharAt, CharStartsAt;
    r := start;
    ghost var k := a;
    ByteAtOrder(s, a, b);
    while r < end
      invariant a <= k <= b && r == ByteAt(s, k) && r <= end
      invariant TrimStart(s, k, b) == TrimStart(s, a, b)
      decreases end - r
    {
      ByteAtOrder(s, k, b);
      CharAtOffset(s, k);
      ByteAtMonotone(s, k + 1, b);
      if !IsWs(CharAt(body, r)) {
        break;
      }
      r, k := r + LeadWidth(body[r]), k + 1;
    }
    ByteAtOrder(s, k, b);
  }

  /** `str::trim_end`, as the offset of what it cuts off. */
  method TrimEndBytes(body: seq<Byte>, start: nat, end: nat, ghost s: string, ghost a: nat, ghost b: nat)
    returns (r: nat)
    requires IsSlice(body, s, start, end, a, b)
    ensures r == ByteAt(s, TrimEnd(s, a, b))
  {
    hide IsWs, Encode, CharAt, CharStartsAt;
    r := end;
    ghost var k := b;
    ByteAtMonotone(s, a, b);
    while r > start
      invariant a <= k <= b && r == ByteAt(s, k) && r >= start
      invariant TrimEnd(s, a, k) == TrimEnd(s, a, b)
      decreases r
    {
      ByteAtOrder(s, a, k);
      CharAtOffset(s, k - 1);
      ByteAtMonotone(s, a, k - 1);
      var j := r - 1;
      while IsContinuation(body[j])
        invariant ByteAt(s, k - 1) <= j < r <= |body|
        decreases j
      {
        j := j - 1;
      }
      if !IsWs(CharAt(body, j)) {
        break;
      }
      r, k := j, k - 1;
    }
    ByteAtOrder(s, a, k);
  }

  /** `str::chars().count()`: the bytes that begin a character. */
  function CharCount(b: seq<Byte>): nat {
    if b == [] then 0 else CharCount(b[..|b| - 1]) + if IsContinuation(b[|b| - 1]) then 0 else 1
  }

  lemma {:induction false} CharCountConcat(x: seq<Byte>, y: seq<Byte>)
    ensures CharCount(x + y) == CharCount(x) + CharCount(y)
    decreases |y|
  {
    if y == [] {
      assert x + y == x;
    } else {
      assert (x + y)[..|x + y| - 1] == x + y[..|y| - 1];
      CharCountConcat(x, y[..|y| - 1]);
    }
  }

  lemma CharCountOne(c: char)
    ensures CharCount(EncodeChar(c)) == 1
  {
    EncodeCharDecodes(c);
    var e := EncodeChar(c);
    CharCountTail(e, |e|);
    assert e[..|e|] == e;
  }

  lemma {:induction false} CharCountTail(e: seq<Byte>, k: nat)
    requires 1 <= k <= |e| && !IsContinuation(e[0]) && forall i | 1 <= i < |e| :: IsContinuation(e[i])
    ensures CharCount(e[..k]) == 1
    decreases k
  {
    assert e[..k][..k - 1] == e[..k - 1];
    if k > 1 {
      CharCountTail(e, k - 1);
    }
  }

  lemma CharCountNone()
    ensures CharCount([]) == 0
  {
  }

  lemma {:induction false} CharCountEncode(s: string, k: nat)
    requires k <= |s|
    ensures CharCount(EncodeTo(s, k)) == k
    decreases k
  {
    hide CharCount, EncodeChar, Width;
    CharCountNone();
    if k > 0 {
      CharCountEncode(s, k - 1);
      CharCountConcat(EncodeTo(s, k - 1), EncodeChar(s[k - 1]));
      CharCountOne(s[k - 1]);
    }
  }

  // ---------------------------------------------------------------- the splitters

  method PushTrimmed(body: seq<Byte>, start: nat, end: nat, out: seq<Span>, ghost s: string, ghost a: nat, ghost b: nat)
    returns (r: seq<Span>)
    requires IsSlice(body, s, start, end, a, b)
    ensures SpansIn(s, Trimmed(s, a, b))
    ensures r == out + SpansBytes(s, Trimmed(s, a, b))
  {
    hide TrimStart, TrimEnd, ByteAt;
    var x := TrimStartBytes(body, start, end, s, a, b);
    ghost var cx := TrimStart(s, a, b);
    var y := TrimEndBytes(body, x, end, s, cx, b);
    ByteAtOrder(s, cx, TrimEnd(s, cx, b));
    r := if x < y then out + [Span(x, y)] else out;
  }

  predicate IsInnerByte(b: Byte) {
    b == ' ' as int || b == '\t' as int || b == '\r' as int
  }

  lemma InnerByteAt(s: string, k: nat)
    requires k < |s|
    ensures ByteAt(s, k) < |Encode(s)|
    ensures IsInnerByte(Encode(s)[ByteAt(s, k)]) <==> IsBlankLineInner(s[k])
    ensures IsBlankLineInner(s[k]) ==> Width(s[k]) == 1
  {
    hide Encode, ByteAt;
    AsciiAt(s, k, ' ');
    AsciiAt(s, k, '\t');
    AsciiAt(s, k, '\r');
  }

  method SkipInnerBytes(body: seq<Byte>, from: nat, ghost s: string, ghost k: nat) returns (j: nat)
    requires k <= |s| && body == Encode(s) && from == ByteAt(s, k)
    ensures j == ByteAt(s, SkipInner(s, k)) && j <= |body|
    ensures (j < |body| && body[j] == '\n' as int) <==> (SkipInner(s, k) < |s| && s[SkipInner(s, k)] == '\n')
  {
    hide Encode, ByteAt, IsBlankLineInner, IsInnerByte, Width;
    j := from;
    ghost var m := k;
    ByteAtMonotone(s, k, |s|);
    while j < |body|
      invariant k <= m <= |s| && j == ByteAt(s, m) <= |body|
      invariant SkipInner(s, m) == SkipInner(s, k)
    {
      ByteAtOrder(s, m, |s|);
      InnerByteAt(s, m);
      ByteAtStep(s, m);
      if !IsInnerByte(body[j]) {
        break;
      }
      ByteAtMonotone(s, m + 1, |s|);
      j, m := j + 1, m + 1;
    }
    ByteAtOrder(s, m, |s|);
    if m < |s| {
      AsciiAt(s, m, '\n');
    }
  }

  method SplitParagraphs(body: seq<Byte>, ghost s: string) returns (out: seq<Span>)
    requires body == Encode(s)
    ensures SpansIn(s, Spec.Paragraphs(s))
    ensures out == SpansBytes(s, Spec.Paragraphs(s))
  {
    hide Encode, ByteAt, SkipInner, Trimmed, Width, SpansBytes, ParagraphsFrom, CharAt, CharStartsAt, EncodeTo, SpansIn,
         LeadWidth, IsScalar, ScalarAt, EncodeChar, IsBlankLineInner, IsContinuation, TrimStart, TrimEnd, IsWs;
    ParagraphsInside(s, 0, 0);
    out := [];
    var start, i := 0, 0;
    // The paragraph at hand begins at character `a`; `i` is inside or at the end of character `k - 1`.
    ghost var a: nat, k: nat := 0, 0;
    ByteAtZero(s);
    while i < |body|
      invariant a <= k <= |s| && start == ByteAt(s, a) && i <= ByteAt(s, k) <= |body|
      invariant k > 0 ==> ByteAt(s, k - 1) < i
      invariant SpansIn(s, ParagraphsFrom(s, a, k))
      invariant out + SpansBytes(s, ParagraphsFrom(s, a, k)) == SpansBytes(s, Spec.Paragraphs(s))
      decreases |body| - i
    {
      NewlineByte(s, k, i);
      ParagraphsStep(s, a, k);
      if body[i] == '\n' as int {
        var j := SkipInnerBytes(body, i + 1, s, k + 1);
        if j < |body| && body[j] == '\n' as int {
          ghost var next := SkipInner(s, k + 1) + 1;
          NextParagraph(s, a, k, next);
          Regroup(out, SpansBytes(s, Trimmed(s, a, k)), SpansBytes(s, ParagraphsFrom(s, next, next)));
          out := PushTrimmed(body, start, i, out, s, a, k);
          start, i := j + 1, j + 1;
          a, k := next, next;
          continue;
        }
      }
      if i == ByteAt(s, k) {
        k := k + 1;
      }
      i := i + 1;
    }
    ByteAtOrder(s, k, |s|);
    ParagraphsStep(s, a, k);
    out := PushTrimmed(body, start, |body|, out, s, a, |s|);
  }

  /** Where a byte that may be a line feed stands: at the offset of a character, or inside one and then it is none. */
  lemma NewlineByte(s: string, k: nat, i: nat)
    requires k <= |s| && i < |Encode(s)| && i <= ByteAt(s, k) && (k > 0 ==> ByteAt(s, k - 1) < i)
    ensures i < ByteAt(s, k) ==> k > 0 && Encode(s)[i] != '\n' as int
    ensures i == ByteAt(s, k) ==>
            k < |s| && (Encode(s)[i] == '\n' as int <==> s[k] == '\n') && i < ByteAt(s, k + 1) <= |Encode(s)|
    ensures i == ByteAt(s, k) && s[k] == '\n' ==> ByteAt(s, k + 1) == i + 1
  {
    hide Encode, ByteAt, CharAt, CharStartsAt, EncodeTo, LeadWidth, IsScalar, ScalarAt;
    if i == ByteAt(s, k) {
      EncodeLength(s);
      ByteAtOrder(s, k, |s|);
      AsciiAt(s, k, '\n');
      ByteAtStep(s, k);
      ByteAtMonotone(s, k + 1, |s|);
    } else {
      ByteAtZero(s);
      CharAtOffset(s, k - 1);
    }
  }

  lemma Regroup<T>(a: seq<T>, b: seq<T>, c: seq<T>)
    ensures a + (b + c) == (a + b) + c
  {
  }

  lemma EncodeLength(s: string)
    ensures |Encode(s)| == ByteAt(s, |s|)
  {
  }

  /** After a blank line the next paragraph begins behind its second line feed. */
  lemma NextParagraph(s: string, a: nat, k: nat, next: nat)
    requires a <= k < |s| && BlankLineAt(s, k) && next == SkipInner(s, k + 1) + 1
    ensures k < next <= |s| && ByteAt(s, k) < ByteAt(s, next - 1)
    ensures ByteAt(s, next) == ByteAt(s, next - 1) + 1 <= |Encode(s)|
    ensures SpansIn(s, Trimmed(s, a, k)) && SpansIn(s, ParagraphsFrom(s, next, next)) &&
            SpansIn(s, ParagraphsFrom(s, a, k))
    ensures SpansBytes(s, ParagraphsFrom(s, a, k)) ==
            SpansBytes(s, Trimmed(s, a, k)) + SpansBytes(s, ParagraphsFrom(s, next, next))
  {
    hide Encode, ByteAt, SkipInner, Trimmed, SpansBytes, SpansIn, ParagraphsFrom, IsBlankLineInner, Width;
    NextOffset(s, k);
    ParagraphsStep(s, a, k);
    TrimmedInside(s, a, k);
    SpansBytesConcat(s, Trimmed(s, a, k), ParagraphsFrom(s, next, next));
  }

  lemma NextOffset(s: string, k: nat)
    requires k < |s| && BlankLineAt(s, k)
    ensures var next := SkipInner(s, k + 1) + 1;
            k < next <= |s| && ByteAt(s, k) < ByteAt(s, next - 1) &&
              ByteAt(s, next) == ByteAt(s, next - 1) + 1 <= |Encode(s)|
  {
    hide Encode, ByteAt, SkipInner, IsBlankLineInner, Width;
    var next := SkipInner(s, k + 1) + 1;
    ByteAtOrder(s, k, next - 1);
    ByteAtStep(s, next - 1);
    NewlineWidth();
    ByteAtMonotone(s, next, |s|);
    EncodeLength(s);
  }

  lemma TrimmedInside(s: string, a: nat, b: nat)
    requires a <= b <= |s|
    ensures SpansIn(s, Trimmed(s, a, b))
  {
  }

  lemma NewlineWidth()
    ensures Width('\n') == 1
  {
  }

  lemma ParagraphsStep(s: string, a: nat, k: nat)
    requires a <= k <= |s|
    ensures SpansIn(s, ParagraphsFrom(s, a, k))
    ensures k == |s| ==> ParagraphsFrom(s, a, k) == Trimmed(s, a, k)
    ensures k < |s| && !BlankLineAt(s, k) ==> ParagraphsFrom(s, a, k) == ParagraphsFrom(s, a, k + 1)
    ensures k < |s| && BlankLineAt(s, k) ==>
              var next := SkipInner(s, k + 1) + 1;
              SpansIn(s, ParagraphsFrom(s, next, next)) &&
              ParagraphsFrom(s, a, k) == Trimmed(s, a, k) + ParagraphsFrom(s, next, next)
  {
    ParagraphsInside(s, a, k);
    if k < |s| && BlankLineAt(s, k) {
      ParagraphsInside(s, SkipInner(s, k + 1) + 1, SkipInner(s, k + 1) + 1);
    }
  }

  method SplitSentences(body: seq<Byte>, start: nat, end: nat, ghost s: string, ghost a: nat, ghost b: nat)
    returns (out: seq<Span>)
    requires IsSlice(body, s, start, end, a, b)
    ensures SpansIn(s, Spec.Sentences(s, a, b))
    ensures out == SpansBytes(s, Spec.Sentences(s, a, b))
  {
    hide Encode, ByteAt, Trimmed, Width, SpansBytes, SpansIn, SentencesFrom, IsWs, IsTerminator, CharAt, CharStartsAt,
         IsContinuation, ScalarAt, IsScalar;
    SentencesStep(s, b, a, a);
    out := [];
    var cut, at := start, start;
    ghost var from, k := a, a;
    ByteAtMonotone(s, a, b);
    ByteAtMonotone(s, b, |s|);
    while at < end
      invariant a <= from <= k <= b && cut == ByteAt(s, from) && at == ByteAt(s, k) <= end
      invariant SpansIn(s, SentencesFrom(s, b, from, k))
      invariant out + SpansBytes(s, SentencesFrom(s, b, from, k)) == SpansBytes(s, Spec.Sentences(s, a, b))
      decreases end - at
    {
      ByteAtOrder(s, k, b);
      CharAtOffset(s, k);
      ByteAtMonotone(s, k + 1, b);
      var next := at + LeadWidth(body[at]);
      SentencesStep(s, b, from, k);
      if k + 1 < b {
        CharAtOffset(s, k + 1);
      }
      ByteAtOrder(s, k + 1, b);
      if IsTerminator(CharAt(body, at)) && next < end && IsWs(CharAt(body, next)) {
        TrimmedInside(s, from, k + 1);
        SpansBytesConcat(s, Trimmed(s, from, k + 1), SentencesFrom(s, b, k + 1, k + 1));
        Regroup(out, SpansBytes(s, Trimmed(s, from, k + 1)), SpansBytes(s, SentencesFrom(s, b, k + 1, k + 1)));
        out := PushTrimmed(body, cut, next, out, s, from, k + 1);
        cut := next;
        from := k + 1;
      }
      at := next;
      k := k + 1;
    }
    ByteAtOrder(s, k, b);
    SentencesStep(s, b, from, k);
    out := PushTrimmed(body, cut, end, out, s, from, b);
  }

  lemma SentencesStep(s: string, b: nat, from: nat, k: nat)
    requires from <= k <= b <= |s|
    ensures SpansIn(s, SentencesFrom(s, b, from, k))
    ensures k == b ==> SentencesFrom(s, b, from, k) == Trimmed(s, from, b)
    ensures k < b && !SentenceEndsAt(s, b, k) ==> SentencesFrom(s, b, from, k) == SentencesFrom(s, b, from, k + 1)
    ensures k < b && SentenceEndsAt(s, b, k) ==>
              SpansIn(s, SentencesFrom(s, b, k + 1, k + 1)) &&
              SentencesFrom(s, b, from, k) == Trimmed(s, from, k + 1) + SentencesFrom(s, b, k + 1, k + 1)
  {
    SentencesInside(s, b, from, k);
    if k < b {
      SentencesInside(s, b, k + 1, k + 1);
    }
  }

  datatype Run = NoRun | Since(at: nat)

  /** The words still to come when `run` characters of a word have been seen already. */
  ghost function WordsAfter(s: string, inRun: bool, from: nat, k: nat, b: nat): seq<Span>
    requires from <= k <= b <= |s|
  {
    if inRun then [Span(from, RunEnd(s, k, b))] + Spec.Words(s, RunEnd(s, k, b), b) else Spec.Words(s, k, b)
  }

  lemma WordsAfterStep(s: string, inRun: bool, from: nat, k: nat, b: nat)
    requires from <= k <= b <= |s|
    ensures SpansIn(s, WordsAfter(s, inRun, from, k, b))
    ensures k == b ==> WordsAfter(s, inRun, from, k, b) == if inRun then [Span(from, b)] else []
    ensures k < b && IsWs(s[k]) ==>
              SpansIn(s, WordsAfter(s, false, k + 1, k + 1, b)) &&
              WordsAfter(s, inRun, from, k, b) ==
              (if inRun then [Span(from, k)] else []) + WordsAfter(s, false, k + 1, k + 1, b)
    ensures k < b && !IsWs(s[k]) ==>
              SpansIn(s, WordsAfter(s, true, if inRun then from else k, k + 1, b)) &&
              WordsAfter(s, inRun, from, k, b) == WordsAfter(s, true, if inRun then from else k, k + 1, b)
  {
    hide IsWs;
    WordsInside(s, k, b);
    WordsInside(s, RunEnd(s, k, b), b);
    if k < b {
      WordsInside(s, k + 1, b);
      if IsWs(s[k]) {
        assert TrimStart(s, k, b) == TrimStart(s, k + 1, b);
        assert Spec.Words(s, k, b) == Spec.Words(s, k + 1, b);
      }
    }
  }

  method SplitWords(body: seq<Byte>, start: nat, end: nat, ghost s: string, ghost a: nat, ghost b: nat)
    returns (out: seq<Span>)
    requires IsSlice(body, s, start, end, a, b)
    ensures SpansIn(s, Spec.Words(s, a, b))
    ensures out == SpansBytes(s, Spec.Words(s, a, b))
  {
    hide Encode, ByteAt, Width, SpansBytes, IsWs, SpansIn, CharAt, CharStartsAt, Words, RunEnd, WordsAfter,
        IsContinuation,
        ScalarAt, IsScalar;
    WordsInside(s, a, b);
    WordsAfterNone(s, a, b);
    out := [];
    var run := NoRun;
    var at := start;
    ghost var from, k := a, a;
    ByteAtMonotone(s, a, b);
    ByteAtMonotone(s, b, |s|);
    while at < end
      invariant a <= from <= k <= b && at == ByteAt(s, k) <= end
      invariant run.Since? ==> run.at == ByteAt(s, from)
      invariant SpansIn(s, WordsAfter(s, run.Since?, from, k, b))
      invariant out + SpansBytes(s, WordsAfter(s, run.Since?, from, k, b)) == SpansBytes(s, Spec.Words(s, a, b))
      decreases end - at
    {
      ByteAtOrder(s, k, b);
      CharAtOffset(s, k);
      ByteAtMonotone(s, k + 1, b);
      WordsAfterStep(s, run.Since?, from, k, b);
      var c := CharAt(body, at);
      if IsWs(c) && run.Since? {
        SpansBytesConcat(s, [Span(from, k)], WordsAfter(s, false, k + 1, k + 1, b));
        Regroup(out, [Span(run.at, at)], SpansBytes(s, WordsAfter(s, false, k + 1, k + 1, b)));
        out := out + [Span(run.at, at)];
        run := NoRun;
        from := k + 1;
      } else if !IsWs(c) && run.NoRun? {
        run := Since(at);
        from := k;
      } else if IsWs(c) {
        from := k + 1;
      }
      at := at + LeadWidth(body[at]);
      k := k + 1;
    }
    ByteAtOrder(s, k, b);
    WordsAfterStep(s, run.Since?, from, k, b);
    if run.Since? {
      out := out + [Span(run.at, end)];
    }
  }

  lemma WordsAfterNone(s: string, k: nat, b: nat)
    requires k <= b <= |s|
    ensures WordsAfter(s, false, k, k, b) == Spec.Words(s, k, b)
  {
  }

  /** Moving past a byte that begins no character moves past no character offset. */
  lemma BetweenOffsets(s: string, a: nat, b: nat, at: nat)
    requires a <= b <= |s| && ByteAt(s, a) <= at < ByteAt(s, b)
    requires !IsBoundary(Encode(s[a..b]), at - ByteAt(s, a))
    ensures forall m | a <= m <= b :: ByteAt(s, m) != at
  {
    hide *;
    EncodeSlice(s, a, b);
    forall m | a <= m <= b ensures ByteAt(s, m) != at {
      OffsetIsBoundary(s, a, b, m);
    }
  }

  lemma OffsetIsBoundary(s: string, a: nat, b: nat, m: nat)
    requires a <= m <= b <= |s|
    ensures ByteAt(s, a) <= ByteAt(s, m) <= ByteAt(s, b) && |Encode(s[a..b])| == ByteAt(s, b) - ByteAt(s, a)
    ensures IsBoundary(Encode(s[a..b]), ByteAt(s, m) - ByteAt(s, a))
  {
    hide *;
    var t := s[a..b];
    EncodeSlice(s, a, b);
    ByteAtMonotone(s, a, m);
    ByteAtMonotone(s, m, b);
    OffsetInSlice(s, a, b, m);
    BoundaryIffOffset(t, ByteAt(t, m - a));
  }

  lemma BoundaryIsOffset(s: string, a: nat, b: nat, at: nat) returns (m: nat)
    requires a <= b <= |s| && ByteAt(s, a) <= at <= ByteAt(s, b)
    requires |Encode(s[a..b])| == ByteAt(s, b) - ByteAt(s, a) && IsBoundary(Encode(s[a..b]), at - ByteAt(s, a))
    ensures a <= m <= b && ByteAt(s, m) == at
  {
    hide *;
    var t := s[a..b];
    BoundaryIffOffset(t, at - ByteAt(s, a));
    var k :| 0 <= k <= |t| && ByteAt(t, k) == at - ByteAt(s, a);
    m := a + k;
    OffsetInSlice(s, a, b, m);
  }

  /** The split of `fragments`: the first character offset at or after `half`, in bytes. */
  lemma SplitIsFirst(s: string, a: nat, b: nat, half: nat, m: nat)
    requires a <= m <= b <= |s|
    requires forall j | a <= j <= b :: !(half <= ByteAt(s, j) < ByteAt(s, m))
    requires m < b ==> half <= ByteAt(s, m)
    ensures FirstFrom(s, a, b, half) == m
  {
    var f := FirstFrom(s, a, b, half);
    ByteAtOrder(s, f, m);
  }

  method SplitPoint(body: seq<Byte>, start: nat, end: nat, ghost s: string, ghost a: nat, ghost b: nat)
    returns (split: nat)
    requires IsSlice(body, s, start, end, a, b) && start <= end
    ensures start + split == ByteAt(s, FirstFrom(s, a, b, HalfByte(s, a, b)))
  {
    hide *;
    SliceFacts(body, start, end, s, a, b);
    var text := body[start..end];
    split := |text| / 2;
    while split < |text| && !IsBoundary(text, split)
      invariant |text| / 2 <= split <= |text|
      invariant forall j | a <= j <= b :: !(start + |text| / 2 <= ByteAt(s, j) < start + split)
    {
      BetweenOffsets(s, a, b, start + split);
      split := split + 1;
    }
    EndIsBoundary(text);
    ghost var m := BoundaryIsOffset(s, a, b, start + split);
    SplitIsFirst(s, a, b, start + |text| / 2, m);
  }

  lemma EndIsBoundary(text: seq<Byte>)
    ensures IsBoundary(text, |text|)
  {
  }

  lemma SliceFacts(body: seq<Byte>, start: nat, end: nat, s: string, a: nat, b: nat)
    requires IsSlice(body, s, start, end, a, b)
    ensures a <= b <= |s| && start <= end <= |body| && start == ByteAt(s, a) && end == ByteAt(s, b)
    ensures body[start..end] == Encode(s[a..b]) && |Encode(s[a..b])| == end - start
    ensures HalfByte(s, a, b) == start + (end - start) / 2
    ensures CharCount(body[start..end]) == b - a
  {
    hide Encode, EncodeTo, ByteAt, CharCount;
    EncodeSlice(s, a, b);
    CharCountText(s[a..b]);
  }

  lemma CharCountText(t: string)
    ensures CharCount(Encode(t)) == |t|
  {
    CharCountEncode(t, |t|);
  }

  method SplitFragments(body: seq<Byte>, start: nat, end: nat, budget: nat, cost: seq<Byte> -> nat,
                        ghost s: string, ghost a: nat, ghost b: nat)
    returns (out: seq<Span>)
    requires IsSlice(body, s, start, end, a, b)
    ensures SpansIn(s, Spec.Fragments(s, a, b, budget, OnText(cost)))
    ensures out == SpansBytes(s, Spec.Fragments(s, a, b, budget, OnText(cost)))
    decreases b - a
  {
    hide Fragments, Encode, ByteAt, IsBoundary, CharCount, FirstFrom, HalfByte;
    SliceFacts(body, start, end, s, a, b);
    FragmentsInside(s, a, b, budget, OnText(cost));
    FragmentsUnfold(s, a, b, budget, OnText(cost));
    var text := body[start..end];
    if cost(text) <= budget || CharCount(text) <= 1 {
      return [Span(start, end)];
    }
    var split := SplitPoint(body, start, end, s, a, b);
    ghost var m := FirstFrom(s, a, b, HalfByte(s, a, b));
    ByteAtOrder(s, a, m);
    ByteAtOrder(s, m, b);
    if split == 0 || split >= |text| {
      return [Span(start, end)];
    }
    FragmentsInside(s, a, m, budget, OnText(cost));
    FragmentsInside(s, m, b, budget, OnText(cost));
    var left := SplitFragments(body, start, start + split, budget, cost, s, a, m);
    var right := SplitFragments(body, start + split, end, budget, cost, s, m, b);
    out := left + right;
    SpansBytesConcat(s, Spec.Fragments(s, a, m, budget, OnText(cost)), Spec.Fragments(s, m, b, budget, OnText(cost)));
  }

  method CollapseBytes(t: seq<Byte>, ghost s: string) returns (out: seq<Byte>)
    requires t == Encode(s)
    ensures out == Encode(Collapse(s))
  {
    hide IsWs, Encode, CharAt, CharStartsAt, ByteAt, EncodeChar, Width;
    out := [];
    var inWs := false;
    var at := 0;
    ghost var k := 0;
    ByteAtZero(s);
    EncodeNone();
    while at < |t|
      invariant 0 <= k <= |s| && at == ByteAt(s, k) <= |t|
      invariant out == Encode(CollapseTo(s, k))
      invariant inWs <==> k > 0 && IsWs(s[k - 1])
      decreases |t| - at
    {
      ByteAtOrder(s, k, |s|);
      CharAtOffset(s, k);
      var c := CharAt(t, at);
      if IsWs(c) {
        if !inWs {
          EncodeConcat(CollapseTo(s, k), " ");
          EncodeSingle(' ');
          out := out + EncodeChar(' ');
        }
        inWs := true;
      } else {
        EncodeConcat(CollapseTo(s, k), [c]);
        EncodeSingle(c);
        out := out + EncodeChar(c);
        inWs := false;
      }
      at, k := at + LeadWidth(t[at]), k + 1;
    }
    ByteAtOrder(s, k, |s|);
  }

  lemma EncodeNone()
    ensures Encode("") == []
  {
  }

  // ---------------------------------------------------------------- packing

  class Packer {
    const body: seq<Byte>
    const budget: nat
    const cost: seq<Byte> -> nat
    ghost const s: string
    var passages: seq<RsPassage>
    var current: seq<RsUnit>
    var currentCost: nat
    ghost var packing: Packing

    ghost predicate Valid()
      reads this
    {
      && body == Encode(s)
      && PackingIn(s, packing)
      && NonEmptyGroups(packing.closed)
      && current == UnitsBytes(s, packing.open)
      && currentCost == Cost(packing.open, OnText(cost))
      && PassagesIn(s, PassagesOf(packing.closed, OnText(cost)))
      && passages == ReportAll(s, PassagesOf(packing.closed, OnText(cost)))
    }

    constructor (body: seq<Byte>, budget: nat, cost: seq<Byte> -> nat, ghost s: string)
      requires body == Encode(s)
      ensures Valid() && packing == Packing([], [])
      ensures this.body == body && this.budget == budget && this.cost == cost && this.s == s
    {
      this.body, this.budget, this.cost, this.s := body, budget, cost, s;
      passages, current, currentCost, packing := [], [], 0, Packing([], []);
    }

    lemma Reported()
      requires Valid()
      ensures body == Encode(s)
      ensures NonEmptyGroups(packing.closed) && PassagesIn(s, PassagesOf(packing.closed, OnText(cost)))
      ensures passages == ReportAll(s, PassagesOf(packing.closed, OnText(cost)))
    {
    }

    /** The text of the current passage. */
    method JoinCurrent() returns (text: seq<Byte>)
      requires Valid()
      ensures text == Encode(Join(packing.open))
    {
      hide Encode, PassagesOf, Cost, ReportAll;
      ghost var us := packing.open;
      text := [];
      EncodeNone();
      for k := 0 to |current|
        invariant text == Encode(Join(us[..k]))
      {
        assert us[..k + 1][..k] == us[..k];
        JoinBytes(us[..k], us[k]);
        assert us[..k] + [us[k]] == us[..k + 1];
        if text != [] {
          text := text + if current[k].startsParagraph then ['\n' as int] else [' ' as int];
        }
        text := text + current[k].text;
      }
      assert us[..|us|] == us;
    }

    method Flush()
      requires Valid()
      modifies this
      ensures Valid() && packing == Close(old(packing))
    {
      hide Encode, Join, Cost, ByteAt;
      if current == [] {
        return;
      }
      var text := JoinCurrent();
      var first, last := current[0], current[|current| - 1];
      passages := passages + [RsPassage(text, (first.start, last.end), currentCost)];
      CostNothing(OnText(cost));
      current, currentCost := [], 0;
      packing := Close(packing);
    }

    method Append(unit: RsUnit, c: nat, ghost u: Unit)
      requires Valid() && UnitIn(s, u) && unit == UnitBytes(s, u) && c == cost(unit.text)
      modifies this
      ensures Valid() && packing == Feed(old(packing), u, budget, OnText(cost))
    {
      hide Encode, Join, ByteAt;
      if current != [] && currentCost + c > budget {
        Flush();
      }
      assert (packing.open + [u])[..|packing.open|] == packing.open;
      current := current + [unit];
      currentCost := currentCost + c;
      packing := packing.(open := packing.open + [u]);
    }

    method Place(unit: RsUnit, level: Level, ghost u: Unit)
      requires Valid() && UnitIn(s, u) && unit == UnitBytes(s, u)
      modifies this
      ensures Valid()
      ensures packing == FeedAll(old(packing), Expand(s, budget, OnText(cost), u, level), budget, OnText(cost))
      decreases Rank(level), 0
    {
      hide Valid, Feed, FeedAll, Expand, ExpandTo, Sentences, Words, Fragments, Encode, ByteAt, SpansBytes;
      Reported();
      var c := cost(unit.text);
      FeedAllOne(packing, u, budget, OnText(cost));
      ExpandUnfold(s, budget, OnText(cost), u, level);
      if c <= budget {
        Append(unit, c, u);
        return;
      }
      match level
      case Paragraph =>
        var parts := SplitSentences(body, unit.start, unit.end, s, u.start, u.end);
        PlaceAll(parts, unit.startsParagraph, Sentence, Spec.Sentences(s, u.start, u.end));
      case Sentence =>
        var parts := SplitWords(body, unit.start, unit.end, s, u.start, u.end);
        PlaceAll(parts, unit.startsParagraph, Word, Spec.Words(s, u.start, u.end));
      case Word =>
        var parts := SplitFragments(body, unit.start, unit.end, budget, cost, s, u.start, u.end);
        if |parts| == 1 {
          Append(unit, c, u);
          return;
        }
        PlaceAll(parts, unit.startsParagraph, Fragment, Spec.Fragments(s, u.start, u.end, budget, OnText(cost)));
      case Fragment =>
        Append(unit, c, u);
    }

    /** The loop of `place` over the finer slices. */
    method PlaceAll(parts: seq<Span>, starts: bool, level: Level, ghost spans: seq<Span>)
      requires Valid() && SpansIn(s, spans) && parts == SpansBytes(s, spans)
      modifies this
      ensures Valid()
      ensures var us := UnitsOf(s, spans, level, starts);
              packing == FeedAll(old(packing), ExpandTo(s, budget, OnText(cost), us, level, |us|), budget, OnText(cost))
      decreases Rank(level), 1
    {
      hide Valid, FeedAll, Expand, ExpandTo, CollapseTo, UnitsOf, Encode, ByteAt, SpansBytes;
      Reported();
      ghost var us := UnitsOf(s, spans, level, starts);
      ghost var before := packing;
      FeedNothing(s, packing, us, level, budget, OnText(cost));
      for k := 0 to |parts|
        invariant Valid()
        invariant packing == FeedAll(before, ExpandTo(s, budget, OnText(cost), us, level, k), budget, OnText(cost))
      {
        FeedExpansion(s, before, us, level, k, budget, OnText(cost));
        var from, to := parts[k].start, parts[k].end;
        SliceFacts(body, from, to, s, spans[k].start, spans[k].end);
        var text := body[from..to];
        if level == Paragraph || level == Sentence {
          text := CollapseBytes(text, s[spans[k].start..spans[k].end]);
        }
        Place(RsUnit(text, from, to, starts && k == 0), level, us[k]);
      }
    }
  }

  lemma CostNothing(cost: string -> nat)
    ensures Cost([], cost) == 0
  {
  }

  lemma JoinBytes(us: seq<Unit>, u: Unit)
    ensures Encode(Join(us)) == [] <==> Join(us) == ""
    ensures Encode(Join(us + [u])) ==
            (if Join(us) == "" then []
             else Encode(Join(us)) + if u.startsParagraph then ['\n' as int] else [' ' as int]) + Encode(u.text)
  {
    hide Encode, Join;
    JoinSnoc(us, u);
    var t := Join(us);
    var sep := if u.startsParagraph then "\n" else " ";
    EncodeConcat(t, sep);
    EncodeConcat(t + sep, u.text);
    EncodeSingle('\n');
    EncodeSingle(' ');
    EncodeNone();
    if t != "" {
      ByteAtMonotone(t, 0, |t|);
    } else {
      assert "" + u.text == u.text;
    }
  }

  lemma JoinSnoc(us: seq<Unit>, u: Unit)
    ensures Join(us + [u]) ==
            (if Join(us) == "" then "" else Join(us) + if u.startsParagraph then "\n" else " ") + u.text
  {
    assert (us + [u])[..|us|] == us;
  }

  /** The engine's `chunk`: the bytes, ranges and costs of the passages that `ChunkSpec` gives the text. */
  method Chunk(body: seq<Byte>, budget: nat, cost: seq<Byte> -> nat) returns (passages: seq<RsPassage>)
    requires ValidUtf8(body)
    ensures PassagesIn(Text(body), Spec.Chunk(Text(body), budget, OnText(cost)))
    ensures passages == ReportAll(Text(body), Spec.Chunk(Text(body), budget, OnText(cost)))
  {
    hide FeedAll, Expand, ExpandTo, CollapseTo, ParagraphsFrom, Packer.Valid, Encode, ByteAt, SpansBytes;
    ghost var s := Text(body);
    ChunkInside(s, budget, OnText(cost));
    EncodeNone();
    if budget == 0 || body == [] {
      ByteAtZero(s);
      ByteAtOrder(s, 0, |s|);
      return [];
    }
    var packer := new Packer(body, budget, cost, s);
    var ranges := SplitParagraphs(body, s);
    ghost var us, empty, spans := ParagraphUnits(s), Packing([], []), Spec.Paragraphs(s);
    FeedNothing(s, empty, us, Paragraph, budget, OnText(cost));
    for k := 0 to |ranges|
      invariant packer.Valid() && fresh(packer)
      invariant packer.packing ==
                FeedAll(empty, ExpandTo(s, budget, OnText(cost), us, Paragraph, k), budget, OnText(cost))
    {
      FeedExpansion(s, empty, us, Paragraph, k, budget, OnText(cost));
      var from, to := ranges[k].start, ranges[k].end;
      SliceFacts(body, from, to, s, spans[k].start, spans[k].end);
      var text := CollapseBytes(body[from..to], s[spans[k].start..spans[k].end]);
      packer.Place(RsUnit(text, from, to, true), Paragraph, us[k]);
    }
    packer.Flush();
    packer.Reported();
    passages := packer.passages;
  }
}
