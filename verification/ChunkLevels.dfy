/**
  What each splitting level cuts at, said without its scan: it cuts at a blank line, behind a sentence's
  end or at whitespace, and leaves none of these inside a slice.
  */
module ChunkLevels {
  import opened ChunkSpec
  import opened ChunkTiling
  import opened ChunkWords

  // ---------------------------------------------------------------- the characters that matter

  /** Whitespace is the 25 code points of Unicode `White_Space`. */
  lemma WhitespaceIs(c: char)
    ensures IsWs(c) <==>
            c as int in {0x09, 0x0A, 0x0B, 0x0C, 0x0D, 0x20, 0x85, 0xA0, 0x1680, 0x2000, 0x2001, 0x2002, 0x2003,
                         0x2004, 0x2005, 0x2006, 0x2007, 0x2008, 0x2009, 0x200A, 0x2028, 0x2029, 0x202F, 0x205F, 0x3000}
  {
  }

  predicate OnlyInner(s: string, i: nat, j: nat)
    requires j <= |s|
  {
    forall p | i <= p < j :: s[p] == ' ' || s[p] == '\t' || s[p] == '\r'
  }

  /** A blank line is two line feeds with nothing but spaces, tabs and carriage returns between them. */
  lemma BlankLineIs(s: string, i: nat)
    requires i < |s|
    ensures BlankLineAt(s, i) <==>
            exists j :: i < j < |s| && s[i] == '\n' && s[j] == '\n' && OnlyInner(s, i + 1, j)
  {
    hide SkipInner;
    var k := SkipInner(s, i + 1);
    if BlankLineAt(s, i) {
      assert OnlyInner(s, i + 1, k);
    }
    if j :| i < j < |s| && s[i] == '\n' && s[j] == '\n' && OnlyInner(s, i + 1, j) {
      assert k <= j;
    }
  }

  /** A sentence ends at a full stop, exclamation or question mark that whitespace of the slice follows. */
  lemma SentenceEndIs(s: string, b: nat, i: nat)
    requires i < b <= |s|
    ensures SentenceEndsAt(s, b, i) <==> s[i] in ".!?" && exists j :: j == i + 1 && j < b && IsWs(s[j])
  {
    hide IsWs;
  }

  /** Collapsing leaves a text without whitespace alone and puts one space for every run of whitespace. */
  lemma CollapseIs(a: string, w: string, b: string)
    requires w != "" && AllWs(w, 0, |w|)
    requires (a != "" ==> !IsWs(a[|a| - 1])) && (b != "" ==> !IsWs(b[0]))
    ensures Collapse(a + w + b) == Collapse(a) + " " + Collapse(b)
    ensures NoWs(a, 0, |a|) ==> Collapse(a) == a
  {
    hide IsWs, CollapseTo;
    CollapseConcat(a, w);
    CollapseConcat(a + w, b);
    AllWsCollapse(w);
    if NoWs(a, 0, |a|) {
      CollapseNoWs(a);
    }
  }

  // ---------------------------------------------------------------- paragraphs

  predicate NoBlankLineIn(s: string, r: Span)
    requires r.end <= |s|
  {
    forall k | r.start <= k < r.end :: !BlankLineAt(s, k)
  }

  ghost predicate BlankLineBetween(s: string, lo: nat, hi: nat)
    requires hi <= |s|
  {
    exists k :: lo <= k < hi && BlankLineAt(s, k)
  }

  ghost predicate BlankLineSeparated(s: string, rs: seq<Span>)
    requires SpansIn(s, rs)
  {
    (forall i | 0 <= i < |rs| :: NoBlankLineIn(s, rs[i])) &&
    (forall i | 0 <= i < |rs| - 1 :: BlankLineBetween(s, rs[i].end, rs[i + 1].start))
  }

  lemma TrimmedNoBlankLine(s: string, start: nat, i: nat)
    requires start <= i <= |s| && forall k | start <= k < i :: !BlankLineAt(s, k)
    ensures SpansIn(s, Trimmed(s, start, i)) && BlankLineSeparated(s, Trimmed(s, start, i))
    ensures forall r | r in Trimmed(s, start, i) :: start <= r.start && r.end <= i
  {
    hide BlankLineAt, IsWs, TrimStart, TrimEnd;
  }

  lemma {:induction false} ParagraphsSeparated(s: string, start: nat, i: nat)
    requires start <= i <= |s| && forall k | start <= k < i :: !BlankLineAt(s, k)
    ensures SpansIn(s, ParagraphsFrom(s, start, i)) && BlankLineSeparated(s, ParagraphsFrom(s, start, i))
    ensures forall k | 0 <= k < |ParagraphsFrom(s, start, i)| :: start <= ParagraphsFrom(s, start, i)[k].start
    decreases |s| - i
  {
    hide IsWs, Trimmed, SkipInner, BlankLineSeparated;
    if i == |s| {
      TrimmedNoBlankLine(s, start, i);
    } else if BlankLineAt(s, i) {
      var next := SkipInner(s, i + 1) + 1;
      TrimmedNoBlankLine(s, start, i);
      ParagraphsSeparated(s, next, next);
      AtMostOne(s, start, i);
      Separate(s, Trimmed(s, start, i), i, ParagraphsFrom(s, next, next));
    } else {
      ParagraphsSeparated(s, start, i + 1);
    }
  }

  lemma AtMostOne(s: string, start: nat, i: nat)
    requires start <= i <= |s|
    ensures |Trimmed(s, start, i)| <= 1
  {
    hide TrimStart, TrimEnd;
  }

  lemma Separate(s: string, a: seq<Span>, k: nat, b: seq<Span>)
    requires k < |s| && BlankLineAt(s, k) && |a| <= 1 && SpansIn(s, a) && SpansIn(s, b)
    requires BlankLineSeparated(s, a) && BlankLineSeparated(s, b)
    requires forall i | 0 <= i < |a| :: a[i].end <= k
    requires forall i | 0 <= i < |b| :: k < b[i].start
    ensures SpansIn(s, a + b) && BlankLineSeparated(s, a + b)
  {
    hide BlankLineAt, NoBlankLineIn;
    var c := a + b;
    forall i | 0 <= i < |c| - 1 ensures BlankLineBetween(s, c[i].end, c[i + 1].start) {
      if i >= |a| {
        assert BlankLineBetween(s, b[i - |a|].end, b[i - |a| + 1].start);
      } else {
        assert c[i].end <= k < c[i + 1].start;
      }
    }
  }

  /** Step 1: paragraphs hold no blank line, and a blank line lies between any two. */
  lemma ParagraphsAtBlankLines(s: string)
    ensures SpansIn(s, Paragraphs(s)) && BlankLineSeparated(s, Paragraphs(s))
    ensures Tiles(s, 0, |s|, Paragraphs(s)) && AllClean(s, Paragraphs(s))
  {
    hide BlankLineSeparated, Tiles, AllClean;
    ParagraphsSeparated(s, 0, 0);
    ParagraphsTile(s, 0, 0);
  }

  /** No sentence ends inside, apart from at its last character. */
  predicate NoEndInside(s: string, b: nat, r: Span)
    requires r.end <= b <= |s|
  {
    forall k | r.start <= k < r.end - 1 :: !SentenceEndsAt(s, b, k)
  }

  predicate EndsSentence(s: string, b: nat, r: Span)
    requires b <= |s|
  {
    0 < r.end <= b && SentenceEndsAt(s, b, r.end - 1)
  }

  predicate SentenceSeparated(s: string, b: nat, rs: seq<Span>)
    requires b <= |s| && forall i | 0 <= i < |rs| :: rs[i].start <= rs[i].end <= b
  {
    (forall i | 0 <= i < |rs| :: NoEndInside(s, b, rs[i])) &&
    (forall i | 0 <= i < |rs| - 1 :: EndsSentence(s, b, rs[i]))
  }

  lemma {:induction false} TrimStops(s: string, from: nat, i: nat)
    requires from < i <= |s| && !IsWs(s[i - 1])
    ensures TrimStart(s, from, i) < i
    decreases i - from
  {
    hide IsWs;
    if from + 1 < i {
      TrimStops(s, from + 1, i);
    }
  }

  lemma TrimmedSentence(s: string, b: nat, from: nat, i: nat)
    requires from <= i <= b <= |s| && forall k | from <= k < i - 1 :: !SentenceEndsAt(s, b, k)
    ensures forall r | r in Trimmed(s, from, i) :: from <= r.start <= r.end <= i && NoEndInside(s, b, r)
    ensures from < i && SentenceEndsAt(s, b, i - 1) && !IsWs(s[i - 1]) ==>
              |Trimmed(s, from, i)| == 1 && Trimmed(s, from, i)[0].end == i
    ensures |Trimmed(s, from, i)| <= 1
  {
    hide IsWs, SentenceEndsAt, TrimStart;
    if from < i && !IsWs(s[i - 1]) {
      TrimStops(s, from, i);
    }
  }

  lemma TerminatorNotWs(c: char)
    ensures IsTerminator(c) ==> !IsWs(c)
  {
  }

  lemma {:induction false} SentencesSeparated(s: string, b: nat, from: nat, i: nat)
    requires from <= i <= b <= |s| && forall k | from <= k < i :: !SentenceEndsAt(s, b, k)
    ensures forall k | 0 <= k < |SentencesFrom(s, b, from, i)| ::
              from <= SentencesFrom(s, b, from, i)[k].start <= SentencesFrom(s, b, from, i)[k].end <= b
    ensures SentenceSeparated(s, b, SentencesFrom(s, b, from, i))
    decreases b - i
  {
    hide IsWs, IsTerminator, Trimmed, NoEndInside;
    if i == b {
      TrimmedSentence(s, b, from, b);
    } else if SentenceEndsAt(s, b, i) {
      TerminatorNotWs(s[i]);
      TrimmedSentence(s, b, from, i + 1);
      SentencesSeparated(s, b, i + 1, i + 1);
    } else {
      SentencesSeparated(s, b, from, i + 1);
    }
  }

  /** Step 2: every sentence but the last ends at a terminator before whitespace, and none ends earlier inside. */
  lemma SentencesAtTerminators(s: string, a: nat, b: nat)
    requires a <= b <= |s|
    ensures forall k | 0 <= k < |Sentences(s, a, b)| :: Sentences(s, a, b)[k].start <= Sentences(s, a, b)[k].end <= b
    ensures SentenceSeparated(s, b, Sentences(s, a, b))
    ensures Tiles(s, a, b, Sentences(s, a, b)) && AllClean(s, Sentences(s, a, b))
  {
    hide SentenceSeparated, Tiles, AllClean;
    SentencesSeparated(s, b, a, a);
    SentencesTile(s, b, a, a);
  }

  predicate MaximalRun(s: string, a: nat, b: nat, r: Span)
    requires b <= |s|
  {
    a <= r.start < r.end <= b && NoWs(s, r.start, r.end) &&
    (r.start == a || IsWs(s[r.start - 1])) && (r.end == b || IsWs(s[r.end]))
  }

  lemma {:induction false} WordsMaximal(s: string, a: nat, i: nat, b: nat)
    requires a <= i <= b <= |s| && (i == a || i == b || IsWs(s[i]))
    ensures forall k | 0 <= k < |Words(s, i, b)| :: MaximalRun(s, a, b, Words(s, i, b)[k])
    decreases b - i
  {
    hide IsWs, TrimStart, RunEnd;
    var x := TrimStart(s, i, b);
    if x < b {
      assert x > i ==> IsWs(s[x - 1]);
      WordsMaximal(s, a, RunEnd(s, x, b), b);
    }
  }

  /** Step 3: words are the maximal runs of non-whitespace, and they leave only whitespace out. */
  lemma WordsAreMaximalRuns(s: string, a: nat, b: nat)
    requires a <= b <= |s|
    ensures forall k | 0 <= k < |Words(s, a, b)| :: MaximalRun(s, a, b, Words(s, a, b)[k])
    ensures Tiles(s, a, b, Words(s, a, b))
  {
    hide MaximalRun, Tiles, AllClean, AllNoWs;
    WordsMaximal(s, a, a, b);
    WordsTile(s, a, b);
  }
}
