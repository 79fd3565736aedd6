/**
  The reference chunker, which works on characters and looks byte offsets up in a table.
  `Chunker` holds the state that the closures `flush`, `append` and `place` share.
  */
module PythonChunker {
  import opened Utf8
  import opened ChunkSpec
  import Spec = ChunkSpec

  datatype PyPassage = PyPassage(text: string, byteRange: (nat, nat), cost: nat)

  /** A passage as the reference reports it: its range in bytes. */
  function Report(s: string, p: Passage): PyPassage
    requires p.start <= |s| && p.end <= |s|
  {
    PyPassage(p.text, (ByteAt(s, p.start), ByteAt(s, p.end)), p.cost)
  }

  function ReportAll(s: string, ps: seq<Passage>): (r: seq<PyPassage>)
    requires PassagesIn(s, ps)
    ensures |r| == |ps| && forall i | 0 <= i < |ps| :: r[i] == Report(s, ps[i])
  {
    seq(|ps|, i requires 0 <= i < |ps| && PassagesIn(s, ps) => Report(s, ps[i]))
  }

  // ---------------------------------------------------------------- the splitters

  method Trim(body: string, start: nat, end: nat) returns (a: nat, b: nat)
    requires start <= end <= |body|
    ensures a == TrimStart(body, start, end) && b == TrimEnd(body, a, end)
  {
    a, b := start, end;
    while a < b && IsWs(body[a])
      invariant start <= a <= b == end
      invariant TrimStart(body, a, end) == TrimStart(body, start, end)
    {
      a := a + 1;
    }
    while b > a && IsWs(body[b - 1])
      invariant a <= b <= end
      invariant TrimEnd(body, a, b) == TrimEnd(body, a, end)
    {
      b := b - 1;
    }
  }

  method CollapseText(t: string) returns (out: string)
    ensures out == Collapse(t)
  {
    out := "";
    var inWs := false;
    for i := 0 to |t|
      invariant out == CollapseTo(t, i)
      invariant inWs <==> i > 0 && IsWs(t[i - 1])
    {
      if IsWs(t[i]) {
        if !inWs {
          out := out + " ";
        }
        inWs := true;
      } else {
        out := out + [t[i]];
        inWs := false;
      }
    }
  }

  /** The non-empty trimmed slices of the first `k` cuts. */
  ghost function TrimAll(s: string, cuts: seq<Span>, k: nat): seq<Span>
    requires k <= |cuts| && SpansIn(s, cuts)
  {
    if k == 0 then [] else TrimAll(s, cuts, k - 1) + Trimmed(s, cuts[k - 1].start, cuts[k - 1].end)
  }

  lemma TrimAllEmpty(s: string, cuts: seq<Span>)
    requires SpansIn(s, cuts)
    ensures TrimAll(s, cuts, 0) == []
  {
  }

  lemma TrimAllStep(s: string, cuts: seq<Span>, k: nat)
    requires SpansIn(s, cuts) && k < |cuts|
    ensures TrimAll(s, cuts, k + 1) == TrimAll(s, cuts, k) + Trimmed(s, cuts[k].start, cuts[k].end)
  {
  }

  lemma {:induction false} TrimAllPrefix(s: string, cuts: seq<Span>, cut: Span, k: nat)
    requires k <= |cuts| && SpansIn(s, cuts) && cut.start <= cut.end <= |s|
    ensures SpansIn(s, cuts + [cut])
    ensures TrimAll(s, cuts + [cut], k) == TrimAll(s, cuts, k)
    ensures k == |cuts| ==> TrimAll(s, cuts + [cut], k + 1) == TrimAll(s, cuts, k) + Trimmed(s, cut.start, cut.end)
    decreases k
  {
    hide Trimmed;
    if k > 0 {
      TrimAllPrefix(s, cuts, cut, k - 1);
    }
  }

  method TrimCuts(body: string, cuts: seq<Span>) returns (ranges: seq<Span>)
    requires SpansIn(body, cuts)
    ensures ranges == TrimAll(body, cuts, |cuts|)
  {
    hide IsWs, TrimStart, TrimEnd, TrimAll;
    TrimAllEmpty(body, cuts);
    ranges := [];
    for k := 0 to |cuts|
      invariant ranges == TrimAll(body, cuts, k)
    {
      TrimAllStep(body, cuts, k);
      var a, b := Trim(body, cuts[k].start, cuts[k].end);
      if a < b {
        ranges := ranges + [Span(a, b)];
      }
    }
  }

  method SplitParagraphs(body: string) returns (ranges: seq<Span>)
    ensures ranges == Spec.Paragraphs(body)
  {
    hide IsWs, Trimmed, TrimAll;
    var cuts: seq<Span> := [];
    assert TrimAll(body, cuts, 0) == [] by { TrimAllEmpty(body, []); }
    var start, i, n := 0, 0, |body|;
    while i < n
      invariant start <= i <= n && SpansIn(body, cuts)
      invariant TrimAll(body, cuts, |cuts|) + ParagraphsFrom(body, start, i) == Spec.Paragraphs(body)
    {
      if body[i] == '\n' {
        var j := i + 1;
        while j < n && IsBlankLineInner(body[j])
          invariant i < j <= n && SkipInner(body, j) == SkipInner(body, i + 1)
        {
          j := j + 1;
        }
        if j < n && body[j] == '\n' {
          TrimAllPrefix(body, cuts, Span(start, i), |cuts|);
          cuts := cuts + [Span(start, i)];
          start, i := j + 1, j + 1;
          continue;
        }
      }
      i := i + 1;
    }
    TrimAllPrefix(body, cuts, Span(start, n), |cuts|);
    ranges := TrimCuts(body, cuts + [Span(start, n)]);
  }

  method SplitSentences(body: string, start: nat, end: nat) returns (ranges: seq<Span>)
    requires start <= end <= |body|
    ensures ranges == Spec.Sentences(body, start, end)
  {
    hide IsWs, Trimmed, TrimAll;
    var cuts: seq<Span> := [];
    assert TrimAll(body, cuts, 0) == [] by { TrimAllEmpty(body, []); }
    var s, i := start, start;
    while i < end
      invariant start <= s <= i <= end && SpansIn(body, cuts)
      invariant TrimAll(body, cuts, |cuts|) + SentencesFrom(body, end, s, i) == Spec.Sentences(body, start, end)
    {
      if IsTerminator(body[i]) && i + 1 < end && IsWs(body[i + 1]) {
        TrimAllPrefix(body, cuts, Span(s, i + 1), |cuts|);
        cuts := cuts + [Span(s, i + 1)];
        s := i + 1;
      }
      i := i + 1;
    }
    TrimAllPrefix(body, cuts, Span(s, end), |cuts|);
    ranges := TrimCuts(body, cuts + [Span(s, end)]);
  }

  method SplitWords(body: string, start: nat, end: nat) returns (out: seq<Span>)
    requires start <= end <= |body|
    ensures out == Spec.Words(body, start, end)
  {
    hide IsWs;
    out := [];
    var i := start;
    while i < end
      invariant start <= i <= end
      invariant out + Spec.Words(body, i, end) == Spec.Words(body, start, end)
    {
      ghost var from := i;
      while i < end && IsWs(body[i])
        invariant from <= i <= end && TrimStart(body, i, end) == TrimStart(body, from, end)
        invariant out + Spec.Words(body, from, end) == Spec.Words(body, start, end)
      {
        i := i + 1;
      }
      if i >= end {
        break;
      }
      var j := i;
      while j < end && !IsWs(body[j])
        invariant i <= j <= end && RunEnd(body, j, end) == RunEnd(body, i, end)
      {
        j := j + 1;
      }
      out := out + [Span(i, j)];
      i := j;
    }
  }

  /**
    The first position whose bytes before it reach half the bytes, counted in characters; the end when
    there is none.
    */
  method SplitIndex(body: string, start: nat, end: nat, text: string) returns (split: nat)
    requires start <= end <= |body| && text == body[start..end]
    ensures split <= |text| && start + split == FirstFrom(body, start, end, HalfByte(body, start, end))
  {
    hide *;
    EncodeSlice(body, start, end);
    var half := |Encode(text)| / 2;
    ghost var target := HalfByte(body, start, end);
    HalfBytes(body, start, end);
    var acc, k := 0, 0;
    while k < |text|
      invariant 0 <= k <= |text| && acc == ByteAt(body, start + k) - ByteAt(body, start)
      invariant FirstFrom(body, start + k, end, target) == FirstFrom(body, start, end, target)
    {
      FirstFromStep(body, start + k, end, target);
      if acc >= half {
        return k;
      }
      ByteAtStep(body, start + k);
      acc := acc + |EncodeChar(text[k])|;
      k := k + 1;
    }
    FirstFromStep(body, start + k, end, target);
    split := |text|;
  }

  method SplitFragments(body: string, start: nat, end: nat, budget: nat, cost: string -> nat) returns (out: seq<Span>)
    requires start <= end <= |body|
    ensures out == Spec.Fragments(body, start, end, budget, cost)
    decreases end - start
  {
    hide *;
    FragmentsUnfold(body, start, end, budget, cost);
    var text := body[start..end];
    if cost(text) <= budget || |text| <= 1 {
      return [Span(start, end)];
    }
    var split := SplitIndex(body, start, end, text);
    if split == 0 || split == |text| {
      return [Span(start, end)];
    }
    var left := SplitFragments(body, start, start + split, budget, cost);
    var right := SplitFragments(body, start + split, end, budget, cost);
    out := left + right;
  }

  // ---------------------------------------------------------------- packing

  /** The text of a passage: its units joined by a space, or by a line feed where a paragraph begins. */
  method JoinUnits(units: seq<Unit>) returns (text: string)
    ensures text == Join(units)
  {
    text := "";
    for k := 0 to |units|
      invariant text == Join(units[..k])
    {
      assert units[..k + 1][..k] == units[..k];
      if text != "" {
        text := text + if units[k].startsParagraph then "\n" else " ";
      }
      text := text + units[k].text;
    }
    assert units[..|units|] == units;
  }

  class Chunker {
    const body: string
    const budget: nat
    const cost: string -> nat
    const byteAt: seq<nat>
    var passages: seq<PyPassage>
    var curUnits: seq<Unit>
    var curCost: nat
    ghost var packing: Packing

    ghost predicate Valid()
      reads this
    {
      && |byteAt| == |body| + 1
      && (forall k | 0 <= k <= |body| :: byteAt[k] == ByteAt(body, k))
      && PackingIn(body, packing)
      && NonEmptyGroups(packing.closed)
      && curUnits == packing.open
      && curCost == Cost(curUnits, cost)
      && PassagesIn(body, PassagesOf(packing.closed, cost))
      && passages == ReportAll(body, PassagesOf(packing.closed, cost))
    }

    constructor (body: string, budget: nat, cost: string -> nat, byteAt: seq<nat>)
      requires |byteAt| == |body| + 1 && forall k | 0 <= k <= |body| :: byteAt[k] == ByteAt(body, k)
      ensures Valid() && packing == Packing([], [])
      ensures this.body == body && this.budget == budget && this.cost == cost
    {
      this.body, this.budget, this.cost, this.byteAt := body, budget, cost, byteAt;
      passages, curUnits, curCost, packing := [], [], 0, Packing([], []);
    }

    lemma Passages()
      requires Valid()
      ensures NonEmptyGroups(packing.closed) && PassagesIn(body, PassagesOf(packing.closed, cost))
      ensures passages == ReportAll(body, PassagesOf(packing.closed, cost))
    {
    }

    method Flush()
      requires Valid()
      modifies this
      ensures Valid() && packing == Close(old(packing))
    {
      if curUnits == [] {
        return;
      }
      var text := JoinUnits(curUnits);
      var first, last := curUnits[0], curUnits[|curUnits| - 1];
      passages := passages + [PyPassage(text, (byteAt[first.start], byteAt[last.end]), curCost)];
      curUnits, curCost := [], 0;
      packing := Close(packing);
    }

    method Append(u: Unit, c: nat)
      requires Valid() && UnitIn(body, u) && c == cost(u.text)
      modifies this
      ensures Valid() && packing == Feed(old(packing), u, budget, cost)
    {
      if curUnits != [] && curCost + c > budget {
        Flush();
      }
      assert (curUnits + [u])[..|curUnits|] == curUnits;
      curUnits := curUnits + [u];
      curCost := curCost + c;
      packing := packing.(open := curUnits);
    }

    method Place(text: string, start: nat, end: nat, starts: bool, level: Level)
      requires Valid() && start <= end <= |body|
      modifies this
      ensures Valid()
      ensures packing == FeedAll(old(packing), Expand(body, budget, cost, Unit(text, start, end, starts), level),
                                 budget, cost)
      decreases Rank(level), 0
    {
      hide Valid, Feed, FeedAll, Expand, ExpandTo, Sentences, Words, Fragments;
      var u := Unit(text, start, end, starts);
      var c := cost(text);
      FeedAllOne(packing, u, budget, cost);
      ExpandUnfold(body, budget, cost, u, level);
      if c > budget {
        if level == Paragraph {
          var subs := SplitSentences(body, start, end);
          SentencesInside(body, end, start, start);
          PlaceAll(subs, starts, Sentence);
        } else if level == Sentence {
          var subs := SplitWords(body, start, end);
          WordsInside(body, start, end);
          PlaceAll(subs, starts, Word);
        } else if level == Word {
          var subs := SplitFragments(body, start, end, budget, cost);
          FragmentsInside(body, start, end, budget, cost);
          if |subs| == 1 {
            Append(u, c);
            return;
          }
          PlaceAll(subs, starts, Fragment);
        } else {
          Append(u, c);
        }
        return;
      }
      Append(u, c);
    }

    /** The loop of `place` over the finer slices. */
    method PlaceAll(subs: seq<Span>, starts: bool, level: Level)
      requires Valid() && SpansIn(body, subs)
      modifies this
      ensures Valid()
      ensures var us := UnitsOf(body, subs, level, starts);
              packing == FeedAll(old(packing), ExpandTo(body, budget, cost, us, level, |us|), budget, cost)
      decreases Rank(level), 1
    {
      hide Valid, FeedAll, Expand, ExpandTo, CollapseTo, UnitsOf;
      ghost var us := UnitsOf(body, subs, level, starts);
      ghost var before := packing;
      FeedNothing(body, packing, us, level, budget, cost);
      for k := 0 to |subs|
        invariant Valid()
        invariant packing == FeedAll(before, ExpandTo(body, budget, cost, us, level, k), budget, cost)
      {
        FeedExpansion(body, before, us, level, k, budget, cost);
        var a, b := subs[k].start, subs[k].end;
        var text := body[a..b];
        if level == Paragraph || level == Sentence {
          text := CollapseText(text);
        }
        Place(text, a, b, starts && k == 0, level);
      }
    }
  }

  method ByteTable(body: string) returns (byteAt: seq<nat>)
    ensures |byteAt| == |body| + 1
    ensures forall k | 0 <= k <= |body| :: byteAt[k] == ByteAt(body, k)
  {
    hide ByteAt, EncodeChar, Width;
    ByteAtZero(body);
    byteAt := [0];
    for k := 0 to |body|
      invariant |byteAt| == k + 1 && forall m | 0 <= m <= k :: byteAt[m] == ByteAt(body, m)
    {
      ByteAtStep(body, k);
      byteAt := byteAt + [byteAt[k] + |EncodeChar(body[k])|];
    }
  }

  method Chunk(body: string, budget: nat, cost: string -> nat) returns (passages: seq<PyPassage>)
    ensures PassagesIn(body, Spec.Chunk(body, budget, cost))
    ensures passages == ReportAll(body, Spec.Chunk(body, budget, cost))
  {
    hide FeedAll, Expand, ExpandTo, CollapseTo, ParagraphsFrom, Chunker.Valid;
    ChunkInside(body, budget, cost);
    if budget == 0 || body == "" {
      return [];
    }
    var byteAt := ByteTable(body);
    var chunker := new Chunker(body, budget, cost, byteAt);
    var ranges := SplitParagraphs(body);
    ghost var us, empty := ParagraphUnits(body), Packing([], []);
    FeedNothing(body, empty, us, Paragraph, budget, cost);
    for k := 0 to |ranges|
      invariant chunker.Valid() && fresh(chunker)
      invariant chunker.packing == FeedAll(empty, ExpandTo(body, budget, cost, us, Paragraph, k), budget, cost)
    {
      FeedExpansion(body, empty, us, Paragraph, k, budget, cost);
      var text := CollapseText(body[ranges[k].start..ranges[k].end]);
      chunker.Place(text, ranges[k].start, ranges[k].end, true, Paragraph);
    }
    chunker.Flush();
    chunker.Passages();
    passages := chunker.passages;
  }
}
