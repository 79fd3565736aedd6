/** The two chunkers agree on every body, and what their passages guarantee in bytes. */
module ChunkRefinement {
  import opened Utf8
  import opened ChunkSpec
  import opened ChunkTiling
  import RustChunker
  import PythonChunker

  /** Both chunkers on the same body, budget and cost. */
  method BothChunkers(s: string, budget: nat, cost: seq<Byte> -> nat)
    returns (engine: seq<RustChunker.RsPassage>, reference: seq<PythonChunker.PyPassage>)
    ensures |engine| == |reference|
    ensures forall i | 0 <= i < |engine| ::
              engine[i].text == Encode(reference[i].text) &&
              engine[i].byteRange == reference[i].byteRange &&
              engine[i].cost == reference[i].cost
  {
    hide Chunk, Encode;
    var body := Encode(s);
    assert ValidUtf8(body);
    EncodeInjective(s, Text(body));
    engine := RustChunker.Chunk(body, budget, cost);
    reference := PythonChunker.Chunk(s, budget, RustChunker.OnText(cost));
  }

  /** Byte `q` belongs to a whitespace character of `s`. */
  ghost predicate WhitespaceByte(s: string, q: nat) {
    exists k :: 0 <= k < |s| && ByteAt(s, k) <= q < ByteAt(s, k + 1) && IsWs(s[k])
  }

  /**
    The ranges the engine reports for a body: they lie inside it, begin and end at character
    boundaries, increase without overlap, and leave only bytes of whitespace outside.
    */
  lemma EngineRangesTile(body: seq<Byte>, budget: nat, cost: string -> nat)
    requires ValidUtf8(body) && budget > 0
    ensures var s := Text(body);
            PassagesIn(s, Chunk(s, budget, cost)) &&
            var ps := RustChunker.ReportAll(s, Chunk(s, budget, cost));
            (forall i | 0 <= i < |ps| ::
               ps[i].byteRange.0 < ps[i].byteRange.1 <= |body| &&
               IsBoundary(body, ps[i].byteRange.0) && IsBoundary(body, ps[i].byteRange.1)) &&
            (forall i, j | 0 <= i < j < |ps| :: ps[i].byteRange.1 <= ps[j].byteRange.0) &&
            (forall q | 0 <= q < |body| &&
              (forall i | 0 <= i < |ps| :: !(ps[i].byteRange.0 <= q < ps[i].byteRange.1)) ::
               WhitespaceByte(s, q))
  {
    hide *;
    var s := Text(body);
    ChunkInside(s, budget, cost);
    PassagesTile(s, budget, cost);
    var cs := Chunk(s, budget, cost);
    InsideMeans(s, cs);
    var ps := RustChunker.ReportAll(s, cs);
    forall i | 0 <= i < |ps|
      ensures ps[i].byteRange.0 < ps[i].byteRange.1 <= |body|
      ensures IsBoundary(body, ps[i].byteRange.0) && IsBoundary(body, ps[i].byteRange.1)
    {
      ReportIs(s, cs[i]);
      ByteAtOrder(s, cs[i].start, cs[i].end);
      OffsetBoundary(s, cs[i].start);
      OffsetBoundary(s, cs[i].end);
    }
    forall i, j | 0 <= i < j < |ps| ensures ps[i].byteRange.1 <= ps[j].byteRange.0 {
      ReportIs(s, cs[i]);
      ReportIs(s, cs[j]);
      ByteAtMonotone(s, cs[i].end, cs[j].start);
    }
    forall q | 0 <= q < |body| && (forall i | 0 <= i < |ps| :: !(ps[i].byteRange.0 <= q < ps[i].byteRange.1))
      ensures WhitespaceByte(s, q)
    {
      var k := Locate(s, q, |s|);
      if IsWs(s[k]) {
        WhitespaceAt(s, q, k);
      } else {
        var i :| 0 <= i < |cs| && cs[i].start <= k < cs[i].end;
        ReportIs(s, cs[i]);
        ByteAtMonotone(s, cs[i].start, k);
        ByteAtMonotone(s, k + 1, cs[i].end);
        assert false;
      }
    }
  }

  lemma InsideMeans(s: string, ps: seq<Passage>)
    requires PassagesIn(s, ps)
    ensures forall i | 0 <= i < |ps| :: ps[i].start <= |s| && ps[i].end <= |s|
  {
  }

  lemma ReportIs(s: string, p: Passage)
    requires p.start <= |s| && p.end <= |s|
    ensures RustChunker.Report(s, p).byteRange == (ByteAt(s, p.start), ByteAt(s, p.end))
  {
  }

  lemma OffsetBoundary(s: string, k: nat)
    requires k <= |s|
    ensures ByteAt(s, k) <= |Encode(s)| && IsBoundary(Encode(s), ByteAt(s, k))
  {
    hide IsBoundary, Encode;
    ByteAtMonotone(s, k, |s|);
    BoundaryIffOffset(s, ByteAt(s, k));
  }

  lemma WhitespaceAt(s: string, q: nat, k: nat)
    requires k < |s| && ByteAt(s, k) <= q < ByteAt(s, k + 1) && IsWs(s[k])
    ensures WhitespaceByte(s, q)
  {
  }

  /** What either program reports of a passage: its text, the bytes before its two ends, and its cost. */
  lemma ReportsAre(s: string, ps: seq<Passage>, cost: seq<Byte> -> nat, t: string)
    requires PassagesIn(s, ps)
    ensures forall i | 0 <= i < |ps| ::
              var engine, reference, p := RustChunker.ReportAll(s, ps)[i], PythonChunker.ReportAll(s, ps)[i], ps[i];
              engine.text == Encode(p.text) && reference.text == p.text && engine.cost == reference.cost == p.cost &&
              engine.byteRange == reference.byteRange == (|Encode(s[..p.start])|, |Encode(s[..p.end])|)
    ensures RustChunker.OnText(cost)(t) == cost(Encode(t))
  {
    hide Encode, ByteAt;
    forall i | 0 <= i < |ps| ensures ByteAt(s, ps[i].start) == |Encode(s[..ps[i].start])| &&
                                     ByteAt(s, ps[i].end) == |Encode(s[..ps[i].end])|
    {
      PrefixLength(s, ps[i].start);
      PrefixLength(s, ps[i].end);
    }
  }

  lemma PrefixLength(s: string, k: nat)
    requires k <= |s|
    ensures |Encode(s[..k])| == ByteAt(s, k)
  {
    hide ByteAt, EncodeTo;
    EncodeSlice(s, 0, k);
    ByteAtZero(s);
    assert s[0..k] == s[..k];
  }
}
