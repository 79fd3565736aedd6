/**
  The re-rank score cache: an append-only log of one record per line, cut back to its last complete
  line when a run opens it.  How a record is printed and parsed is a parameter.
  */
module ScoreCache {
  import opened Common
  import opened Utf8

  datatype Pair = Pair(query: string, document: string)

  datatype Key = Key(model: string, dataset: string, pair: Pair)

  datatype Record<+S> = Record(key: Key, score: S)

  /** What a line of the log parses as; `NoKey` lacks its model or its dataset. */
  datatype Line<+S> = Keyed(record: Record<S>) | NoKey | Unparsable

  datatype Failure = NotUtf8 | BadLine | StoredScoreNotFinite | NoKeyRecorded | ScoreNotFinite

  /** The line format, and the cross-encoder as a function of the pair. */
  datatype Env<!S> = Env(format: Record<S> -> string, parse: string -> Line<S>, finite: S -> bool, scorer: Key -> S)

  datatype Head = Head(query: string, documents: seq<string>)

  datatype Job = Job(model: string, dataset: string, heads: seq<Head>)

  function KeyOf(job: Job, pair: Pair): Key {
    Key(job.model, job.dataset, pair)
  }

  // ---------------------------------------------------------------- the log

  /** `str::lines` takes a carriage return off the end of a line. */
  function Chomp(t: string): string {
    if t != "" && t[|t| - 1] == '\r' then t[..|t| - 1] else t
  }

  predicate PrintsOneLine<S(==)>(e: Env<S>, r: Record<S>) {
    var t := e.format(r);
    '\n' !in t && Chomp(t) == t && e.parse(t) == Keyed(r)
  }

  /** Printing a record with a finite score and parsing the line gives the record back. */
  ghost predicate Sound<S(!new)>(e: Env<S>) {
    forall r: Record<S> | e.finite(r.score) :: PrintsOneLine(e, r)
  }

  /** The record is what scoring its pair gives. */
  predicate True<S(==)>(e: Env<S>, r: Record<S>) {
    e.finite(r.score) && r.score == e.scorer(r.key)
  }

  predicate AllTrue<S(==)>(e: Env<S>, rs: seq<Record<S>>) {
    forall i | 0 <= i < |rs| :: True(e, rs[i])
  }

  function LinesOf<S>(e: Env<S>, rs: seq<Record<S>>): string {
    if rs == [] then "" else LinesOf(e, rs[..|rs| - 1]) + (e.format(rs[|rs| - 1]) + "\n")
  }

  /** Where the line holding position `k` starts: just past the last newline before `k`. */
  function LineStart(t: string, k: nat): (r: nat)
    requires k <= |t|
    ensures r <= k
  {
    if k == 0 || t[k - 1] == '\n' then k else LineStart(t, k - 1)
  }

  function AddLine<S>(e: Env<S>, job: Job, cache: map<Pair, S>, line: string): Result<map<Pair, S>, Failure> {
    match e.parse(line)
    case Unparsable => Err(BadLine)
    case NoKey => Err(NoKeyRecorded)
    case Keyed(r) =>
      if r.key.model != job.model || r.key.dataset != job.dataset then Ok(cache)
      else if e.finite(r.score) then Ok(cache[r.key.pair := r.score]) else Err(StoredScoreNotFinite)
  }

  /** The lines that end in the first `k` characters, read in order; the first bad one stops the reading. */
  function ReadTo<S>(e: Env<S>, job: Job, t: string, k: nat): Result<map<Pair, S>, Failure>
    requires k <= |t|
  {
    if k == 0 then Ok(map[])
    else
      var before := ReadTo(e, job, t, k - 1);
      if before.Err? || t[k - 1] != '\n' then before
      else AddLine(e, job, before.value, Chomp(t[LineStart(t, k - 1)..k - 1]))
  }

  /** The log without its torn tail. */
  ghost function Cut(log: seq<Byte>): seq<Byte> {
    if ValidUtf8(log) then var t := Text(log); Encode(t[..LineStart(t, |t|)]) else log
  }

  ghost function Load<S>(e: Env<S>, job: Job, log: seq<Byte>): Result<map<Pair, S>, Failure> {
    if ValidUtf8(log) then ReadTo(e, job, Text(log), |Text(log)|) else Err(NotUtf8)
  }

  // ---------------------------------------------------------------- scoring

  /** The cache in memory, the records written, and whether a score stopped the run. */
  datatype State<+S> = State(cache: map<Pair, S>, written: seq<Record<S>>, failed: bool)

  function MissingTo<S>(cache: map<Pair, S>, h: Head, n: nat): seq<Pair>
    requires n <= |h.documents|
  {
    if n == 0 then []
    else
      var p := Pair(h.query, h.documents[n - 1]);
      MissingTo(cache, h, n - 1) + if p in cache then [] else [p]
  }

  function Missing<S>(cache: map<Pair, S>, h: Head): seq<Pair> {
    MissingTo(cache, h, |h.documents|)
  }

  function ScorePair<S>(e: Env<S>, job: Job, s: State<S>, p: Pair): State<S> {
    var score := e.scorer(KeyOf(job, p));
    if s.failed then s
    else if e.finite(score) then State(s.cache[p := score], s.written + [Record(KeyOf(job, p), score)], false)
    else s.(failed := true)
  }

  function ScorePairs<S>(e: Env<S>, job: Job, s: State<S>, ps: seq<Pair>): State<S> {
    if ps == [] then s else ScorePair(e, job, ScorePairs(e, job, s, ps[..|ps| - 1]), ps[|ps| - 1])
  }

  function ScoreHead<S>(e: Env<S>, job: Job, s: State<S>, h: Head): State<S> {
    ScorePairs(e, job, s, Missing(s.cache, h))
  }

  function ScoreHeads<S>(e: Env<S>, job: Job, s: State<S>, heads: seq<Head>): State<S> {
    if heads == [] then s else ScoreHead(e, job, ScoreHeads(e, job, s, heads[..|heads| - 1]), heads[|heads| - 1])
  }

  /** What a run that starts with this cache writes. */
  function Written<S>(e: Env<S>, job: Job, cache: map<Pair, S>): seq<Record<S>> {
    ScoreHeads(e, job, State(cache, [], false), job.heads).written
  }

  /** The log after a run that was not killed. */
  ghost function After<S>(e: Env<S>, job: Job, log: seq<Byte>): seq<Byte> {
    var cache := Load(e, job, log);
    if cache.Err? then Cut(log) else Cut(log) + Encode(LinesOf(e, Written(e, job, cache.value)))
  }

  // ---------------------------------------------------------------- scoring without a cache

  function FreshHead<S>(e: Env<S>, job: Job, h: Head): (r: seq<S>)
    ensures |r| == |h.documents|
    ensures forall j | 0 <= j < |r| :: r[j] == e.scorer(KeyOf(job, Pair(h.query, h.documents[j])))
  {
    seq(|h.documents|, j requires 0 <= j < |h.documents| => e.scorer(KeyOf(job, Pair(h.query, h.documents[j]))))
  }

  predicate HeadFinite<S>(e: Env<S>, job: Job, h: Head) {
    forall j | 0 <= j < |h.documents| :: e.finite(e.scorer(KeyOf(job, Pair(h.query, h.documents[j]))))
  }

  function FreshHeads<S>(e: Env<S>, job: Job, heads: seq<Head>): Result<seq<seq<S>>, Failure> {
    if heads == [] then Ok([])
    else
      var before := FreshHeads(e, job, heads[..|heads| - 1]);
      if before.Err? then before
      else if HeadFinite(e, job, heads[|heads| - 1]) then Ok(before.value + [FreshHead(e, job, heads[|heads| - 1])])
      else Err(ScoreNotFinite)
  }

  /** Every pair scored afresh. */
  function Fresh<S>(e: Env<S>, job: Job): Result<seq<seq<S>>, Failure> {
    FreshHeads(e, job, job.heads)
  }

  // ---------------------------------------------------------------- a true cache changes nothing

  ghost predicate TrueCache<S(!new)>(e: Env<S>, job: Job, cache: map<Pair, S>) {
    forall p | p in cache :: True(e, Record(KeyOf(job, p), cache[p]))
  }

  ghost predicate Honest<S(!new)>(e: Env<S>, job: Job, s: State<S>) {
    TrueCache(e, job, s.cache) && AllTrue(e, s.written)
  }

  ghost predicate PairsFinite<S>(e: Env<S>, job: Job, ps: seq<Pair>) {
    forall i | 0 <= i < |ps| :: e.finite(e.scorer(KeyOf(job, ps[i])))
  }

  lemma {:induction false} ScorePairsKeeps<S(!new)>(e: Env<S>, job: Job, s: State<S>, ps: seq<Pair>)
    requires Honest(e, job, s)
    ensures Honest(e, job, ScorePairs(e, job, s, ps))
    ensures s.failed ==> ScorePairs(e, job, s, ps) == s
    ensures !s.failed ==> (ScorePairs(e, job, s, ps).failed <==> !PairsFinite(e, job, ps))
    ensures s.cache.Keys <= ScorePairs(e, job, s, ps).cache.Keys
    ensures !ScorePairs(e, job, s, ps).failed ==> forall i | 0 <= i < |ps| :: ps[i] in ScorePairs(e, job, s, ps).cache
    decreases |ps|
  {
    if ps != [] {
      var init, last := ps[..|ps| - 1], ps[|ps| - 1];
      ScorePairsKeeps(e, job, s, init);
      assert PairsFinite(e, job, ps) <==> PairsFinite(e, job, init) && e.finite(e.scorer(KeyOf(job, last)));
    }
  }

  ghost predicate FromHead(h: Head, n: nat, p: Pair)
    requires n <= |h.documents|
  {
    exists j :: 0 <= j < n && p == Pair(h.query, h.documents[j])
  }

  lemma {:induction false} MissingCovers<S>(cache: map<Pair, S>, h: Head, n: nat)
    requires n <= |h.documents|
    ensures forall j | 0 <= j < n ::
            Pair(h.query, h.documents[j]) in cache || Pair(h.query, h.documents[j]) in MissingTo(cache, h, n)
    ensures forall i | 0 <= i < |MissingTo(cache, h, n)| :: FromHead(h, n, MissingTo(cache, h, n)[i])
    decreases n
  {
    if n > 0 {
      MissingCovers(cache, h, n - 1);
      var before, all := MissingTo(cache, h, n - 1), MissingTo(cache, h, n);
      forall i | 0 <= i < |all| ensures FromHead(h, n, all[i]) {
        if i < |before| {
          assert FromHead(h, n - 1, before[i]);
        } else {
          assert all[i] == Pair(h.query, h.documents[n - 1]);
        }
      }
    }
  }

  /** With a true cache, scoring the missing pairs stops exactly when scoring every pair would. */
  lemma MissingFinite<S(!new)>(e: Env<S>, job: Job, cache: map<Pair, S>, h: Head)
    requires TrueCache(e, job, cache)
    ensures PairsFinite(e, job, Missing(cache, h)) <==> HeadFinite(e, job, h)
  {
    hide MissingTo;
    var n := |h.documents|;
    MissingCovers(cache, h, n);
    var ps := Missing(cache, h);
    if PairsFinite(e, job, ps) {
      forall j | 0 <= j < n ensures e.finite(e.scorer(KeyOf(job, Pair(h.query, h.documents[j])))) {
        var p := Pair(h.query, h.documents[j]);
        if p in cache {
          assert True(e, Record(KeyOf(job, p), cache[p]));
        }
      }
    }
    if HeadFinite(e, job, h) {
      forall i | 0 <= i < |ps| ensures e.finite(e.scorer(KeyOf(job, ps[i]))) {
        assert FromHead(h, n, ps[i]);
      }
    }
  }

  lemma ScoreHeadKeeps<S(!new)>(e: Env<S>, job: Job, s: State<S>, h: Head)
    requires Honest(e, job, s)
    ensures Honest(e, job, ScoreHead(e, job, s, h))
    ensures ScoreHead(e, job, s, h).failed <==> s.failed || !HeadFinite(e, job, h)
    ensures !s.failed && !ScoreHead(e, job, s, h).failed ==>
              forall j | 0 <= j < |h.documents| :: Pair(h.query, h.documents[j]) in ScoreHead(e, job, s, h).cache
  {
    hide ScorePairs, MissingTo, True, HeadFinite, PairsFinite;
    var ps := Missing(s.cache, h);
    ScorePairsKeeps(e, job, s, ps);
    MissingCovers(s.cache, h, |h.documents|);
    MissingFinite(e, job, s.cache, h);
  }

  lemma {:induction false} ScoreHeadsKeeps<S(!new)>(e: Env<S>, job: Job, s: State<S>, heads: seq<Head>)
    requires Honest(e, job, s) && !s.failed
    ensures Honest(e, job, ScoreHeads(e, job, s, heads))
    ensures ScoreHeads(e, job, s, heads).failed <==> FreshHeads(e, job, heads).Err?
    decreases |heads|
  {
    hide ScoreHead, Honest, HeadFinite;
    if heads != [] {
      ScoreHeadsKeeps(e, job, s, heads[..|heads| - 1]);
      ScoreHeadKeeps(e, job, ScoreHeads(e, job, s, heads[..|heads| - 1]), heads[|heads| - 1]);
    }
  }

  // ---------------------------------------------------------------- what a torn log still holds

  lemma {:induction false} LineStartSkips(t: string, a: nat, k: nat)
    requires a <= k <= |t| && (a == 0 || t[a - 1] == '\n')
    requires forall i | a <= i < k :: t[i] != '\n'
    ensures LineStart(t, k) == a
    decreases k
  {
    if a < k {
      LineStartSkips(t, a, k - 1);
    }
  }

  lemma {:induction false} ReadSkips<S>(e: Env<S>, job: Job, t: string, a: nat, k: nat)
    requires a <= k <= |t|
    requires forall i | a <= i < k :: t[i] != '\n'
    ensures ReadTo(e, job, t, k) == ReadTo(e, job, t, a)
    decreases k
  {
    if a < k {
      ReadSkips(e, job, t, a, k - 1);
    }
  }

  lemma {:induction false} AfterLineStart(t: string, k: nat)
    requires k <= |t|
    ensures forall i | LineStart(t, k) <= i < k :: t[i] != '\n'
    ensures LineStart(t, LineStart(t, k)) == LineStart(t, k)
    decreases k
  {
    if k > 0 && t[k - 1] != '\n' {
      AfterLineStart(t, k - 1);
    }
  }

  lemma {:induction false} LineStartLocal(t: string, u: string, k: nat)
    requires k <= |t| && k <= |u| && t[..k] == u[..k]
    ensures LineStart(t, k) == LineStart(u, k)
    decreases k
  {
    if k > 0 {
      assert t[k - 1] == t[..k][k - 1] == u[..k][k - 1] == u[k - 1];
      assert t[..k - 1] == t[..k][..k - 1] == u[..k][..k - 1] == u[..k - 1];
      LineStartLocal(t, u, k - 1);
    }
  }

  lemma {:induction false} ReadLocal<S>(e: Env<S>, job: Job, t: string, u: string, k: nat)
    requires k <= |t| && k <= |u| && t[..k] == u[..k]
    ensures ReadTo(e, job, t, k) == ReadTo(e, job, u, k)
    decreases k
  {
    hide AddLine, LineStart;
    if k > 0 {
      assert t[k - 1] == t[..k][k - 1] == u[..k][k - 1] == u[k - 1];
      assert t[..k - 1] == t[..k][..k - 1] == u[..k][..k - 1] == u[..k - 1];
      ReadLocal(e, job, t, u, k - 1);
      LineStartLocal(t, u, k - 1);
      var a := LineStart(t, k - 1);
      assert t[a..k - 1] == t[..k][a..k - 1] == u[..k][a..k - 1] == u[a..k - 1];
    }
  }

  /** The whole lines of a log end where the log does. */
  lemma {:induction false} LinesEnd<S(!new)>(e: Env<S>, rs: seq<Record<S>>)
    ensures var t := LinesOf(e, rs); t == "" || t[|t| - 1] == '\n'
  {
  }

  /** However much of a log's end is lost, what is left before the cut is its first so many records. */
  lemma {:induction false} CutKeepsRecords<S(!new)>(e: Env<S>, rs: seq<Record<S>>, c: nat) returns (j: nat)
    requires Sound(e) && AllTrue(e, rs) && c <= |LinesOf(e, rs)|
    ensures j <= |rs|
    ensures LinesOf(e, rs)[..LineStart(LinesOf(e, rs), c)] == LinesOf(e, rs[..j])
    decreases |rs|
  {
    hide Chomp;
    var t := LinesOf(e, rs);
    if rs == [] {
      j := 0;
    } else {
      var init, p := LinesOf(e, rs[..|rs| - 1]), e.format(rs[|rs| - 1]);
      assert t == init + (p + "\n");
      assert t[..|init|] == init;
      if c <= |init| {
        assert AllTrue(e, rs[..|rs| - 1]);
        j := CutKeepsRecords(e, rs[..|rs| - 1], c);
        assert t[..c] == init[..c];
        LineStartLocal(t, init, c);
        var a := LineStart(t, c);
        assert t[..a] == init[..a];
        assert rs[..|rs| - 1][..j] == rs[..j];
      } else if c == |t| {
        j := |rs|;
        assert t[c - 1] == '\n' && t[..c] == t && rs[..j] == rs;
      } else {
        j := |rs| - 1;
        LinesEnd(e, rs[..|rs| - 1]);
        assert True(e, rs[|rs| - 1]) && PrintsOneLine(e, rs[|rs| - 1]);
        forall i | |init| <= i < c ensures t[i] != '\n' {
          assert t[i] == p[i - |init|];
        }
        assert |init| > 0 ==> t[|init| - 1] == init[|init| - 1];
        LineStartSkips(t, |init|, c);
      }
    }
  }

  /** The records of this model and dataset, the last one of a pair winning. */
  function CacheOf<S>(job: Job, rs: seq<Record<S>>): map<Pair, S> {
    if rs == [] then map[]
    else
      var before, r := CacheOf(job, rs[..|rs| - 1]), rs[|rs| - 1];
      if r.key.model == job.model && r.key.dataset == job.dataset then before[r.key.pair := r.score] else before
  }

  lemma {:induction false} ReadsTheRecords<S(!new)>(e: Env<S>, job: Job, rs: seq<Record<S>>)
    requires Sound(e) && AllTrue(e, rs)
    ensures ReadTo(e, job, LinesOf(e, rs), |LinesOf(e, rs)|) == Ok(CacheOf(job, rs))
    decreases |rs|
  {
    hide Chomp;
    if rs != [] {
      var t := LinesOf(e, rs);
      var init, r := LinesOf(e, rs[..|rs| - 1]), rs[|rs| - 1];
      var p := e.format(r);
      assert t == init + (p + "\n");
      assert AllTrue(e, rs[..|rs| - 1]);
      ReadsTheRecords(e, job, rs[..|rs| - 1]);
      assert t[..|init|] == init[..|init|];
      ReadLocal(e, job, t, init, |init|);
      assert True(e, r) && PrintsOneLine(e, r);
      LastLine(e, job, init, p);
    }
  }

  lemma LastLine<S>(e: Env<S>, job: Job, init: string, p: string)
    requires '\n' !in p && (init == "" || init[|init| - 1] == '\n')
    requires ReadTo(e, job, init + (p + "\n"), |init|).Ok?
    ensures var t := init + (p + "\n");
            ReadTo(e, job, t, |t|) == AddLine(e, job, ReadTo(e, job, t, |init|).value, Chomp(p))
  {
    hide AddLine, Chomp;
    var t := init + (p + "\n");
    var k := |t| - 1;
    forall i | |init| <= i < k ensures t[i] != '\n' {
      assert t[i] == p[i - |init|];
    }
    assert init != "" ==> t[|init| - 1] == init[|init| - 1];
    ReadSkips(e, job, t, |init|, k);
    LineStartSkips(t, |init|, k);
    assert t[|init|..k] == p;
  }

  lemma {:induction false} CacheIsTrue<S(!new)>(e: Env<S>, job: Job, rs: seq<Record<S>>)
    requires AllTrue(e, rs)
    ensures TrueCache(e, job, CacheOf(job, rs))
    decreases |rs|
  {
    if rs != [] {
      CacheIsTrue(e, job, rs[..|rs| - 1]);
      assert True(e, rs[|rs| - 1]);
    }
  }

  lemma {:induction false} LinesConcat<S>(e: Env<S>, a: seq<Record<S>>, b: seq<Record<S>>)
    ensures LinesOf(e, a + b) == LinesOf(e, a) + LinesOf(e, b)
    decreases |b|
  {
    if b == [] {
      assert a + b == a;
    } else {
      assert (a + b)[..|a + b| - 1] == a + b[..|b| - 1];
      LinesConcat(e, a, b[..|b| - 1]);
    }
  }

  // ---------------------------------------------------------------- bytes and characters

  /** Bytes cut from the end of a text are a text exactly when the cut is at a character boundary. */
  lemma CutTextIff(s: string, k: nat)
    requires k <= |Encode(s)|
    ensures ValidUtf8(Encode(s)[..k]) <==> IsBoundary(Encode(s), k)
  {
    hide Encode, ByteAt, IsBoundary;
    BoundaryIffOffset(s, k);
    if IsBoundary(Encode(s), k) {
      var m :| 0 <= m <= |s| && ByteAt(s, m) == k;
      PrefixBytes(s, m);
    }
    if ValidUtf8(Encode(s)[..k]) {
      CutText(s, k, Text(Encode(s)[..k]));
    }
  }

  lemma PrefixBytes(s: string, m: nat)
    requires m <= |s|
    ensures ByteAt(s, m) <= |Encode(s)| && Encode(s)[..ByteAt(s, m)] == Encode(s[..m])
  {
    EncodeSlice(s, 0, m);
    assert s[0..m] == s[..m];
  }

  /** A text whose bytes begin another text's bytes begins that text. */
  lemma CutText(s: string, k: nat, t: string)
    requires k <= |Encode(s)| && Encode(t) == Encode(s)[..k]
    ensures |t| <= |s| && t == s[..|t|] && ByteAt(s, |t|) == k
  {
    hide Encode, ByteAt, EncodeTo, CharAt, ScalarAt, IsContinuation, LeadWidth, Width;
    assert |Encode(t)| == ByteAt(t, |t|);
    var m := 0;
    if t == "" {
      assert ByteAt(t, 0) == 0 == ByteAt(s, 0) by { ByteAtZero(t); ByteAtZero(s); }
    } else {
      CharAtOffset(t, |t| - 1);
      var i := ByteAt(t, |t| - 1);
      assert Encode(t)[i] == Encode(s)[i];
      BoundaryIffOffset(s, i);
      m :| 0 <= m <= |s| && ByteAt(s, m) == i;
      assert m < |s| by { EncodeTotal(s); }
      CharAtOffset(s, m);
      m := m + 1;
    }
    PrefixBytes(s, m);
    EncodeInjective(t, s[..m]);
  }

  lemma EncodeTotal(s: string)
    ensures |Encode(s)| == ByteAt(s, |s|)
  {
  }

  // ---------------------------------------------------------------- every reachable log

  /** The first `k` bytes of the lines of true records. */
  ghost predicate Cuttable<S(!new)>(e: Env<S>, log: seq<Byte>, rs: seq<Record<S>>, k: nat) {
    AllTrue(e, rs) && k <= |Encode(LinesOf(e, rs))| && log == Encode(LinesOf(e, rs))[..k]
  }

  ghost predicate TornLog<S(!new)>(e: Env<S>, log: seq<Byte>) {
    exists rs, k :: Cuttable(e, log, rs, k)
  }

  /** A log of complete records, every one true. */
  ghost predicate WholeLog<S(!new)>(e: Env<S>, log: seq<Byte>, rs: seq<Record<S>>) {
    AllTrue(e, rs) && log == Encode(LinesOf(e, rs))
  }

  /** Opening a torn log leaves complete records and reads exactly those. */
  lemma OpensToRecords<S(!new)>(e: Env<S>, job: Job, log: seq<Byte>) returns (rs: seq<Record<S>>)
    requires Sound(e) && TornLog(e, log) && ValidUtf8(log)
    ensures WholeLog(e, Cut(log), rs) && Load(e, job, log) == Ok(CacheOf(job, rs))
  {
    hide Encode, ByteAt, LinesOf, LineStart, ReadTo, CacheOf, True, Sound;
    var all, k :| Cuttable(e, log, all, k);
    var t := Text(log);
    var lines := LinesOf(e, all);
    CutText(lines, k, t);
    var c := |t|;
    var j := CutKeepsRecords(e, all, c);
    rs := all[..j];
    assert t[..c] == lines[..c];
    LineStartLocal(t, lines, c);
    var a := LineStart(t, c);
    assert t[..a] == lines[..c][..a] == lines[..a] == LinesOf(e, rs);
    ReadCut(e, job, t);
    ReadsTheRecords(e, job, rs);
    assert AllTrue(e, rs);
  }

  lemma ReadCut<S>(e: Env<S>, job: Job, t: string)
    ensures var u := t[..LineStart(t, |t|)]; ReadTo(e, job, t, |t|) == ReadTo(e, job, u, |u|)
  {
    hide ReadTo;
    var a := LineStart(t, |t|);
    AfterLineStart(t, |t|);
    ReadSkips(e, job, t, a, |t|);
    assert t[..a] == t[..a][..a];
    ReadLocal(e, job, t, t[..a], a);
  }

  lemma WholeLogIsTorn<S(!new)>(e: Env<S>, log: seq<Byte>, rs: seq<Record<S>>)
    requires WholeLog(e, log, rs)
    ensures TornLog(e, log)
  {
    hide Encode, LinesOf;
    assert log[..|log|] == log;
    assert Cuttable(e, log, rs, |log|);
  }

  /** What a run writes goes after complete records and is complete records. */
  lemma RunAppendsRecords<S(!new)>(e: Env<S>, job: Job, log: seq<Byte>) returns (rs: seq<Record<S>>)
    requires Sound(e) && TornLog(e, log) && ValidUtf8(log)
    ensures WholeLog(e, After(e, job, log), rs)
    ensures Load(e, job, log).Ok? && Cut(log) <= After(e, job, log)
  {
    hide Encode, LinesOf, Cut, Load, ScoreHeads, True, CacheOf, Sound, TrueCache;
    var kept := OpensToRecords(e, job, log);
    CacheIsTrue(e, job, kept);
    var start := State(CacheOf(job, kept), [], false);
    ScoreHeadsKeeps(e, job, start, job.heads);
    var added := Written(e, job, CacheOf(job, kept));
    rs := kept + added;
    LinesConcat(e, kept, added);
    EncodeConcat(LinesOf(e, kept), LinesOf(e, added));
    assert AllTrue(e, rs);
  }

  /**
    What may happen to the log: a run goes to its end, is killed before it opens the log, or is killed
    with so many of its bytes written.
    */
  datatype Event = Runs(job: Job) | KilledUnopened(job: Job) | Killed(job: Job, bytes: nat)

  ghost function Next<S>(e: Env<S>, log: seq<Byte>, event: Event): seq<Byte> {
    match event
    case Runs(job) => After(e, job, log)
    case KilledUnopened(_) => log
    case Killed(job, n) =>
      var full := After(e, job, log);
      if |Cut(log)| <= n <= |full| then full[..n] else full
  }

  ghost function LogAfter<S>(e: Env<S>, events: seq<Event>): seq<Byte> {
    if events == [] then [] else Next(e, LogAfter(e, events[..|events| - 1]), events[|events| - 1])
  }

  lemma EventKeeps<S(!new)>(e: Env<S>, log: seq<Byte>, event: Event)
    requires Sound(e) && TornLog(e, log)
    ensures TornLog(e, Next(e, log, event))
  {
    hide Encode, LinesOf, Load, Written, True, Sound;
    if ValidUtf8(log) {
      hide Cut;
      var rs := RunAppendsRecords(e, event.job, log);
      var full := After(e, event.job, log);
      WholeLogIsTorn(e, full, rs);
      if event.Killed? && event.bytes <= |full| {
        assert Cuttable(e, full[..event.bytes], rs, event.bytes);
      }
    } else {
      assert After(e, event.job, log) == log by { UnreadableStays(e, event.job, log); }
      assert log[..|log|] == log;
    }
  }

  /** A log cut inside a character is refused by every run, and no run changes it. */
  lemma UnreadableStays<S>(e: Env<S>, job: Job, log: seq<Byte>)
    requires !ValidUtf8(log)
    ensures Load(e, job, log) == Err(NotUtf8) && After(e, job, log) == log && Cut(log) == log
  {
  }

  lemma {:induction false} LogsAreTorn<S(!new)>(e: Env<S>, events: seq<Event>)
    requires Sound(e)
    ensures TornLog(e, LogAfter(e, events))
    decreases |events|
  {
    hide Next, TornLog, Sound;
    if events == [] {
      EmptyLog(e);
    } else {
      LogsAreTorn(e, events[..|events| - 1]);
      EventKeeps(e, LogAfter(e, events[..|events| - 1]), events[|events| - 1]);
    }
  }

  lemma EmptyLog<S(!new)>(e: Env<S>)
    ensures TornLog(e, [])
  {
    var rs: seq<Record<S>> := [];
    assert Cuttable(e, [], rs, 0);
  }

  /** Once a log is cut inside a character, nothing that happens later changes it, and no run can load it. */
  lemma {:induction false} BlockedForGood<S>(e: Env<S>, events: seq<Event>, later: seq<Event>)
    requires !ValidUtf8(LogAfter(e, events))
    ensures LogAfter(e, events + later) == LogAfter(e, events)
    ensures forall job :: Load(e, job, LogAfter(e, events + later)) == Err(NotUtf8)
    decreases |later|
  {
    hide LogAfter, ValidUtf8;
    if later == [] {
      assert events + later == events;
    } else {
      var init, last := later[..|later| - 1], later[|later| - 1];
      BlockedForGood(e, events, init);
      assert (events + later)[..|events + later| - 1] == events + init;
      LastEvent(e, events + later);
      UnreadableStays(e, last.job, LogAfter(e, events));
    }
  }

  lemma LastEvent<S>(e: Env<S>, events: seq<Event>)
    requires events != []
    ensures LogAfter(e, events) == Next(e, LogAfter(e, events[..|events| - 1]), events[|events| - 1])
  {
  }

  /** Every way of cutting a text's bytes leaves a text exactly when all its characters take one byte. */
  lemma EveryCutReadsIff(s: string)
    ensures (forall k | 0 <= k <= |Encode(s)| :: ValidUtf8(Encode(s)[..k])) <==> Narrow(s)
  {
    hide Encode, ByteAt, IsBoundary, ValidUtf8, Width;
    if forall k | 0 <= k <= |Encode(s)| :: ValidUtf8(Encode(s)[..k]) {
      forall i | 0 <= i < |s| ensures Width(s[i]) == 1 {
        InsideIsNoBoundary(s, i);
        var k := ByteAt(s, i) + 1;
        CharAtOffset(s, i);
        assert ValidUtf8(Encode(s)[..k]);
        CutTextIff(s, k);
      }
    }
    if forall i | 0 <= i < |s| :: Width(s[i]) == 1 {
      forall k | 0 <= k <= |Encode(s)| ensures ValidUtf8(Encode(s)[..k]) {
        EncodeTotal(s);
        NarrowOffsets(s, |s|);
        NarrowOffsets(s, k);
        CutTextIff(s, k);
        BoundaryIffOffset(s, k);
      }
    }
  }

  lemma InsideIsNoBoundary(s: string, i: nat)
    requires i < |s|
    ensures ByteAt(s, i) + 1 <= |Encode(s)|
    ensures IsBoundary(Encode(s), ByteAt(s, i) + 1) ==> Width(s[i]) == 1
  {
    hide Encode, ByteAt, ScalarAt, Width, LeadWidth;
    CharAtOffset(s, i);
    if Width(s[i]) != 1 {
      assert IsContinuation(Encode(s)[ByteAt(s, i) + 1]);
    }
  }

  lemma {:induction false} NarrowOffsets(s: string, k: nat)
    requires k <= |s| && forall i | 0 <= i < |s| :: Width(s[i]) == 1
    ensures ByteAt(s, k) == k
    decreases k
  {
    if k > 0 {
      NarrowOffsets(s, k - 1);
    }
  }

  predicate Narrow(t: string) {
    forall i | 0 <= i < |t| :: Width(t[i]) == 1
  }

  lemma {:induction false} NarrowLines<S(!new)>(e: Env<S>, rs: seq<Record<S>>)
    requires forall i | 0 <= i < |rs| :: Narrow(e.format(rs[i]))
    ensures Narrow(LinesOf(e, rs))
    decreases |rs|
  {
    if rs != [] {
      NarrowLines(e, rs[..|rs| - 1]);
      assert Narrow("\n");
    }
  }

  /** The history that tears a record inside its character `i`: one run of that pair alone, killed there. */
  function TearingKill<S>(e: Env<S>, r: Record<S>, i: nat): Event
    requires i < |e.format(r)|
  {
    var job := Job(r.key.model, r.key.dataset, [Head(r.key.pair.query, [r.key.pair.document])]);
    Killed(job, ByteAt(e.format(r), i) + 1)
  }

  lemma LonePair<S(!new)>(e: Env<S>, r: Record<S>)
    requires True(e, r)
    ensures var job := Job(r.key.model, r.key.dataset, [Head(r.key.pair.query, [r.key.pair.document])]);
            Written(e, job, map[]) == [r]
  {
    var p := r.key.pair;
    var h := Head(p.query, [p.document]);
    var job := Job(r.key.model, r.key.dataset, [h]);
    var s := State(map[], [], false);
    assert MissingTo(s.cache, h, 0) == [];
    assert MissingTo(s.cache, h, 1) == [p];
    NoPairs(e, job, s);
    assert [p][..0] == [];
    assert ScorePairs(e, job, s, [p]) == ScorePair(e, job, s, p);
    NoHeads(e, job, s);
    assert [h][..0] == [];
    assert r == Record(KeyOf(job, p), e.scorer(KeyOf(job, p)));
  }

  lemma EmptyLogLoads<S>(e: Env<S>, job: Job)
    ensures Cut([]) == [] && Load(e, job, []) == Ok(map[])
  {
    assert Encode("") == [];
    assert ValidUtf8([]);
    EncodeInjective("", Text([]));
    assert ReadTo(e, job, "", 0) == Ok(map[]);
  }

  /** A record whose line has a character wider than one byte can be torn inside it. */
  lemma WideCharacterTears<S(!new)>(e: Env<S>, r: Record<S>, i: nat)
    requires Sound(e) && True(e, r) && i < |e.format(r)| && Width(e.format(r)[i]) > 1
    ensures !ValidUtf8(LogAfter(e, [TearingKill(e, r, i)]))
  {
    hide Encode, ByteAt, EncodeTo, Width, Cut, Load, Written, True, Sound, ValidUtf8, IsBoundary, CharAt;
    var kill := TearingKill(e, r, i);
    var t := e.format(r);
    var line := t + "\n";
    LonePair(e, r);
    EmptyLogLoads(e, kill.job);
    WriteOne(e, [], r);
    assert [] + [r] == [r] && LinesOf(e, []) == "" && "" + line == line;
    assert After(e, kill.job, []) == [] + Encode(line) == Encode(line);
    assert line[..i] == t[..i] && line[i] == t[i];
    ByteAtLocal(line, t, i);
    InsideIsNoBoundary(line, i);
    CutTextIff(line, kill.bytes);
    LastEvent(e, [kill]);
    assert [kill][..0] == [];
    assert LogAfter(e, []) == [];
  }

  /**
    Every log that runs and kills can leave stays readable exactly when every record's line holds
    one-byte characters only.
    */
  lemma HistoriesReadableIff<S(!new)>(e: Env<S>)
    requires Sound(e)
    ensures AlwaysReadable(e) <==> forall r: Record<S> | True(e, r) :: Narrow(e.format(r))
  {
    hide AlwaysReadable, True, Narrow;
    if forall r: Record<S> | True(e, r) :: Narrow(e.format(r)) {
      NarrowIsReadable(e);
    }
    forall r: Record<S> | AlwaysReadable(e) && True(e, r) ensures Narrow(e.format(r)) {
      ReadableIsNarrow(e, r);
    }
  }

  ghost predicate AlwaysReadable<S(!new)>(e: Env<S>) {
    forall events :: ValidUtf8(LogAfter(e, events))
  }

  lemma NarrowIsReadable<S(!new)>(e: Env<S>)
    requires Sound(e) && forall r: Record<S> | True(e, r) :: Narrow(e.format(r))
    ensures AlwaysReadable(e)
  {
    hide ValidUtf8, LogAfter, Sound, True, TornLog;
    forall events ensures ValidUtf8(LogAfter(e, events)) {
      LogsAreTorn(e, events);
      NarrowTornLog(e, LogAfter(e, events));
    }
  }

  lemma ReadableIsNarrow<S(!new)>(e: Env<S>, r: Record<S>)
    requires Sound(e) && AlwaysReadable(e) && True(e, r)
    ensures Narrow(e.format(r))
  {
    hide ValidUtf8, LogAfter, Sound, True, Width;
    if i :| 0 <= i < |e.format(r)| && Width(e.format(r)[i]) > 1 {
      WideCharacterTears(e, r, i);
    }
  }

  lemma NarrowTornLog<S(!new)>(e: Env<S>, log: seq<Byte>)
    requires TornLog(e, log) && forall r: Record<S> | True(e, r) :: Narrow(e.format(r))
    ensures ValidUtf8(log)
  {
    hide ValidUtf8, Encode, True, Narrow;
    var rs, k :| Cuttable(e, log, rs, k);
    forall i | 0 <= i < |rs| ensures Narrow(e.format(rs[i])) {
      assert True(e, rs[i]);
    }
    NarrowLines(e, rs);
    EveryCutReadsIff(LinesOf(e, rs));
  }

  /** No pair the cache holds is scored or written again. */
  lemma {:induction false} WritesOnlyMissing<S>(e: Env<S>, job: Job, cache: map<Pair, S>, heads: seq<Head>)
    ensures var t := ScoreHeads(e, job, State(cache, [], false), heads);
            cache.Keys <= t.cache.Keys && NewTo(cache, t.written)
    decreases |heads|
  {
    hide ScorePairs, MissingTo;
    if heads != [] {
      WritesOnlyMissing(e, job, cache, heads[..|heads| - 1]);
      var s := ScoreHeads(e, job, State(cache, [], false), heads[..|heads| - 1]);
      var h := heads[|heads| - 1];
      MissingIsMissing(s.cache, h, |h.documents|);
      PairsWriteOnly(e, job, s, cache, Missing(s.cache, h));
    }
  }

  ghost predicate NewTo<S>(cache: map<Pair, S>, rs: seq<Record<S>>) {
    forall i | 0 <= i < |rs| :: rs[i].key.pair !in cache
  }

  lemma {:induction false} MissingIsMissing<S>(cache: map<Pair, S>, h: Head, n: nat)
    requires n <= |h.documents|
    ensures forall i | 0 <= i < |MissingTo(cache, h, n)| :: MissingTo(cache, h, n)[i] !in cache
    decreases n
  {
    if n > 0 {
      MissingIsMissing(cache, h, n - 1);
    }
  }

  lemma {:induction false} PairsWriteOnly<S>(e: Env<S>, job: Job, s: State<S>, cache: map<Pair, S>, ps: seq<Pair>)
    requires cache.Keys <= s.cache.Keys && NewTo(cache, s.written)
    requires forall i | 0 <= i < |ps| :: ps[i] !in s.cache
    ensures var t := ScorePairs(e, job, s, ps); cache.Keys <= t.cache.Keys && NewTo(cache, t.written)
    decreases |ps|
  {
    if ps != [] {
      PairsWriteOnly(e, job, s, cache, ps[..|ps| - 1]);
      assert ps[|ps| - 1] !in cache.Keys;
    }
  }

  // ---------------------------------------------------------------- the program

  /** What `read_to_string` gives: the text of the bytes, or an error when they have none. */
  ghost predicate ReadsAs(bytes: seq<Byte>, read: Option<string>) {
    match read
    case None => !ValidUtf8(bytes)
    case Some(t) => Encode(t) == bytes
  }

  class ScoreLog<S(==,!new)> {
    var bytes: seq<Byte>

    constructor ()
      ensures bytes == []
    {
      bytes := [];
    }

    /** Cuts the torn tail, then reads the records of this model and dataset. */
    method LoadCache(e: Env<S>, job: Job, read: Option<string>) returns (r: Result<map<Pair, S>, Failure>)
      requires ReadsAs(bytes, read)
      modifies this
      ensures bytes == Cut(old(bytes)) && r == Load(e, job, old(bytes))
    {
      hide Encode, ByteAt, AddLine, ReadTo, LineStart, Chomp;
      if read.None? {
        return Err(NotUtf8);
      }
      var t := read.value;
      assert ValidUtf8(bytes);
      EncodeInjective(t, Text(bytes));
      var complete := LastLineEnd(t);
      if complete < |t| {
        PrefixBytes(t, complete);
        bytes := bytes[..ByteAt(t, complete)];
      } else {
        assert t[..complete] == t;
      }
      ReadCut(e, job, t);
      r := ReadLines(e, job, t[..complete]);
    }

    /** One run: cached scores are reused, the missing ones are scored, written and cached. */
    method Run(e: Env<S>, job: Job, read: Option<string>) returns (r: Result<seq<seq<S>>, Failure>)
      requires Sound(e) && TornLog(e, bytes) && ReadsAs(bytes, read)
      modifies this
      ensures bytes == After(e, job, old(bytes))
      ensures r == if ValidUtf8(old(bytes)) then Fresh(e, job) else Err(NotUtf8)
    {
      hide Encode, LinesOf, Cut, True, CacheOf, Sound, Load, TornLog, TrueCache, ScoreHeads, FreshHeads;
      ghost var log := bytes;
      var loaded := LoadCache(e, job, read);
      if read.None? {
        UnreadableStays(e, job, log);
        return Err(NotUtf8);
      }
      assert ValidUtf8(log);
      ghost var rs := OpensToRecords(e, job, log);
      CacheIsTrue(e, job, rs);
      var out;
      r, out := ScoreAll(e, job, loaded.value);
      bytes := bytes + Encode(out);
    }
  }

  // ---------------------------------------------------------------- the lists a run writes

  /** A query's fused list, best first. */
  datatype Search = Search(query: string, fused: seq<string>)

  datatype Study = Study(model: string, dataset: string, depth: nat, searches: seq<Search>)

  /** The first `depth` fused documents of every query are scored. */
  function JobOf(study: Study): Job {
    Job(study.model, study.dataset,
        seq(|study.searches|, i requires 0 <= i < |study.searches| => HeadOf(study.searches[i], study.depth)))
  }

  function HeadOf(search: Search, depth: nat): Head {
    Head(search.query, search.fused[..Least(depth, |search.fused|)])
  }

  /** One slot per fused document, empty behind the scored ones. */
  function Slots<S>(scores: seq<S>, n: nat): (r: seq<Option<S>>)
    ensures |r| == n
  {
    seq(n, j => if 0 <= j < |scores| then Some(scores[j]) else None)
  }

  /** How a fused list and its slots are made into the list that is written; it holds `k` and `alpha`. */
  type Rule<!S> = (seq<string>, seq<Option<S>>) -> seq<string>

  function ListsTo<S>(study: Study, scores: seq<seq<S>>, rule: Rule<S>, n: nat): seq<seq<string>>
    requires n <= |study.searches| && n <= |scores|
  {
    if n == 0 then []
    else
      var fused := study.searches[n - 1].fused;
      ListsTo(study, scores, rule, n - 1) + [rule(fused, Slots(scores[n - 1], |fused|))]
  }

  lemma {:induction false} FreshCount<S>(e: Env<S>, job: Job, heads: seq<Head>)
    requires FreshHeads(e, job, heads).Ok?
    ensures |FreshHeads(e, job, heads).value| == |heads|
    decreases |heads|
  {
    hide HeadFinite;
    if heads != [] {
      FreshCount(e, job, heads[..|heads| - 1]);
    }
  }

  /** The lists a study writes when every pair is scored afresh. */
  function FreshLists<S>(e: Env<S>, study: Study, rule: Rule<S>): Result<seq<seq<string>>, Failure> {
    match Fresh(e, JobOf(study))
    case Err(failure) => Err(failure)
    case Ok(scores) =>
      FreshCount(e, JobOf(study), JobOf(study).heads);
      Ok(ListsTo(study, scores, rule, |study.searches|))
  }

  /** What the cross-encoder gives the fused document at place `j` of search `i`. */
  function FreshScore<S>(e: Env<S>, study: Study, i: nat, j: nat): S
    requires i < |study.searches| && j < |study.searches[i].fused|
  {
    e.scorer(Key(study.model, study.dataset, Pair(study.searches[i].query, study.searches[i].fused[j])))
  }

  /** The slots of search `i`: the fresh score of each of its first `depth` documents, and nothing from there on. */
  ghost predicate SlotsAre<S(!new)>(e: Env<S>, study: Study, i: nat, slots: seq<Option<S>>)
    requires i < |study.searches|
  {
    |slots| == |study.searches[i].fused| &&
    forall j | 0 <= j < |slots| :: slots[j] == if j < study.depth then Some(FreshScore(e, study, i, j)) else None
  }

  ghost predicate ListIs<S(!new)>(e: Env<S>, study: Study, rule: Rule<S>, i: nat, list: seq<string>)
    requires i < |study.searches|
  {
    exists slots :: SlotsAre(e, study, i, slots) && list == rule(study.searches[i].fused, slots)
  }

  /** Every score a study asks for is finite. */
  ghost predicate StudyFinite<S(!new)>(e: Env<S>, study: Study) {
    forall i, j | 0 <= i < |study.searches| && 0 <= j < Least(study.depth, |study.searches[i].fused|) ::
      e.finite(FreshScore(e, study, i, j))
  }

  /** One list for each search, by the rule; or an error, exactly when some score is not finite. */
  ghost predicate StudyGives<S(!new)>(e: Env<S>, study: Study, rule: Rule<S>, r: Result<seq<seq<string>>, Failure>) {
    match r
    case Err(failure) => failure == ScoreNotFinite && !StudyFinite(e, study)
    case Ok(lists) =>
      StudyFinite(e, study) && |lists| == |study.searches| &&
      forall i | 0 <= i < |lists| :: ListIs(e, study, rule, i, lists[i])
  }

  lemma {:induction false} FreshHeadsAre<S(!new)>(e: Env<S>, job: Job, heads: seq<Head>)
    ensures FreshHeads(e, job, heads).Err? ==> FreshHeads(e, job, heads) == Err(ScoreNotFinite)
    ensures FreshHeads(e, job, heads).Ok? <==> forall i | 0 <= i < |heads| :: HeadFinite(e, job, heads[i])
    ensures FreshHeads(e, job, heads).Ok? ==>
              |FreshHeads(e, job, heads).value| == |heads| &&
              forall i | 0 <= i < |heads| :: FreshHeads(e, job, heads).value[i] == FreshHead(e, job, heads[i])
    decreases |heads|
  {
    hide HeadFinite, FreshHead;
    if heads != [] {
      FreshHeadsAre(e, job, heads[..|heads| - 1]);
    }
  }

  lemma {:induction false} ListsToAre<S>(study: Study, scores: seq<seq<S>>, rule: Rule<S>, n: nat)
    requires n <= |study.searches| && n <= |scores|
    ensures |ListsTo(study, scores, rule, n)| == n
    ensures forall i | 0 <= i < n ::
              ListsTo(study, scores, rule, n)[i] ==
              rule(study.searches[i].fused, Slots(scores[i], |study.searches[i].fused|))
    decreases n
  {
    hide Slots;
    if n > 0 {
      ListsToAre(study, scores, rule, n - 1);
    }
  }

  lemma HeadIsFinite<S(!new)>(e: Env<S>, study: Study, i: nat)
    requires i < |study.searches|
    ensures HeadFinite(e, JobOf(study), HeadOf(study.searches[i], study.depth)) <==>
            forall j | 0 <= j < Least(study.depth, |study.searches[i].fused|) :: e.finite(FreshScore(e, study, i, j))
  {
    var job, h := JobOf(study), HeadOf(study.searches[i], study.depth);
    forall j | 0 <= j < |h.documents|
      ensures e.scorer(KeyOf(job, Pair(h.query, h.documents[j]))) == FreshScore(e, study, i, j)
    {
    }
  }

  lemma HeadFillsSlots<S(!new)>(e: Env<S>, study: Study, i: nat)
    requires i < |study.searches|
    ensures var h := HeadOf(study.searches[i], study.depth);
            SlotsAre(e, study, i, Slots(FreshHead(e, JobOf(study), h), |study.searches[i].fused|))
  {
  }

  /** The lists of scoring afresh, said of the fused lists, the cross-encoder and the rule alone. */
  lemma FreshListsAre<S(!new)>(e: Env<S>, study: Study, rule: Rule<S>)
    ensures StudyGives(e, study, rule, FreshLists(e, study, rule))
  {
    hide HeadFinite, FreshHead, SlotsAre, FreshHeads, Slots, ListsTo, FreshScore, HeadOf;
    var job := JobOf(study);
    FreshHeadsAre(e, job, job.heads);
    forall i | 0 <= i < |study.searches|
      ensures HeadFinite(e, job, job.heads[i]) <==>
              forall j | 0 <= j < Least(study.depth, |study.searches[i].fused|) :: e.finite(FreshScore(e, study, i, j))
    {
      HeadIsFinite(e, study, i);
    }
    if Fresh(e, job).Ok? {
      ListsToAre(study, Fresh(e, job).value, rule, |study.searches|);
      forall i | 0 <= i < |study.searches|
        ensures ListIs(e, study, rule, i, FreshLists(e, study, rule).value[i])
      {
        HeadFillsSlots(e, study, i);
      }
    }
  }

  /**
    A whole study over a log that runs and kills may have left: its lists are those of scoring afresh, one for each
    search, made by the rule from the fused list and the score of each of its first `depth` documents.
    */
  method Rerank<S(==,!new)>(log: ScoreLog<S>, e: Env<S>, study: Study, rule: Rule<S>, read: Option<string>)
    returns (r: Result<seq<seq<string>>, Failure>)
    requires Sound(e) && TornLog(e, log.bytes) && ReadsAs(log.bytes, read)
    modifies log
    ensures log.bytes == After(e, JobOf(study), old(log.bytes))
    ensures r == if ValidUtf8(old(log.bytes)) then FreshLists(e, study, rule) else Err(NotUtf8)
    ensures ValidUtf8(old(log.bytes)) ==> StudyGives(e, study, rule, r)
  {
    hide Sound, TornLog, ReadsAs, After, FreshHeads, ValidUtf8, StudyGives;
    FreshListsAre(e, study, rule);
    var scored := log.Run(e, JobOf(study), read);
    if scored.Err? {
      return Err(scored.error);
    }
    var scores := scored.value;
    FreshCount(e, JobOf(study), JobOf(study).heads);
    var lists: seq<seq<string>> := [];
    for i := 0 to |study.searches|
      invariant lists == ListsTo(study, scores, rule, i)
    {
      var fused := study.searches[i].fused;
      lists := lists + [rule(fused, Slots(scores[i], |fused|))];
    }
    r := Ok(lists);
  }

  /** The position after the last newline. */
  method LastLineEnd(t: string) returns (complete: nat)
    ensures complete == LineStart(t, |t|)
  {
    complete := |t|;
    while complete > 0 && t[complete - 1] != '\n'
      invariant complete <= |t| && LineStart(t, complete) == LineStart(t, |t|)
    {
      complete := complete - 1;
    }
  }

  method ReadLines<S>(e: Env<S>, job: Job, t: string) returns (r: Result<map<Pair, S>, Failure>)
    ensures r == ReadTo(e, job, t, |t|)
  {
    hide AddLine, Chomp;
    var cache: map<Pair, S> := map[];
    var start := 0;
    for i := 0 to |t|
      invariant start == LineStart(t, i)
      invariant ReadTo(e, job, t, i) == Ok(cache)
    {
      if t[i] == '\n' {
        var added := AddLine(e, job, cache, Chomp(t[start..i]));
        start := i + 1;
        if added.Err? {
          ErrorStays(e, job, t, i + 1, |t|);
          return added;
        }
        cache := added.value;
      }
    }
    return Ok(cache);
  }

  lemma {:induction false} ErrorStays<S>(e: Env<S>, job: Job, t: string, i: nat, k: nat)
    requires i <= k <= |t| && ReadTo(e, job, t, i).Err?
    ensures ReadTo(e, job, t, k) == ReadTo(e, job, t, i)
    decreases k
  {
    if i < k {
      ErrorStays(e, job, t, i, k - 1);
    }
  }

  function PairAt(h: Head, j: nat): Pair
    requires j < |h.documents|
  {
    Pair(h.query, h.documents[j])
  }

  ghost predicate ScoredAt<S(!new)>(e: Env<S>, job: Job, h: Head, slots: seq<Option<S>>, j: nat)
    requires j < |h.documents| == |slots|
  {
    slots[j] == Some(e.scorer(KeyOf(job, PairAt(h, j))))
  }

  /** The cached scores of a head, and the positions that have none. */
  method LookUp<S(==,!new)>(e: Env<S>, job: Job, cache: map<Pair, S>, h: Head)
    returns (slots: seq<Option<S>>, missing: seq<nat>)
    requires TrueCache(e, job, cache)
    ensures |slots| == |h.documents| && |missing| == |Missing(cache, h)|
    ensures forall i | 0 <= i < |missing| :: missing[i] < |h.documents| && PairAt(h, missing[i]) == Missing(cache, h)[i]
    ensures forall j | 0 <= j < |slots| :: j in missing || ScoredAt(e, job, h, slots, j)
  {
    slots, missing := seq(|h.documents|, _ => None), [];
    for j := 0 to |h.documents|
      invariant |slots| == |h.documents| && |missing| == |MissingTo(cache, h, j)|
      invariant forall i | 0 <= i < |missing| ::
          missing[i] < |h.documents| && PairAt(h, missing[i]) == MissingTo(cache, h, j)[i]
      invariant forall k | 0 <= k < j :: k in missing || ScoredAt(e, job, h, slots, k)
    {
      ghost var before := missing;
      var p := Pair(h.query, h.documents[j]);
      if p in cache {
        assert True(e, Record(KeyOf(job, p), cache[p]));
        slots := slots[j := Some(cache[p])];
      } else {
        missing := missing + [j];
        assert missing[|missing| - 1] == j;
      }
      assert forall k | 0 <= k < j && k in before :: k in missing;
    }
  }

  /**
    Scores the missing positions of one head in order, writing and caching each; a score that is not
    finite ends it.
    */
  method ScoreMissing<S(==,!new)>(e: Env<S>, job: Job, h: Head, missing: seq<nat>, slots0: seq<Option<S>>,
                                  cache0: map<Pair, S>, out0: string, ghost s: State<S>, ghost pairs: seq<Pair>)
    returns (slots: seq<Option<S>>, cache: map<Pair, S>, out: string, failed: bool)
    requires |slots0| == |h.documents| && |missing| == |pairs|
    requires forall i | 0 <= i < |missing| :: missing[i] < |h.documents| && PairAt(h, missing[i]) == pairs[i]
    requires s.cache == cache0 && !s.failed && out0 == LinesOf(e, s.written)
    ensures var t := ScorePairs(e, job, s, pairs);
            failed == t.failed && out == LinesOf(e, t.written) && (!failed ==> cache == t.cache)
    ensures |slots| == |h.documents|
    ensures !failed ==> forall i | 0 <= i < |missing| :: ScoredAt(e, job, h, slots, missing[i])
    ensures forall j | 0 <= j < |slots| && j !in missing :: slots[j] == slots0[j]
  {
    hide ScorePairs, LinesOf;
    slots, cache, out, failed := slots0, cache0, out0, false;
    NoPairs(e, job, s);
    assert pairs[..0] == [];
    for i := 0 to |missing|
      invariant |slots| == |h.documents|
      invariant var t := ScorePairs(e, job, s, pairs[..i]);
                !t.failed && t.cache == cache && out == LinesOf(e, t.written)
      invariant forall k | 0 <= k < i :: ScoredAt(e, job, h, slots, missing[k])
      invariant forall j | 0 <= j < |slots| && j !in missing :: slots[j] == slots0[j]
    {
      ghost var t := ScorePairs(e, job, s, pairs[..i]);
      NextPair(e, job, s, pairs, i);
      var p := PairAt(h, missing[i]);
      assert p == pairs[i];
      var key := KeyOf(job, p);
      var score := e.scorer(key);
      if !e.finite(score) {
        PairsStop(e, job, s, pairs, i + 1, |pairs|);
        assert pairs[..|pairs|] == pairs;
        failed := true;
        return;
      }
      slots := slots[missing[i] := Some(score)];
      out := out + (e.format(Record(key, score)) + "\n");
      WriteOne(e, t.written, Record(key, score));
      cache := cache[p := score];
    }
    assert pairs[..|pairs|] == pairs;
  }

  lemma WriteOne<S>(e: Env<S>, rs: seq<Record<S>>, r: Record<S>)
    ensures LinesOf(e, rs + [r]) == LinesOf(e, rs) + (e.format(r) + "\n")
  {
    assert (rs + [r])[..|rs|] == rs;
  }

  lemma NoPairs<S>(e: Env<S>, job: Job, s: State<S>)
    ensures ScorePairs(e, job, s, []) == s
  {
  }

  lemma NextPair<S>(e: Env<S>, job: Job, s: State<S>, ps: seq<Pair>, i: nat)
    requires i < |ps|
    ensures ScorePairs(e, job, s, ps[..i + 1]) == ScorePair(e, job, ScorePairs(e, job, s, ps[..i]), ps[i])
  {
    assert ps[..i + 1][..i] == ps[..i];
  }

  lemma {:induction false} PairsStop<S>(e: Env<S>, job: Job, s: State<S>, ps: seq<Pair>, i: nat, k: nat)
    requires i <= k <= |ps| && ScorePairs(e, job, s, ps[..i]).failed
    ensures ScorePairs(e, job, s, ps[..k]) == ScorePairs(e, job, s, ps[..i])
    decreases k
  {
    hide ScorePairs;
    if i < k {
      PairsStop(e, job, s, ps, i, k - 1);
      NextPair(e, job, s, ps, k - 1);
    }
  }

  /** One head: its scores are the fresh ones, whatever the cache already held. */
  method ScoreOne<S(==,!new)>(e: Env<S>, job: Job, cache0: map<Pair, S>, h: Head, out0: string, ghost s: State<S>)
    returns (r: Result<seq<S>, Failure>, cache: map<Pair, S>, out: string)
    requires s.cache == cache0 && !s.failed && out0 == LinesOf(e, s.written) && Honest(e, job, s)
    ensures var t := ScoreHead(e, job, s, h); out == LinesOf(e, t.written) && (r.Ok? ==> cache == t.cache && !t.failed)
    ensures r == if HeadFinite(e, job, h) then Ok(FreshHead(e, job, h)) else Err(ScoreNotFinite)
  {
    hide ScorePairs, MissingTo, Missing, LinesOf, True, HeadFinite;
    ScoreHeadKeeps(e, job, s, h);
    var slots, missing := LookUp(e, job, cache0, h);
    var failed;
    slots, cache, out, failed := ScoreMissing(e, job, h, missing, slots, cache0, out0, s, Missing(cache0, h));
    if failed {
      return Err(ScoreNotFinite), cache, out;
    }
    forall j | 0 <= j < |slots| ensures slots[j] == Some(FreshHead(e, job, h)[j]) {
      if j in missing {
        var i :| 0 <= i < |missing| && missing[i] == j;
      }
      assert ScoredAt(e, job, h, slots, j);
    }
    var scores := seq(|slots|, j requires 0 <= j < |slots| && slots[j].Some? => slots[j].value);
    assert scores == FreshHead(e, job, h);
    r := Ok(scores);
  }

  /** Every head's scores, and the lines written on the way. */
  method ScoreAll<S(==,!new)>(e: Env<S>, job: Job, loaded: map<Pair, S>)
    returns (r: Result<seq<seq<S>>, Failure>, out: string)
    requires TrueCache(e, job, loaded)
    ensures r == Fresh(e, job)
    ensures out == LinesOf(e, Written(e, job, loaded))
  {
    hide ScoreHead, HeadFinite, TrueCache, FreshHead, ScoreHeads, FreshHeads;
    var cache := loaded;
    out := "";
    var lists: seq<seq<S>> := [];
    ghost var start := State(loaded, [], false);
    NoHeads(e, job, start);
    assert job.heads[..0] == [];
    for i := 0 to |job.heads|
      invariant var s := ScoreHeads(e, job, start, job.heads[..i]);
                s.cache == cache && !s.failed && out == LinesOf(e, s.written)
      invariant FreshHeads(e, job, job.heads[..i]) == Ok(lists)
    {
      ScoreHeadsKeeps(e, job, start, job.heads[..i]);
      NextHead(e, job, start, job.heads, i);
      var scores;
      scores, cache, out := ScoreOne(e, job, cache, job.heads[i], out, ScoreHeads(e, job, start, job.heads[..i]));
      if scores.Err? {
        ScoreHeadsKeeps(e, job, start, job.heads[..i + 1]);
        HeadsStop(e, job, start, job.heads, i + 1, |job.heads|);
        assert job.heads[..|job.heads|] == job.heads;
        return Err(ScoreNotFinite), out;
      }
      lists := lists + [scores.value];
    }
    assert job.heads[..|job.heads|] == job.heads;
    r := Ok(lists);
  }

  lemma NoHeads<S>(e: Env<S>, job: Job, s: State<S>)
    ensures ScoreHeads(e, job, s, []) == s && FreshHeads(e, job, []) == Ok([])
    ensures s.written == [] ==> LinesOf(e, s.written) == ""
  {
  }

  lemma NextHead<S>(e: Env<S>, job: Job, s: State<S>, hs: seq<Head>, i: nat)
    requires i < |hs|
    ensures ScoreHeads(e, job, s, hs[..i + 1]) == ScoreHead(e, job, ScoreHeads(e, job, s, hs[..i]), hs[i])
    ensures var before := FreshHeads(e, job, hs[..i]);
            FreshHeads(e, job, hs[..i + 1]) ==
              if before.Err? then before
              else if HeadFinite(e, job, hs[i]) then Ok(before.value + [FreshHead(e, job, hs[i])])
                else Err(ScoreNotFinite)
  {
    hide ScoreHead, HeadFinite, FreshHead;
    assert hs[..i + 1][..i] == hs[..i];
  }

  lemma {:induction false} HeadsStop<S>(e: Env<S>, job: Job, s: State<S>, hs: seq<Head>, i: nat, k: nat)
    requires i <= k <= |hs| && ScoreHeads(e, job, s, hs[..i]).failed && FreshHeads(e, job, hs[..i]).Err?
    ensures ScoreHeads(e, job, s, hs[..k]) == ScoreHeads(e, job, s, hs[..i])
    ensures FreshHeads(e, job, hs[..k]) == FreshHeads(e, job, hs[..i])
    decreases k
  {
    hide ScoreHeads, FreshHeads, ScorePairs, Missing;
    if i < k {
      HeadsStop(e, job, s, hs, i, k - 1);
      NextHead(e, job, s, hs, k - 1);
      StaysFailed(e, job, ScoreHeads(e, job, s, hs[..k - 1]), hs[k - 1]);
    }
  }

  lemma StaysFailed<S>(e: Env<S>, job: Job, s: State<S>, h: Head)
    requires s.failed
    ensures ScoreHead(e, job, s, h) == s
  {
    hide Missing;
    PairsStayFailed(e, job, s, Missing(s.cache, h));
  }

  lemma {:induction false} PairsStayFailed<S>(e: Env<S>, job: Job, s: State<S>, ps: seq<Pair>)
    requires s.failed
    ensures ScorePairs(e, job, s, ps) == s
    decreases |ps|
  {
    if ps != [] {
      PairsStayFailed(e, job, s, ps[..|ps| - 1]);
    }
  }
}
