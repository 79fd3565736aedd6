/**
  What a score log holds, line by line: which line stops the reading and with what error, which line decides a pair, and
  that a completed run leaves every score it needed in the log.
  */
module ScoreLogs {
  import opened Common
  import opened Utf8
  import opened ScoreCache

  // ---------------------------------------------------------------- reading, line by line

  /** A file of complete lines. */
  function FileOf(lines: seq<string>): string {
    if lines == [] then "" else FileOf(lines[..|lines| - 1]) + (lines[|lines| - 1] + "\n")
  }

  predicate NoBreaks(lines: seq<string>) {
    forall i | 0 <= i < |lines| :: '\n' !in lines[i]
  }

  /** A line ends before its line feed, and before one carriage return in front of that. */
  lemma ChompIs(t: string)
    ensures Chomp(t + "\r") == t
    ensures t == "" || t[|t| - 1] != '\r' ==> Chomp(t) == t
  {
    assert (t + "\r")[..|t|] == t;
  }

  /** The line records `score` for this key; a carriage return at its end does not matter. */
  predicate Records<S(==)>(e: Env<S>, line: string, key: Key, score: S) {
    e.parse(Chomp(line)) == Keyed(Record(key, score))
  }

  /** What is wrong with a line: it does not parse, lacks its model or dataset, or holds no finite score for the job. */
  ghost predicate FaultIs<S(!new)>(e: Env<S>, job: Job, line: string, failure: Failure) {
    var parsed := e.parse(Chomp(line));
    (parsed == Unparsable && failure == BadLine) ||
    (parsed == NoKey && failure == NoKeyRecorded) ||
    (failure == StoredScoreNotFinite && exists p, score :: Records(e, line, KeyOf(job, p), score) && !e.finite(score))
  }

  ghost predicate Sane<S(!new)>(e: Env<S>, job: Job, line: string) {
    forall failure :: !FaultIs(e, job, line, failure)
  }

  /** Line `i` is the last to record the pair. */
  ghost predicate LastFor<S(!new)>(e: Env<S>, job: Job, lines: seq<string>, i: nat, p: Pair, score: S) {
    && i < |lines|
    && Records(e, lines[i], KeyOf(job, p), score)
    && forall j, other | i < j < |lines| :: !Records(e, lines[j], KeyOf(job, p), other)
  }

  /** The first line with a fault, and the fault. */
  ghost predicate FirstFault<S(!new)>(e: Env<S>, job: Job, lines: seq<string>, i: nat, failure: Failure) {
    i < |lines| && FaultIs(e, job, lines[i], failure) && forall j | 0 <= j < i :: Sane(e, job, lines[j])
  }

  predicate Holds<S(==)>(cache: map<Pair, S>, p: Pair, score: S) {
    p in cache && cache[p] == score
  }

  ghost predicate RecordsPair<S(!new)>(e: Env<S>, job: Job, line: string, p: Pair) {
    exists score :: Records(e, line, KeyOf(job, p), score)
  }

  lemma AddLineIs<S(!new)>(e: Env<S>, job: Job, cache: map<Pair, S>, line: string)
    ensures var r := AddLine(e, job, cache, Chomp(line));
            (r.Err? ==> FaultIs(e, job, line, r.error)) && (r.Ok? ==> Sane(e, job, line)) &&
            (r.Ok? ==> forall p, score :: Holds(r.value, p, score) <==>
               Records(e, line, KeyOf(job, p), score) || (Holds(cache, p, score) && !RecordsPair(e, job, line, p)))
  {
    hide Chomp;
    var parsed := e.parse(Chomp(line));
    if parsed.Keyed? {
      var k := parsed.record.key;
      assert Records(e, line, k, parsed.record.score);
      assert k.model == job.model && k.dataset == job.dataset ==> k == KeyOf(job, k.pair);
    }
  }

  lemma ReadLine<S>(e: Env<S>, job: Job, init: string, line: string)
    requires '\n' !in line && (init == "" || init[|init| - 1] == '\n')
    ensures var t := init + (line + "\n");
            var before := ReadTo(e, job, init, |init|);
            ReadTo(e, job, t, |t|) == if before.Err? then before else AddLine(e, job, before.value, Chomp(line))
  {
    hide AddLine, Chomp;
    var t := init + (line + "\n");
    assert t[..|init|] == init[..|init|];
    ReadLocal(e, job, t, init, |init|);
    if ReadTo(e, job, init, |init|).Ok? {
      LastLine(e, job, init, line);
    } else {
      ErrorStays(e, job, t, |init|, |t|);
    }
  }

  lemma FileEnds(lines: seq<string>)
    ensures lines == [] <==> FileOf(lines) == ""
    ensures lines != [] ==> FileOf(lines)[|FileOf(lines)| - 1] == '\n'
  {
  }

  ghost predicate LastRecords<S(!new)>(e: Env<S>, job: Job, lines: seq<string>, p: Pair, score: S) {
    exists i: nat :: LastFor(e, job, lines, i, p, score)
  }

  lemma LastSnoc<S(!new)>(e: Env<S>, job: Job, lines: seq<string>, line: string, p: Pair, score: S)
    ensures LastRecords(e, job, lines + [line], p, score) <==>
            Records(e, line, KeyOf(job, p), score) ||
            (LastRecords(e, job, lines, p, score) && !RecordsPair(e, job, line, p))
  {
    hide Records;
    var longer, n: nat := lines + [line], |lines|;
    assert longer[n] == line && forall j | 0 <= j < n :: longer[j] == lines[j];
    if Records(e, line, KeyOf(job, p), score) {
      assert LastFor(e, job, longer, n, p, score);
    }
    if LastRecords(e, job, lines, p, score) && !RecordsPair(e, job, line, p) {
      var i: nat :| LastFor(e, job, lines, i, p, score);
      assert LastFor(e, job, longer, i, p, score);
    }
    if i: nat :| LastFor(e, job, longer, i, p, score) {
      if i < n {
        LastBefore(e, job, lines, line, i, p, score);
      }
    }
  }

  lemma LastBefore<S(!new)>(e: Env<S>, job: Job, lines: seq<string>, line: string, i: nat, p: Pair, score: S)
    requires i < |lines| && LastFor(e, job, lines + [line], i, p, score)
    ensures LastFor(e, job, lines, i, p, score) && !RecordsPair(e, job, line, p)
  {
    hide Records;
    var longer := lines + [line];
    assert longer[|lines|] == line && forall j | 0 <= j < |lines| :: longer[j] == lines[j];
  }

  /**
    Reading a file of complete lines: the first line with a fault decides the error, and without one the cache holds
    each pair some line records for the job, with the score of the last such line.
    */
  lemma {:induction false} ReadingMeans<S(!new)>(e: Env<S>, job: Job, lines: seq<string>)
    requires NoBreaks(lines)
    ensures var r := ReadTo(e, job, FileOf(lines), |FileOf(lines)|);
            (r.Ok? <==> forall i | 0 <= i < |lines| :: Sane(e, job, lines[i])) &&
            (r.Err? ==> exists i: nat :: FirstFault(e, job, lines, i, r.error)) &&
            (r.Ok? ==> forall p, score :: Holds(r.value, p, score) <==> LastRecords(e, job, lines, p, score))
    decreases |lines|
  {
    hide FaultIs, Holds, AddLine, Chomp, ReadTo, LastRecords, RecordsPair, Records, Sane;
    if lines == [] {
      NothingRead(e, job);
    } else {
      var n := |lines| - 1;
      var init, line := lines[..n], lines[n];
      assert lines == init + [line];
      ReadingMeans(e, job, init);
      FileEnds(init);
      ReadLine(e, job, FileOf(init), line);
      var before := ReadTo(e, job, FileOf(init), |FileOf(init)|);
      if before.Err? {
        var i: nat :| FirstFault(e, job, init, i, before.error);
        assert FirstFault(e, job, lines, i, before.error);
        FaultyLine(e, job, lines[i], before.error);
      } else {
        AddLineIs(e, job, before.value, line);
        forall p, score ensures LastRecords(e, job, lines, p, score) <==>
          Records(e, line, KeyOf(job, p), score) ||
          (LastRecords(e, job, init, p, score) && !RecordsPair(e, job, line, p))
        {
          LastSnoc(e, job, init, line, p, score);
        }
        AddError(e, job, before.value, line);
        var r := ReadTo(e, job, FileOf(lines), |FileOf(lines)|);
        if r.Err? {
          assert FirstFault(e, job, lines, n, r.error);
        }
      }
    }
  }

  lemma AddError<S(!new)>(e: Env<S>, job: Job, cache: map<Pair, S>, line: string)
    ensures AddLine(e, job, cache, Chomp(line)).Err? ==> !Sane(e, job, line)
  {
    hide AddLine, FaultIs, Chomp;
    AddLineIs(e, job, cache, line);
  }

  lemma FaultyLine<S(!new)>(e: Env<S>, job: Job, line: string, failure: Failure)
    requires FaultIs(e, job, line, failure)
    ensures !Sane(e, job, line)
  {
    hide FaultIs;
  }

  lemma NothingRead<S(!new)>(e: Env<S>, job: Job)
    ensures ReadTo(e, job, "", 0) == Ok(map[])
    ensures forall p, score :: !Holds<S>(map[], p, score) && !LastRecords<S>(e, job, [], p, score)
  {
  }

  // ---------------------------------------------------------------- a completed run fills the cache

  lemma CacheSnoc<S>(job: Job, rs: seq<Record<S>>, p: Pair, score: S)
    ensures CacheOf(job, rs + [Record(KeyOf(job, p), score)]) == CacheOf(job, rs)[p := score]
  {
    assert (rs + [Record(KeyOf(job, p), score)])[..|rs|] == rs;
  }

  /** The cache in memory is what reading the records on disk would give. */
  predicate InStep<S(==)>(job: Job, kept: seq<Record<S>>, s: State<S>) {
    s.cache == CacheOf(job, kept + s.written)
  }

  lemma {:induction false} PairsInStep<S>(e: Env<S>, job: Job, kept: seq<Record<S>>, s: State<S>, ps: seq<Pair>)
    requires InStep(job, kept, s)
    ensures InStep(job, kept, ScorePairs(e, job, s, ps))
    decreases |ps|
  {
    hide CacheOf;
    if ps != [] {
      var init, p := ps[..|ps| - 1], ps[|ps| - 1];
      PairsInStep(e, job, kept, s, init);
      var t, score := ScorePairs(e, job, s, init), e.scorer(KeyOf(job, p));
      CacheSnoc(job, kept + t.written, p, score);
      assert kept + (t.written + [Record(KeyOf(job, p), score)]) ==
             kept + t.written + [Record(KeyOf(job, p), score)];
    }
  }

  lemma {:induction false} HeadsInStep<S>(e: Env<S>, job: Job, kept: seq<Record<S>>, s: State<S>, heads: seq<Head>)
    requires InStep(job, kept, s)
    ensures InStep(job, kept, ScoreHeads(e, job, s, heads))
    decreases |heads|
  {
    hide InStep, ScorePairs, Missing;
    if heads != [] {
      HeadsInStep(e, job, kept, s, heads[..|heads| - 1]);
      var t := ScoreHeads(e, job, s, heads[..|heads| - 1]);
      PairsInStep(e, job, kept, t, Missing(t.cache, heads[|heads| - 1]));
    }
  }

  ghost predicate HeadCached<S>(cache: map<Pair, S>, h: Head) {
    forall j | 0 <= j < |h.documents| :: Pair(h.query, h.documents[j]) in cache
  }

  lemma {:induction false} HeadsCached<S(!new)>(e: Env<S>, job: Job, s: State<S>, heads: seq<Head>)
    requires Honest(e, job, s) && !s.failed && !ScoreHeads(e, job, s, heads).failed
    ensures forall i | 0 <= i < |heads| :: HeadCached(ScoreHeads(e, job, s, heads).cache, heads[i])
    decreases |heads|
  {
    hide ScorePairs, MissingTo, Honest, HeadFinite, PairsFinite;
    if heads != [] {
      var init, h := heads[..|heads| - 1], heads[|heads| - 1];
      var t := ScoreHeads(e, job, s, init);
      ScoreHeadsKeeps(e, job, s, init);
      if t.failed {
        StaysFailed(e, job, t, h);
      } else {
        HeadsCached(e, job, s, init);
        ScoreHeadKeeps(e, job, t, h);
        HonestPairs(e, job, t, Missing(t.cache, h));
        CachedStays(t.cache, ScoreHead(e, job, t, h).cache, init);
      }
    }
  }

  lemma HonestPairs<S(!new)>(e: Env<S>, job: Job, s: State<S>, ps: seq<Pair>)
    requires Honest(e, job, s)
    ensures s.cache.Keys <= ScorePairs(e, job, s, ps).cache.Keys
  {
    hide Honest, ScorePairs;
    ScorePairsKeeps(e, job, s, ps);
  }

  lemma CachedStays<S>(small: map<Pair, S>, large: map<Pair, S>, heads: seq<Head>)
    requires small.Keys <= large.Keys && forall i | 0 <= i < |heads| :: HeadCached(small, heads[i])
    ensures forall i | 0 <= i < |heads| :: HeadCached(large, heads[i])
  {
    forall i | 0 <= i < |heads| ensures HeadCached(large, heads[i]) {
      assert HeadCached(small, heads[i]);
      forall j | 0 <= j < |heads[i].documents| ensures Pair(heads[i].query, heads[i].documents[j]) in large {
        assert Pair(heads[i].query, heads[i].documents[j]) in small.Keys;
      }
    }
  }

  lemma WholeLogLoads<S(!new)>(e: Env<S>, job: Job, log: seq<Byte>, rs: seq<Record<S>>)
    requires Sound(e) && WholeLog(e, log, rs)
    ensures ValidUtf8(log) && Load(e, job, log) == Ok(CacheOf(job, rs)) && Cut(log) == log
  {
    hide Encode, LinesOf, ReadTo, CacheOf, Sound, True, LineStart;
    var t := LinesOf(e, rs);
    assert Encode(t) == log;
    EncodeInjective(Text(log), t);
    ReadsTheRecords(e, job, rs);
    LinesEnd(e, rs);
    WholeCut(t);
  }

  lemma WholeCut(t: string)
    requires t == "" || t[|t| - 1] == '\n'
    ensures t[..LineStart(t, |t|)] == t
  {
  }

  /**
    After a run over a readable log that found every score finite, reading the log gives the fresh score of every pair
    of the job, and running the same job again writes nothing.
    */
  lemma RunFillsCache<S(!new)>(e: Env<S>, job: Job, log: seq<Byte>)
    requires Sound(e) && TornLog(e, log) && ValidUtf8(log) && Fresh(e, job).Ok?
    ensures var after := After(e, job, log);
            Load(e, job, after).Ok? &&
            (forall h, d | h in job.heads && d in h.documents ::
               Holds(Load(e, job, after).value, Pair(h.query, d),
                 e.scorer(Key(job.model, job.dataset, Pair(h.query, d)))))
            && After(e, job, after) == after
  {
    hide Encode, LinesOf, ScoreHeads, CacheOf, Sound, Cut, Load, FreshHeads, ValidUtf8, TornLog, Honest, Holds, Fresh;
    var kept := OpensToRecords(e, job, log);
    var start := State(CacheOf(job, kept), [], false);
    StartsHonest(e, job, kept, start);
    ScoreHeadsKeeps(e, job, start, job.heads);
    FreshIs(e, job);
    assert kept + [] == kept;
    HeadsInStep(e, job, kept, start, job.heads);
    HeadsCached(e, job, start, job.heads);
    var t := ScoreHeads(e, job, start, job.heads);
    HonestCache(e, job, t);
    RunLeaves(e, job, log, kept, t.written);
    var after := After(e, job, log);
    WholeLogLoads(e, job, after, kept + t.written);
    forall h, d | h in job.heads && d in h.documents
      ensures Holds(t.cache, Pair(h.query, d), e.scorer(Key(job.model, job.dataset, Pair(h.query, d))))
    {
      var i :| 0 <= i < |job.heads| && job.heads[i] == h;
      assert HeadCached(t.cache, h);
      PairHeld(e, job, t.cache, h, d);
    }
    NothingMissing(e, job, State(t.cache, [], false), job.heads);
    NothingAdded(e, after);
  }

  lemma FreshIs<S>(e: Env<S>, job: Job)
    ensures Fresh(e, job) == FreshHeads(e, job, job.heads)
  {
  }

  lemma StartsHonest<S(!new)>(e: Env<S>, job: Job, kept: seq<Record<S>>, s: State<S>)
    requires AllTrue(e, kept) && s == State(CacheOf(job, kept), [], false)
    ensures Honest(e, job, s)
  {
    hide CacheOf, True;
    CacheIsTrue(e, job, kept);
  }

  lemma RunLeaves<S(!new)>(e: Env<S>, job: Job, log: seq<Byte>, kept: seq<Record<S>>, added: seq<Record<S>>)
    requires WholeLog(e, Cut(log), kept) && Load(e, job, log) == Ok(CacheOf(job, kept))
    requires added == Written(e, job, CacheOf(job, kept)) && AllTrue(e, added)
    ensures WholeLog(e, After(e, job, log), kept + added)
  {
    hide Encode, LinesOf, Cut, Load, Written, True, CacheOf;
    LinesConcat(e, kept, added);
    EncodeConcat(LinesOf(e, kept), LinesOf(e, added));
  }

  lemma HonestCache<S(!new)>(e: Env<S>, job: Job, s: State<S>)
    requires Honest(e, job, s)
    ensures TrueCache(e, job, s.cache) && AllTrue(e, s.written)
  {
  }

  lemma PairHeld<S(!new)>(e: Env<S>, job: Job, cache: map<Pair, S>, h: Head, d: string)
    requires TrueCache(e, job, cache) && HeadCached(cache, h) && d in h.documents
    ensures Holds(cache, Pair(h.query, d), e.scorer(Key(job.model, job.dataset, Pair(h.query, d))))
  {
    var j :| 0 <= j < |h.documents| && h.documents[j] == d;
    assert Pair(h.query, h.documents[j]) in cache;
    assert True(e, Record(KeyOf(job, Pair(h.query, d)), cache[Pair(h.query, d)]));
  }

  lemma {:induction false} NoneMissing<S>(cache: map<Pair, S>, h: Head, n: nat)
    requires n <= |h.documents| && HeadCached(cache, h)
    ensures MissingTo(cache, h, n) == []
    decreases n
  {
    if n > 0 {
      NoneMissing(cache, h, n - 1);
    }
  }

  lemma {:induction false} NothingMissing<S>(e: Env<S>, job: Job, s: State<S>, heads: seq<Head>)
    requires forall i | 0 <= i < |heads| :: HeadCached(s.cache, heads[i])
    ensures ScoreHeads(e, job, s, heads) == s
    decreases |heads|
  {
    if heads != [] {
      NothingMissing(e, job, s, heads[..|heads| - 1]);
      NoneMissing(s.cache, heads[|heads| - 1], |heads[|heads| - 1].documents|);
    }
  }

  lemma NothingAdded<S>(e: Env<S>, log: seq<Byte>)
    ensures log + Encode(LinesOf<S>(e, [])) == log
  {
  }

  lemma CutOfText(t: string)
    ensures Cut(Encode(t)) == Encode(t[..LineStart(t, |t|)])
  {
    hide Encode, LineStart;
    var log := Encode(t);
    assert ValidUtf8(log);
    EncodeInjective(Text(log), t);
  }

  /** Opening a log takes off exactly what stands behind its last line feed. */
  lemma CutIs(t: string, n: nat)
    requires n == LineStart(t, |t|)
    ensures Cut(Encode(t)) == Encode(t[..n]) && (n > 0 ==> t[n - 1] == '\n') && '\n' !in t[n..]
  {
    hide Encode, LineStart, Cut;
    CutOfText(t);
    BehindLast(t, |t|);
    assert t[n..|t|] == t[n..];
  }

  lemma {:induction false} BehindLast(t: string, k: nat)
    requires k <= |t|
    ensures var n := LineStart(t, k); (n > 0 ==> t[n - 1] == '\n') && '\n' !in t[n..k]
    decreases k
  {
    if k > 0 && t[k - 1] != '\n' {
      BehindLast(t, k - 1);
      assert t[LineStart(t, k)..k] == t[LineStart(t, k)..k - 1] + [t[k - 1]];
    }
  }

  // ---------------------------------------------------------------- what a run writes, and in which order

  /** `at` lists, in ascending order, the documents of the head the cache lacks. */
  ghost predicate LackedAt<S>(cache: map<Pair, S>, h: Head, n: nat, at: seq<nat>)
    requires n <= |h.documents|
  {
    && (forall i | 0 <= i < |at| :: at[i] < n)
    && (forall i, j | 0 <= i < j < |at| :: at[i] < at[j])
    && (forall p | 0 <= p < n :: p in at <==> Pair(h.query, h.documents[p]) !in cache)
  }

  lemma LackedSnoc<S>(cache: map<Pair, S>, h: Head, n: nat, before: seq<nat>, more: seq<nat>)
    requires n < |h.documents| && LackedAt(cache, h, n, before)
    requires more == if Pair(h.query, h.documents[n]) in cache then [] else [n]
    ensures LackedAt(cache, h, n + 1, before + more)
  {
    forall p | 0 <= p < n + 1 ensures p in before + more <==> Pair(h.query, h.documents[p]) !in cache {
      assert p in before + more <==> p in before || p in more;
      assert p == n ==> p !in before;
    }
  }

  lemma LackedNone<S>(cache: map<Pair, S>, h: Head)
    ensures LackedAt(cache, h, 0, [])
  {
  }

  /** The pairs of the head's documents at these places. */
  predicate PairsAt(h: Head, at: seq<nat>, ps: seq<Pair>) {
    |ps| == |at| && forall i | 0 <= i < |at| :: at[i] < |h.documents| && ps[i] == Pair(h.query, h.documents[at[i]])
  }

  lemma PairsSnoc(h: Head, at: seq<nat>, ps: seq<Pair>, n: nat)
    requires PairsAt(h, at, ps) && n < |h.documents|
    ensures PairsAt(h, at + [n], ps + [Pair(h.query, h.documents[n])])
  {
  }

  lemma NoPairsAt(h: Head)
    ensures PairsAt(h, [], [])
  {
  }

  lemma {:induction false} MissingAt<S>(cache: map<Pair, S>, h: Head, n: nat) returns (at: seq<nat>)
    requires n <= |h.documents|
    ensures LackedAt(cache, h, n, at) && PairsAt(h, at, MissingTo(cache, h, n))
    decreases n
  {
    hide LackedAt, PairsAt;
    if n == 0 {
      at := [];
      LackedNone(cache, h);
      NoPairsAt(h);
    } else {
      var before := MissingAt(cache, h, n - 1);
      var p := Pair(h.query, h.documents[n - 1]);
      var more := if p in cache then [] else [n - 1];
      at := before + more;
      LackedSnoc(cache, h, n - 1, before, more);
      PairsSnoc(h, before, MissingTo(cache, h, n - 1), n - 1);
      if p in cache {
        assert at == before && MissingTo(cache, h, n) == MissingTo(cache, h, n - 1);
      }
    }
  }

  /** The record of the document at place `j` of a head. */
  function FreshRecord<S>(e: Env<S>, job: Job, h: Head, j: nat): Record<S>
    requires j < |h.documents|
  {
    var key := Key(job.model, job.dataset, Pair(h.query, h.documents[j]));
    Record(key, e.scorer(key))
  }

  lemma {:induction false} PairsWrite<S>(e: Env<S>, job: Job, s: State<S>, ps: seq<Pair>)
    requires !s.failed && !ScorePairs(e, job, s, ps).failed
    ensures var t := ScorePairs(e, job, s, ps);
            |t.written| == |s.written| + |ps| && t.written[..|s.written|] == s.written &&
            forall i | 0 <= i < |ps| ::
              t.written[|s.written| + i] == Record(KeyOf(job, ps[i]), e.scorer(KeyOf(job, ps[i])))
    decreases |ps|
  {
    if ps != [] {
      PairsWrite(e, job, s, ps[..|ps| - 1]);
    } else {
      assert s.written[..|s.written|] == s.written;
    }
  }

  /** Scoring a head appends one record for each document the cache lacks, in the order of the head. */
  lemma HeadWrites<S>(e: Env<S>, job: Job, s: State<S>, h: Head) returns (at: seq<nat>)
    requires !s.failed && !ScoreHead(e, job, s, h).failed
    ensures LackedAt(s.cache, h, |h.documents|, at)
    ensures var written := ScoreHead(e, job, s, h).written;
            |written| == |s.written| + |at| && written[..|s.written|] == s.written &&
            forall i | 0 <= i < |at| :: written[|s.written| + i] == FreshRecord(e, job, h, at[i])
  {
    hide ScorePairs, MissingTo;
    at := MissingAt(s.cache, h, |h.documents|);
    PairsWrite(e, job, s, Missing(s.cache, h));
  }
}
