/**
  How much an interrupted encode can lose: a run records its progress after every 1000 documents it encodes, so a crash
  that leaves the key readable takes at most the last 1000 documents from it.
  */
module SparseSyncPoints {
  import opened Common
  import opened Utf8
  import opened SparseCodec
  import opened SparseProtocol

  /** The disk shows one record, durably: that of the first `n` documents. */
  predicate RecordedAt(d: Disk, n: int) {
    d.entries && d.recorded.Some? && d.recorded.value.documents == n && d.mayRead == {d.recorded}
  }

  /** The documents up to the last multiple of 1000 behind the first. */
  function LastMultiple(first: int, n: int): int {
    first + 1000 * ((n - first) / 1000)
  }

  /** Where the progress record of a run stands, phase by phase. */
  predicate InStep(d: Disk, p: Proc) {
    p.Encoding? ==>
      var f, n := p.first, |p.expansions|;
      match p.phase
      case Loop => n >= f + 1000 ==> RecordedAt(d, LastMultiple(f, n))
      case SyncPoint => n > f && (n - f) % 1000 == 0 && (n >= f + 2000 ==> RecordedAt(d, n - 1000))
      case Flushed => n > f && (n - f) % 1000 == 0 && (n >= f + 2000 ==> RecordedAt(d, n - 1000))
      case Synced => n > f && (n - f) % 1000 == 0 && (n >= f + 2000 ==> RecordedAt(d, n - 1000))
      case Recorded =>
        && n > f && (n - f) % 1000 == 0
        && d.recorded.Some? && d.recorded.value.documents == n
        && (n >= f + 2000 ==> d.entries && forall r | r in d.mayRead :: r.Some? && r.value.documents >= n - 1000)
      case TailFlushed => n >= f + 1000 ==> RecordedAt(d, LastMultiple(f, n))
      case TailSynced => n >= f + 1000 ==> RecordedAt(d, LastMultiple(f, n))
      case TailRenamed => n >= f + 1000 ==> RecordedAt(d, LastMultiple(f, n))
      case TailDurable => true
  }

  lemma NextMultiple(f: int, n: int)
    requires n >= f
    ensures (n + 1 - f) % 1000 != 0 ==> LastMultiple(f, n + 1) == LastMultiple(f, n)
    ensures (n + 1 - f) % 1000 == 0 ==> LastMultiple(f, n) == n + 1 - 1000 && n + 1 >= f + 1000
    ensures (n - f) % 1000 == 0 ==> LastMultiple(f, n) == n
    ensures LastMultiple(f, n) <= n < LastMultiple(f, n) + 1000
    ensures n < f + 1000 ==> LastMultiple(f, n) == f
  {
  }

  lemma EncodeInStep(encode: Encoder, s: Sys)
    requires GoodEncoder(encode) && Inv(encode, s) && Enabled(s, Encode) && InStep(s.disk, s.proc)
    ensures var t := Apply(encode, s, Encode); InStep(t.disk, t.proc)
  {
    hide EncodeOne, Corpus, Prefix, DiskOk, Storable, LastMultiple, GoodEncoder;
    NextMultiple(s.proc.first, |s.proc.expansions|);
    assert s.proc.first <= |s.proc.expansions|;
  }

  /** Every step keeps the record in step with the run. */
  lemma StepInStep(encode: Encoder, s: Sys, a: Action)
    requires GoodEncoder(encode) && Inv(encode, s) && Enabled(s, a) && InStep(s.disk, s.proc)
    ensures var t := Apply(encode, s, a); InStep(t.disk, t.proc)
  {
    hide Corpus, Prefix, DiskOk, EncodingOk, Read, StartProc, CrashImage, LastMultiple, GoodEncoder;
    if a.Encode? {
      EncodeInStep(encode, s);
    } else if s.proc.Encoding? {
      FirstBefore(encode, s);
      NextMultiple(s.proc.first, |s.proc.expansions|);
    } else if a.Start? {
      StartIsNoEncoding(s.disk, a.key);
    }
  }

  lemma FirstBefore(encode: Encoder, s: Sys)
    requires GoodEncoder(encode) && Inv(encode, s) && s.proc.Encoding?
    ensures s.proc.first <= |s.proc.expansions|
  {
    hide Corpus, Prefix, DiskOk;
  }

  lemma StartIsNoEncoding(d: Disk, key: Key)
    ensures !StartProc(d, key).Encoding?
  {
    hide Read;
  }

  lemma {:induction false} RunInStep(encode: Encoder, actions: seq<Action>)
    requires GoodEncoder(encode) && Run(encode, BOOT, actions).Some?
    ensures var s := Run(encode, BOOT, actions).value; InStep(s.disk, s.proc)
    decreases |actions|
  {
    hide Inv, Apply, Enabled, InStep;
    if actions == [] {
      IdleInStep();
    } else {
      var init := actions[..|actions| - 1];
      RunInStep(encode, init);
      RunKeeps(encode, init);
      StepInStep(encode, Run(encode, BOOT, init).value, actions[|actions| - 1]);
    }
  }

  lemma IdleInStep()
    ensures InStep(BOOT.disk, BOOT.proc)
  {
  }

  lemma ReachableInStep(encode: Encoder, s: Sys)
    requires GoodEncoder(encode) && Reachable(encode, s)
    ensures InStep(s.disk, s.proc)
  {
    hide InStep, Run;
    var actions :| Run(encode, BOOT, actions) == Some(s);
    RunInStep(encode, actions);
  }

  /**
    While a run encodes, the one record the disk shows, durably, is that of the last multiple of 1000 documents since
    the run began.
    */
  lemma RecordsEveryThousand(encode: Encoder, s: Sys)
    requires GoodEncoder(encode) && Reachable(encode, s) && InPhase(s.proc, Loop)
    requires |s.proc.expansions| >= s.proc.first + 1000
    ensures s.disk.recorded.Some? && s.disk.mayRead == {s.disk.recorded} && s.disk.entries
    ensures s.disk.recorded.value.documents ==
              s.proc.first + 1000 * ((|s.proc.expansions| - s.proc.first) / 1000)
  {
    hide Reachable;
    ReachableInStep(encode, s);
  }

  /** Whatever the disk may show after a crash, it is a record of all but the last 1000 documents at most. */
  predicate NearlyAll(d: Disk, n: int) {
    d.entries && forall r | r in d.mayRead :: r.Some? && r.value.documents + 1000 >= n
  }

  lemma NearlyAllRecorded(d: Disk, p: Proc)
    requires InStep(d, p) && p.Encoding? && |p.expansions| > p.first + 1000 && p.phase != TailDurable
    ensures NearlyAll(d, |p.expansions|)
  {
    hide LastMultiple;
    NextMultiple(p.first, |p.expansions|);
  }

  /**
    A crash that leaves the key readable costs a run that began the corpus, or has got beyond its first 1000 documents,
    no more than its last 1000.
    */
  lemma LosesAtMostAThousand(encode: Encoder, s: Sys, image: Disk)
    requires GoodEncoder(encode) && Reachable(encode, s) && s.proc.Encoding? && CrashImage(s.disk, image)
    requires image.key == Stored(s.proc.key)
    requires s.proc.first == 0 || |s.proc.expansions| > s.proc.first + 1000
    ensures CacheHit(image, s.proc.key) || ResumedAt(image, s.proc.key) + 1000 >= |s.proc.expansions|
  {
    hide Reachable, InStep, Corpus, Prefix, Read, DiskOk;
    ReachableInStep(encode, s);
    ReachableOk(encode, s);
    if s.proc.phase == TailDurable {
      FinishedIsHit(encode, s, image);
    } else if |s.proc.expansions| > s.proc.first + 1000 {
      NearlyAllRecorded(s.disk, s.proc);
      ResumesNearly(encode, s, image);
    }
  }

  lemma FinishedIsHit(encode: Encoder, s: Sys, image: Disk)
    requires GoodEncoder(encode) && Inv(encode, s) && InPhase(s.proc, TailDurable) && CrashImage(s.disk, image)
    requires image.key == Stored(s.proc.key)
    ensures CacheHit(image, s.proc.key)
  {
    hide Corpus, Prefix, Read, ProgressOk;
  }

  lemma ResumesNearly(encode: Encoder, s: Sys, image: Disk)
    requires GoodEncoder(encode) && Inv(encode, s) && s.proc.Encoding? && CrashImage(s.disk, image)
    requires image.key == Stored(s.proc.key) && NearlyAll(s.disk, |s.proc.expansions|)
    ensures CacheHit(image, s.proc.key) || ResumedAt(image, s.proc.key) + 1000 >= |s.proc.expansions|
  {
    hide Corpus, Prefix, Read;
    CrashKeeps(encode, s.disk, image);
    var key := s.proc.key;
    assert image.recorded in s.disk.mayRead;
    if image.name == Partial {
      assert ProgressOk(encode, key, image.recorded.value, image.data.value);
    }
  }

  /** No crash that leaves the key readable costs the run more than its last 1000 documents. */
  ghost predicate LossBounded(d: Disk, key: Key, n: int) {
    forall image | CrashImage(d, image) && image.key == Stored(key) ::
      CacheHit(image, key) || ResumedAt(image, key) + 1000 >= n
  }

  /** What a crash leaves that takes the data file away, or shows this record and only what is durable. */
  function Worst(d: Disk, key: Key, r: Option<Progress>): Disk
    requires d.data.Some? && d.data.value.synced <= |d.data.value.bytes|
  {
    var f := d.data.value;
    Disk(Stored(key), if d.entries then Some(File(f.bytes[..f.synced], f.synced, true)) else None, Partial, true,
         r, {r})
  }

  lemma WorstIsCrash(encode: Encoder, s: Sys, r: Option<Progress>)
    requires GoodEncoder(encode) && Inv(encode, s) && s.proc.Encoding? && s.proc.phase != TailDurable
    requires r in s.disk.mayRead
    ensures s.disk.data.Some? && s.disk.data.value.synced <= |s.disk.data.value.bytes|
    ensures CrashImage(s.disk, Worst(s.disk, s.proc.key, r))
  {
    hide Corpus, Prefix, Read, ProgressOk, NotAfter;
    var f := s.disk.data.value;
    assert f.clean ==> f.bytes[..f.synced] == f.bytes;
  }

  lemma WorstStart(d: Disk, key: Key, r: Option<Progress>)
    requires d.data.Some? && d.data.value.synced <= |d.data.value.bytes|
    ensures !CacheHit(Worst(d, key, r), key)
    ensures !d.entries || r.None? ==> ResumedAt(Worst(d, key, r), key) == 0
    ensures r.Some? ==> ResumedAt(Worst(d, key, r), key) <= r.value.documents
  {
    hide Read;
  }

  /**
    The bound is exact: beyond 1000 documents it holds, at any moment before the finished file is durable, if and only
    if the entries are and every record a crash may show is one of all but the last 1000 at most.
    */
  lemma LossBoundedIff(encode: Encoder, s: Sys)
    requires GoodEncoder(encode) && Reachable(encode, s) && s.proc.Encoding? && s.proc.phase != TailDurable
    requires |s.proc.expansions| > 1000
    ensures LossBounded(s.disk, s.proc.key, |s.proc.expansions|) <==> NearlyAll(s.disk, |s.proc.expansions|)
  {
    hide Reachable, Inv, CrashImage, ResumedAt, CacheHit, Worst, Corpus;
    ReachableOk(encode, s);
    var d, key, n := s.disk, s.proc.key, |s.proc.expansions|;
    if NearlyAll(d, n) {
      forall image | CrashImage(d, image) && image.key == Stored(key)
        ensures CacheHit(image, key) || ResumedAt(image, key) + 1000 >= n
      {
        ResumesNearly(encode, s, image);
      }
    }
    if LossBounded(d, key, n) {
      BoundedEntries(encode, s);
      forall r | r in d.mayRead ensures r.Some? && r.value.documents + 1000 >= n {
        BoundedRecord(encode, s, r);
      }
    }
  }

  lemma BoundedRecord(encode: Encoder, s: Sys, r: Option<Progress>)
    requires GoodEncoder(encode) && Inv(encode, s) && s.proc.Encoding? && s.proc.phase != TailDurable
    requires |s.proc.expansions| > 1000 && LossBounded(s.disk, s.proc.key, |s.proc.expansions|) && r in s.disk.mayRead
    ensures s.disk.entries && r.Some? && r.value.documents + 1000 >= |s.proc.expansions|
  {
    hide Inv, CrashImage, ResumedAt, CacheHit, Corpus;
    WorstIsCrash(encode, s, r);
    WorstStart(s.disk, s.proc.key, r);
    assert Worst(s.disk, s.proc.key, r).key == Stored(s.proc.key);
  }

  lemma BoundedEntries(encode: Encoder, s: Sys)
    requires GoodEncoder(encode) && Inv(encode, s) && s.proc.Encoding? && s.proc.phase != TailDurable
    requires |s.proc.expansions| > 1000 && LossBounded(s.disk, s.proc.key, |s.proc.expansions|)
    ensures s.disk.entries
  {
    hide LossBounded, Corpus, Prefix, ProgressOk, Read, NotAfter, EncodingOk;
    BoundedRecord(encode, s, s.disk.recorded);
  }

  // ---------------------------------------------------------------- the decisions written out

  /** When a run finds the finished cache, resumes and at which document, or finds a record that cannot be. */
  lemma StartIs(d: Disk, key: Key)
    ensures CacheHit(d, key) <==> d.key == Stored(key) && d.data.Some? && d.name != Partial
    ensures forall r :: StartProc(d, key) == Resuming(key, r) <==>
              d.key == Stored(key) && d.data.Some? && d.name == Partial && d.recorded == Some(r) &&
              r.documents <= key.documents && r.bytes <= |d.data.value.bytes|
    ensures StartProc(d, key) == Stale(key) <==>
              d.key == Stored(key) && d.data.Some? && d.name == Partial && d.recorded.Some? &&
              (d.recorded.value.documents > key.documents || d.recorded.value.bytes > |d.data.value.bytes|)
    ensures StartProc(d, key).Resuming? ==> ResumedAt(d, key) == d.recorded.value.documents
    ensures !StartProc(d, key).Resuming? ==> ResumedAt(d, key) == 0
  {
    hide Read;
  }

  /** What a run gives: the count of the passages first, then the first document at or behind the start it stops at. */
  lemma OutcomeIs(encode: Encoder, key: Key, first: nat, passages: nat, stops: nat -> bool)
    requires first <= key.documents
    ensures var r := Outcome(encode, key, first, passages, stops);
            (r == Err(PassageCount(passages)) <==> passages != key.documents) &&
            (forall i: nat :: r == Err(EncoderStopped(i)) <==>
               passages == key.documents && first <= i < passages && stops(i) &&
               forall j | first <= j < i :: !stops(j)) &&
            (r.Ok? <==> passages == key.documents && forall j | first <= j < passages :: !stops(j)) &&
            (r.Ok? ==> |r.value| == key.documents && forall i | 0 <= i < |r.value| :: r.value[i] == encode(key, i))
  {
    hide FirstStop;
  }

  /** What a crash may leave of the data file: any bytes behind the durable ones, or a clean file as it is. */
  lemma CrashOfFile(f: File, bytes: seq<Byte>)
    requires f.synced <= |f.bytes|
    ensures FileImage(f, File(bytes, |bytes|, true)) <==>
            (f.clean ==> bytes == f.bytes) && f.synced <= |bytes| &&
            forall i | 0 <= i < f.synced :: bytes[i] == f.bytes[i]
  {
    if f.synced <= |bytes| && forall i | 0 <= i < f.synced :: bytes[i] == f.bytes[i] {
      assert bytes[..f.synced] == f.bytes[..f.synced];
    }
    if f.synced <= |bytes| && bytes[..f.synced] == f.bytes[..f.synced] {
      forall i | 0 <= i < f.synced ensures bytes[i] == f.bytes[i] {
        assert bytes[i] == bytes[..f.synced][i] == f.bytes[..f.synced][i];
      }
    }
  }

  /**
    A crash may at any moment lose the key or leave it unreadable, show any of the records it may, leave any bytes
    behind the durable ones, take the file away while its entry is not durable, and undo a rename that is not.
    */
  lemma CrashMay(d: Disk, key: KeyFile, bytes: seq<Byte>, r: Option<Progress>, kept: bool, name: Name)
    requires key == d.key || key == NoKey || key == Unreadable
    requires r in d.mayRead && (d.data.Some? ==> FileImage(d.data.value, File(bytes, |bytes|, true)))
    requires d.data.Some? && !kept ==> !d.entries
    requires name != Renamed && (name == d.name || d.name == Renamed)
    ensures CrashImage(d, Disk(key, if d.data.Some? && kept then Some(File(bytes, |bytes|, true)) else None, name, true,
                               r, {r}))
  {
    hide FileImage;
  }
}
