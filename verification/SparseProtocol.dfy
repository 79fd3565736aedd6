/**
  The interruptible sparse encode as a transition system over one cache directory: append, sync,
  record progress, rename, crash and resume.  A crash may replace every byte that was not synced,
  and undo every directory entry that was not synced; the process may also die and leave the disk
  as it is.  `encode(key, i)` is what the encoder gives for passage `i` of the corpus of `key`.
  */
module SparseProtocol {
  import opened Common
  import opened Utf8
  import opened SparseCodec

  datatype Key = Key(formatVersion: nat, dataset: string, encoder: string, recipe: string, corpusSha256: string,
                     documents: nat)

  type Encoder = (Key, nat) -> Expansion

  /** `key.json`: absent, not a key, or a key.  Nothing syncs its contents. */
  datatype KeyFile = NoKey | Unreadable | Stored(key: Key)

  /** The first `synced` bytes are durable; all of them and the length when `clean`. */
  datatype File = File(bytes: seq<Byte>, synced: nat, clean: bool)

  datatype Progress = Progress(documents: nat, bytes: nat)

  /** The name of the data file: `weights.partial`, `weights.bin`, or the latter with the rename not yet durable. */
  datatype Name = Partial | Renamed | Finished

  /**
    The cache directory.  `recorded` is `progress.json` as it reads now, `mayRead` what it may read
    after a crash; `entries` says that the directory's entries are durable.
    */
  datatype Disk = Disk(key: KeyFile, data: Option<File>, name: Name, entries: bool,
                       recorded: Option<Progress>, mayRead: set<Option<Progress>>)

  const EMPTY := Disk(NoKey, None, Partial, true, None, {None})

  /** Where a run is inside the encode loop or behind it. */
  datatype Phase =
    | Loop | SyncPoint | Flushed | Synced | Recorded
    | TailFlushed | TailSynced | TailRenamed | TailDurable

  datatype Proc =
    | Idle
    | Stale(key: Key)
    | Clearing(key: Key)
    | Cleared(key: Key)
    | Keyed(key: Key)
    | Resuming(key: Key, progress: Progress)
    | Truncated(key: Key, progress: Progress)
    | Trimmed(key: Key, progress: Progress)
    | Encoding(key: Key, first: nat, expansions: seq<Expansion>, bytes: nat, buffer: seq<Byte>, phase: Phase)
    | Returned(key: Key, result: Result<seq<Expansion>, ReadError>)
    | Failed(key: Key, error: ReadError)

  datatype Sys = Sys(disk: Disk, proc: Proc)

  datatype Action =
    | Start(key: Key)
    | RemoveDir | WriteKey | CreatePartial
    | SetLen | SyncLength | ReadBack
    | Encode | Spill(count: nat) | Flush | Sync | RenameProgress | SyncDir
    | RenameData | RemoveProgress | Return
    | Kill | Crash(image: Disk)

  /** Documents between two sync points. */
  const EVERY: nat := 1000

  function Corpus(encode: Encoder, key: Key): (es: seq<Expansion>)
    ensures |es| == key.documents && forall i | 0 <= i < |es| :: es[i] == encode(key, i)
  {
    seq(key.documents, i requires 0 <= i => encode(key, i))
  }

  /** Every expansion the encoder gives fits its count field; `CacheRun` ends a run at a longer one. */
  ghost predicate GoodEncoder(encode: Encoder) {
    forall key, i :: Storable(encode(key, i))
  }

  // ---------------------------------------------------------------- the file

  function CutFile(f: File, n: nat): File
    requires n <= |f.bytes|
  {
    File(f.bytes[..n], if f.synced < n then f.synced else n, false)
  }

  function AppendFile(f: File, b: seq<Byte>): File {
    File(f.bytes + b, f.synced, false)
  }

  function SyncFile(f: File): File {
    File(f.bytes, |f.bytes|, true)
  }

  /** What a crash may leave of a file. */
  predicate FileImage(f: File, g: File) {
    g.clean && g.synced == |g.bytes| &&
    (f.clean ==> g.bytes == f.bytes) &&
    f.synced <= |f.bytes| && f.synced <= |g.bytes| && g.bytes[..f.synced] == f.bytes[..f.synced]
  }

  predicate CrashImage(d: Disk, e: Disk) {
    && (e.key == d.key || e.key == NoKey || e.key == Unreadable)
    && (match (d.data, e.data)
        case (None, None) => true
        case (Some(_), None) => !d.entries
        case (None, Some(_)) => false
        case (Some(f), Some(g)) => FileImage(f, g))
    && (e.name == d.name || (d.name == Renamed && e.name != Renamed)) && e.name != Renamed
    && e.entries
    && e.recorded in d.mayRead
    && e.mayRead == {e.recorded}
  }

  // ---------------------------------------------------------------- steps

  function StartProc(d: Disk, key: Key): Proc {
    if d.key == Stored(key) && d.data.Some? then
      if d.name != Partial then Returned(key, Read(d.data.value.bytes, key.documents))
      else if d.recorded.Some? then
        if d.recorded.value.documents > key.documents || d.recorded.value.bytes > |d.data.value.bytes| then Stale(key)
        else Resuming(key, d.recorded.value)
      else Clearing(key)
    else Clearing(key)
  }

  predicate InPhase(p: Proc, phase: Phase) {
    p.Encoding? && p.phase == phase
  }

  predicate Complete(p: Proc) {
    p.Encoding? && |p.expansions| >= p.key.documents
  }

  predicate Enabled(s: Sys, a: Action) {
    var d, p := s.disk, s.proc;
    match a
    case Start(_) => p.Idle?
    case RemoveDir => p.Clearing? || p.Stale?
    case WriteKey => p.Cleared?
    case CreatePartial => p.Keyed?
    case SetLen => p.Resuming? && d.data.Some? && p.progress.bytes <= |d.data.value.bytes|
    case SyncLength => p.Truncated? && d.data.Some?
    case ReadBack => p.Trimmed? && d.data.Some?
    case Encode => InPhase(p, Loop) && !Complete(p)
    case Spill(n) => (InPhase(p, Loop) || InPhase(p, SyncPoint)) && d.data.Some? && n <= |p.buffer|
    case Flush => d.data.Some? && (InPhase(p, SyncPoint) || (InPhase(p, Loop) && Complete(p)))
    case Sync => d.data.Some? && (InPhase(p, Flushed) || InPhase(p, TailFlushed))
    case RenameProgress => InPhase(p, Synced)
    case SyncDir => InPhase(p, Recorded) || InPhase(p, TailRenamed)
    case RenameData => InPhase(p, TailSynced)
    case RemoveProgress => InPhase(p, TailDurable)
    case Return => InPhase(p, TailDurable)
    case Kill => true
    case Crash(image) => CrashImage(d, image)
  }

  function AfterEncode(encode: Encoder, p: Proc): Proc
    requires p.Encoding? && Storable(encode(p.key, |p.expansions|))
  {
    var e := encode(p.key, |p.expansions|);
    var record := EncodeOne(e);
    var next := p.(expansions := p.expansions + [e], bytes := p.bytes + |record|, buffer := p.buffer + record);
    if (|next.expansions| - p.first) % EVERY == 0 then next.(phase := SyncPoint) else next
  }

  function Apply(encode: Encoder, s: Sys, a: Action): Sys
    requires GoodEncoder(encode) && Enabled(s, a)
  {
    var d, p := s.disk, s.proc;
    match a
    case Start(key) => Sys(d, StartProc(d, key))
    case RemoveDir => Sys(EMPTY, Cleared(p.key))
    case WriteKey => Sys(d.(key := Stored(p.key), entries := false), Keyed(p.key))
    case CreatePartial =>
      Sys(d.(data := Some(File([], 0, false)), name := Partial, entries := false), Encoding(p.key, 0, [], 0, [], Loop))
    case SetLen => Sys(d.(data := Some(CutFile(d.data.value, p.progress.bytes))), Truncated(p.key, p.progress))
    case SyncLength => Sys(d.(data := Some(SyncFile(d.data.value))), Trimmed(p.key, p.progress))
    case ReadBack =>
      (match Read(d.data.value.bytes, p.progress.documents)
       case Ok(es) => Sys(d, Encoding(p.key, |es|, es, |d.data.value.bytes|, [], Loop))
       case Err(e) => Sys(d, Failed(p.key, e)))
    case Encode => Sys(d, AfterEncode(encode, p))
    case Spill(n) => Sys(d.(data := Some(AppendFile(d.data.value, p.buffer[..n]))), p.(buffer := p.buffer[n..]))
    case Flush =>
      Sys(d.(data := Some(AppendFile(d.data.value, p.buffer))),
          p.(buffer := [], phase := if p.phase == SyncPoint then Flushed else TailFlushed))
    case Sync =>
      Sys(d.(data := Some(SyncFile(d.data.value))), p.(phase := if p.phase == Flushed then Synced else TailSynced))
    case RenameProgress =>
      var now := Some(Progress(|p.expansions|, p.bytes));
      Sys(d.(recorded := now, mayRead := d.mayRead + {now}), p.(phase := Recorded))
    case SyncDir =>
      Sys(d.(entries := true, mayRead := {d.recorded}, name := if d.name == Renamed then Finished else d.name),
          p.(phase := if p.phase == Recorded then Loop else TailDurable))
    case RenameData => Sys(d.(name := Renamed), p.(phase := TailRenamed))
    case RemoveProgress => Sys(d.(recorded := None, mayRead := d.mayRead + {None}), p)
    case Return => Sys(d, Returned(p.key, Ok(p.expansions)))
    case Kill => Sys(d, Idle)
    case Crash(image) => Sys(image, Idle)
  }

  /** Where a run ends, if every action is enabled where it happens. */
  ghost function Run(encode: Encoder, s: Sys, actions: seq<Action>): Option<Sys>
    requires GoodEncoder(encode)
  {
    if actions == [] then Some(s)
    else
      match Run(encode, s, actions[..|actions| - 1])
      case None => None
      case Some(t) =>
        var a := actions[|actions| - 1];
        if Enabled(t, a) then Some(Apply(encode, t, a)) else None
  }

  // ---------------------------------------------------------------- the invariant

  /** The bytes of the first `n` documents of a corpus. */
  function Prefix(encode: Encoder, key: Key, n: nat): seq<Byte>
    requires GoodEncoder(encode) && n <= key.documents
  {
    EncodeAll(Corpus(encode, key)[..n])
  }

  /** A progress record names a durable prefix that holds exactly the first `documents` expansions. */
  ghost predicate ProgressOk(encode: Encoder, key: Key, p: Progress, f: File)
    requires GoodEncoder(encode)
  {
    && p.documents <= key.documents
    && f.synced <= |f.bytes|
    && p.bytes == |Prefix(encode, key, p.documents)| <= f.synced
    && f.bytes[..p.bytes] == Prefix(encode, key, p.documents)
  }

  predicate NotAfter(r: Option<Progress>, now: Option<Progress>) {
    r.None? || (now.Some? && r.value.documents <= now.value.documents && r.value.bytes <= now.value.bytes)
  }

  ghost predicate DataOk(encode: Encoder, key: Key, d: Disk, f: File)
    requires GoodEncoder(encode)
  {
    && f.synced <= |f.bytes|
    && (f.clean ==> f.synced == |f.bytes|)
    && (d.name == Finished ==> d.entries)
    && (forall r | r in d.mayRead && r.Some? :: ProgressOk(encode, key, r.value, f))
    && (d.name == Partial ==> forall r | r in d.mayRead :: NotAfter(r, d.recorded))
    && (d.name != Partial ==> f.clean && f.bytes == Prefix(encode, key, key.documents))
  }

  ghost predicate DiskOk(encode: Encoder, d: Disk)
    requires GoodEncoder(encode)
  {
    && d.recorded in d.mayRead
    && (d.key.Stored? && d.data.Some? ==> DataOk(encode, d.key.key, d, d.data.value))
  }

  /** The run holds the directory: its key is stored and the data file is the partial one. */
  ghost predicate Owns(d: Disk, key: Key, name: Name) {
    d.key == Stored(key) && d.data.Some? && d.name == name
  }

  ghost predicate EncodingOk(encode: Encoder, d: Disk, p: Proc)
    requires GoodEncoder(encode) && p.Encoding?
  {
    && Owns(d, p.key, match p.phase case TailRenamed => Renamed case TailDurable => Finished case _ => Partial)
    && p.first <= |p.expansions| <= p.key.documents
    && p.expansions == Corpus(encode, p.key)[..|p.expansions|]
    && d.data.value.bytes + p.buffer == Prefix(encode, p.key, |p.expansions|)
    && p.bytes == |d.data.value.bytes| + |p.buffer|
    && (p.phase in {Flushed, Synced, Recorded, TailFlushed, TailSynced, TailRenamed, TailDurable} ==> p.buffer == [])
    && (p.phase in {Synced, Recorded, TailSynced, TailRenamed, TailDurable} ==> d.data.value.clean)
    && (p.phase in {TailFlushed, TailSynced, TailRenamed, TailDurable} ==> |p.expansions| == p.key.documents)
    && (forall r | r in d.mayRead && r.Some? && d.name == Partial :: r.value.documents <= |p.expansions|)
  }

  ghost predicate ProcOk(encode: Encoder, d: Disk, p: Proc)
    requires GoodEncoder(encode)
  {
    match p
    case Idle => true
    case Stale(_) => false
    case Clearing(key) => StartProc(d, key) == Clearing(key)
    case Cleared(_) => d == EMPTY
    case Keyed(key) => d == EMPTY.(key := Stored(key), entries := false)
    case Resuming(key, progress) => Owns(d, key, Partial) && d.recorded == Some(progress)
    case Truncated(key, progress) =>
      Owns(d, key, Partial) && d.recorded == Some(progress) && progress.documents <= key.documents &&
      d.data.value.bytes == Prefix(encode, key, progress.documents)
    case Trimmed(key, progress) =>
      Owns(d, key, Partial) && d.recorded == Some(progress) && progress.documents <= key.documents &&
      d.data.value.bytes == Prefix(encode, key, progress.documents)
    case Encoding(_, _, _, _, _, _) => EncodingOk(encode, d, p)
    case Returned(key, result) => result == Ok(Corpus(encode, key))
    case Failed(_, _) => false
  }

  ghost predicate Inv(encode: Encoder, s: Sys)
    requires GoodEncoder(encode)
  {
    DiskOk(encode, s.disk) && ProcOk(encode, s.disk, s.proc)
  }

  // ---------------------------------------------------------------- prefixes

  lemma CorpusStorable(encode: Encoder, key: Key, n: nat)
    requires GoodEncoder(encode) && n <= key.documents
    ensures AllStorable(Corpus(encode, key)[..n])
  {
    hide Storable;
  }

  lemma PrefixStep(encode: Encoder, key: Key, n: nat)
    requires GoodEncoder(encode) && n < key.documents
    ensures Storable(encode(key, n))
    ensures Corpus(encode, key)[..n + 1] == Corpus(encode, key)[..n] + [encode(key, n)]
    ensures Prefix(encode, key, n + 1) == Prefix(encode, key, n) + EncodeOne(encode(key, n))
  {
    hide EncodeOne, EncodeAll, Storable;
    var c := Corpus(encode, key);
    assert c[..n + 1] == c[..n] + [c[n]];
    CorpusStorable(encode, key, n);
    assert Storable(encode(key, n));
    EncodeAllConcat(c[..n], [c[n]]);
    EncodeAllOne(c[n]);
  }

  lemma {:induction false} PrefixMonotone(encode: Encoder, key: Key, m: nat, n: nat)
    requires GoodEncoder(encode) && m <= n <= key.documents
    ensures |Prefix(encode, key, m)| <= |Prefix(encode, key, n)|
    ensures Prefix(encode, key, n)[..|Prefix(encode, key, m)|] == Prefix(encode, key, m)
    decreases n
  {
    hide Prefix, EncodeOne, Corpus, GoodEncoder;
    if m < n {
      PrefixMonotone(encode, key, m, n - 1);
      PrefixStep(encode, key, n - 1);
      assert Prefix(encode, key, n)[..|Prefix(encode, key, n - 1)|] == Prefix(encode, key, n - 1);
    }
  }

  lemma ReadPrefix(encode: Encoder, key: Key, n: nat)
    requires GoodEncoder(encode) && n <= key.documents
    ensures Read(Prefix(encode, key, n), n) == Ok(Corpus(encode, key)[..n])
  {
    hide Read, EncodeAll, Storable, Corpus;
    CorpusStorable(encode, key, n);
    ReadsWhatWasWritten(Corpus(encode, key)[..n]);
  }

  lemma WholePrefix(encode: Encoder, key: Key)
    ensures Corpus(encode, key)[..key.documents] == Corpus(encode, key)
  {
  }

  // ---------------------------------------------------------------- every step keeps the invariant

  /** A progress record stays good while its bytes stay durable. */
  lemma ProgressKept(encode: Encoder, key: Key, p: Progress, f: File, g: File)
    requires GoodEncoder(encode) && ProgressOk(encode, key, p, f)
    requires g.synced <= |g.bytes| && p.bytes <= g.synced && g.bytes[..p.bytes] == f.bytes[..p.bytes]
    ensures ProgressOk(encode, key, p, g)
  {
    hide Prefix;
  }

  /** Changing the data file so that every recorded byte stays durable keeps the disk good. */
  lemma DataKept(encode: Encoder, d: Disk, g: File)
    requires GoodEncoder(encode) && DiskOk(encode, d) && d.data.Some? && d.key.Stored? && d.name == Partial
    requires g.synced <= |g.bytes| && (g.clean ==> g.synced == |g.bytes|)
    requires forall r | r in d.mayRead && r.Some? :: r.value.bytes <= g.synced
    requires forall n | 0 <= n <= d.data.value.synced && n <= g.synced ::
             n <= |d.data.value.bytes| && g.bytes[..n] == d.data.value.bytes[..n]
    ensures DiskOk(encode, d.(data := Some(g)))
  {
    hide ProgressOk, NotAfter;
    var key, f := d.key.key, d.data.value;
    forall r | r in d.mayRead && r.Some? ensures ProgressOk(encode, key, r.value, g) {
      RecordBytes(encode, key, r.value, f);
      ProgressKept(encode, key, r.value, f, g);
    }
  }

  lemma RecordBytes(encode: Encoder, key: Key, p: Progress, f: File)
    requires GoodEncoder(encode) && ProgressOk(encode, key, p, f)
    ensures p.bytes <= f.synced <= |f.bytes|
  {
  }

  lemma CrashKeeps(encode: Encoder, d: Disk, e: Disk)
    requires GoodEncoder(encode) && DiskOk(encode, d) && CrashImage(d, e)
    ensures DiskOk(encode, e)
  {
    hide ProgressOk, Prefix, NotAfter;
    if e.key.Stored? && e.data.Some? {
      var key, f, g := e.key.key, d.data.value, e.data.value;
      forall r | r in e.mayRead && r.Some? ensures ProgressOk(encode, key, r.value, g) {
        RecordBytes(encode, key, r.value, f);
        assert g.bytes[..r.value.bytes] == g.bytes[..f.synced][..r.value.bytes] == f.bytes[..r.value.bytes];
        ProgressKept(encode, key, r.value, f, g);
      }
      NotAfterSelf(e.recorded);
      if e.name != Partial {
        assert d.name != Partial;
      }
    }
  }

  lemma NotAfterSelf(r: Option<Progress>)
    ensures NotAfter(r, r)
  {
  }

  lemma StartKeeps(encode: Encoder, d: Disk, key: Key)
    requires GoodEncoder(encode) && DiskOk(encode, d)
    ensures ProcOk(encode, d, StartProc(d, key))
  {
    hide Prefix, Read, Corpus;
    if d.key == Stored(key) && d.data.Some? {
      if d.name != Partial {
        ReadPrefix(encode, key, key.documents);
        WholePrefix(encode, key);
      } else if d.recorded.Some? {
        assert ProgressOk(encode, key, d.recorded.value, d.data.value);
      }
    }
  }

  /** A file that is cut to the newest record keeps every record. */
  lemma SetLenKeeps(encode: Encoder, s: Sys)
    requires GoodEncoder(encode) && Inv(encode, s) && Enabled(s, SetLen)
    ensures Inv(encode, Apply(encode, s, SetLen))
  {
    hide Prefix, Read, Corpus;
    var d, p := s.disk, s.proc;
    var f := d.data.value;
    assert ProgressOk(encode, p.key, p.progress, f);
    var g := CutFile(f, p.progress.bytes);
    forall r | r in d.mayRead && r.Some? ensures r.value.bytes <= g.synced {
      assert NotAfter(r, d.recorded);
    }
    DataKept(encode, d, g);
  }

  lemma ReadBackKeeps(encode: Encoder, s: Sys)
    requires GoodEncoder(encode) && Inv(encode, s) && Enabled(s, ReadBack)
    ensures Inv(encode, Apply(encode, s, ReadBack))
  {
    hide Prefix, Read, Corpus, ProgressOk;
    var d, p := s.disk, s.proc;
    var n := p.progress.documents;
    ReadPrefix(encode, p.key, n);
    assert d.data.value.bytes + [] == d.data.value.bytes;
    forall r | r in d.mayRead && r.Some? ensures r.value.documents <= n {
      assert NotAfter(r, d.recorded);
    }
  }

  lemma EncodeKeeps(encode: Encoder, s: Sys)
    requires GoodEncoder(encode) && Inv(encode, s) && Enabled(s, Encode)
    ensures Inv(encode, Apply(encode, s, Encode))
  {
    hide Prefix, Corpus, DiskOk, EncodeOne, Storable, GoodEncoder;
    var d, p := s.disk, s.proc;
    PrefixStep(encode, p.key, |p.expansions|);
    assert d.data.value.bytes + (p.buffer + EncodeOne(encode(p.key, |p.expansions|)))
        == (d.data.value.bytes + p.buffer) + EncodeOne(encode(p.key, |p.expansions|));
  }

  lemma SpillKeeps(encode: Encoder, s: Sys, n: nat)
    requires GoodEncoder(encode) && Inv(encode, s) && Enabled(s, Spill(n))
    ensures Inv(encode, Apply(encode, s, Spill(n)))
  {
    hide Prefix, Corpus, ProgressOk;
    var d, p := s.disk, s.proc;
    assert d.data.value.bytes + p.buffer[..n] + p.buffer[n..] == d.data.value.bytes + p.buffer;
    AppendKeeps(encode, d, p.buffer[..n]);
  }

  lemma AppendKeeps(encode: Encoder, d: Disk, b: seq<Byte>)
    requires GoodEncoder(encode) && DiskOk(encode, d) && d.data.Some? && d.key.Stored? && d.name == Partial
    ensures DiskOk(encode, d.(data := Some(AppendFile(d.data.value, b))))
  {
    hide Prefix;
    var f := d.data.value;
    forall r | r in d.mayRead && r.Some? ensures r.value.bytes <= f.synced {
      assert ProgressOk(encode, d.key.key, r.value, f);
    }
    DataKept(encode, d, AppendFile(f, b));
  }

  lemma FlushKeeps(encode: Encoder, s: Sys)
    requires GoodEncoder(encode) && Inv(encode, s) && Enabled(s, Flush)
    ensures Inv(encode, Apply(encode, s, Flush))
  {
    hide Prefix, Corpus, ProgressOk;
    var d, p := s.disk, s.proc;
    assert d.data.value.bytes + p.buffer + [] == d.data.value.bytes + p.buffer;
    AppendKeeps(encode, d, p.buffer);
  }

  lemma SyncFileKeeps(encode: Encoder, d: Disk)
    requires GoodEncoder(encode) && DiskOk(encode, d) && d.data.Some? && d.key.Stored? && d.name == Partial
    ensures DiskOk(encode, d.(data := Some(SyncFile(d.data.value))))
  {
    hide Prefix;
    var f := d.data.value;
    forall r | r in d.mayRead && r.Some? ensures r.value.bytes <= |f.bytes| {
      assert ProgressOk(encode, d.key.key, r.value, f);
    }
    DataKept(encode, d, SyncFile(f));
  }

  /** The record is written only when the bytes it names are durable. */
  lemma RenameProgressKeeps(encode: Encoder, s: Sys)
    requires GoodEncoder(encode) && Inv(encode, s) && Enabled(s, RenameProgress)
    ensures Inv(encode, Apply(encode, s, RenameProgress))
  {
    hide Prefix, Corpus;
    var d, p := s.disk, s.proc;
    var now := Progress(|p.expansions|, p.bytes);
    var f := d.data.value;
    assert f.bytes + [] == f.bytes && f.bytes[..p.bytes] == f.bytes;
    assert ProgressOk(encode, p.key, now, f);
    forall r | r in d.mayRead ensures NotAfter(r, Some(now)) {
      if r.Some? {
        assert ProgressOk(encode, p.key, r.value, f);
        PrefixMonotone(encode, p.key, r.value.documents, now.documents);
      }
    }
  }

  lemma TailKeeps(encode: Encoder, s: Sys, a: Action)
    requires GoodEncoder(encode) && Inv(encode, s) && Enabled(s, a)
    requires a in {SyncDir, RenameData, RemoveProgress, Return}
    ensures Inv(encode, Apply(encode, s, a))
  {
    hide Prefix, Corpus, ProgressOk;
    var d, p := s.disk, s.proc;
    assert d.data.value.bytes + [] == d.data.value.bytes;
    WholePrefix(encode, p.key);
  }

  lemma CreateKeeps(encode: Encoder, s: Sys)
    requires GoodEncoder(encode) && Inv(encode, s) && Enabled(s, CreatePartial)
    ensures Inv(encode, Apply(encode, s, CreatePartial))
  {
    assert [] + [] == Prefix(encode, s.proc.key, 0);
  }

  /** Every step keeps the invariant. */
  lemma StepKeeps(encode: Encoder, s: Sys, a: Action)
    requires GoodEncoder(encode) && Inv(encode, s) && Enabled(s, a)
    ensures Inv(encode, Apply(encode, s, a))
  {
    hide Prefix, Corpus, ProgressOk, Read, CrashImage, StartProc;
    match a
    case Start(key) => StartKeeps(encode, s.disk, key);
    case SetLen => SetLenKeeps(encode, s);
    case SyncLength => SyncFileKeeps(encode, s.disk);
    case ReadBack => ReadBackKeeps(encode, s);
    case Encode => EncodeKeeps(encode, s);
    case Spill(n) => SpillKeeps(encode, s, n);
    case Flush => FlushKeeps(encode, s);
    case Sync => SyncFileKeeps(encode, s.disk);
    case RenameProgress => RenameProgressKeeps(encode, s);
    case SyncDir => TailKeeps(encode, s, a);
    case RenameData => TailKeeps(encode, s, a);
    case RemoveProgress => TailKeeps(encode, s, a);
    case Return => TailKeeps(encode, s, a);
    case Crash(image) => CrashKeeps(encode, s.disk, image);
    case CreatePartial => CreateKeeps(encode, s);
    case RemoveDir =>
    case WriteKey =>
    case Kill =>
  }

  // ---------------------------------------------------------------- whole runs

  const BOOT := Sys(EMPTY, Idle)

  /** The invariant holds after every run, whatever crashed, died or resumed on the way. */
  lemma {:induction false} RunKeeps(encode: Encoder, actions: seq<Action>)
    requires GoodEncoder(encode) && Run(encode, BOOT, actions).Some?
    ensures Inv(encode, Run(encode, BOOT, actions).value)
    decreases |actions|
  {
    hide Inv, Apply, Enabled;
    if actions == [] {
      BootOk(encode);
    } else {
      var init := actions[..|actions| - 1];
      RunKeeps(encode, init);
      StepKeeps(encode, Run(encode, BOOT, init).value, actions[|actions| - 1]);
    }
  }

  lemma BootOk(encode: Encoder)
    requires GoodEncoder(encode)
    ensures Inv(encode, BOOT)
  {
  }

  /** A reachable state: where some run from an empty directory ends. */
  ghost predicate Reachable(encode: Encoder, s: Sys)
    requires GoodEncoder(encode)
  {
    exists actions :: Run(encode, BOOT, actions) == Some(s)
  }

  lemma ReachableOk(encode: Encoder, s: Sys)
    requires GoodEncoder(encode) && Reachable(encode, s)
    ensures Inv(encode, s)
  {
    hide Inv, Run;
    var actions :| Run(encode, BOOT, actions) == Some(s);
    RunKeeps(encode, actions);
  }

  /** No run finds a stale record, fails to read its own file back, or returns anything but the corpus's expansions. */
  lemma RunsReturnTheCorpus(encode: Encoder, s: Sys)
    requires GoodEncoder(encode) && Reachable(encode, s)
    ensures !s.proc.Stale? && !s.proc.Failed?
    ensures s.proc.Returned? ==> s.proc.result == Ok(Corpus(encode, s.proc.key))
  {
    hide Reachable, DiskOk, Corpus;
    ReachableOk(encode, s);
  }

  /**
    After a crash at any moment, under a key that still reads: a progress record names a prefix of
    the partial file that decodes to the first `documents` expansions, and a finished file decodes
    to all of them.
    */
  lemma CrashedDiskDecodes(encode: Encoder, s: Sys, image: Disk)
    requires GoodEncoder(encode) && Reachable(encode, s) && CrashImage(s.disk, image)
    requires image.key.Stored? && image.data.Some?
    ensures var key, f := image.key.key, image.data.value;
            (image.recorded.Some? ==>
               var p := image.recorded.value;
               p.documents <= key.documents && p.bytes <= |f.bytes| &&
               Read(f.bytes[..p.bytes], p.documents) == Ok(Corpus(encode, key)[..p.documents])) &&
            (image.name != Partial ==> Read(f.bytes, key.documents) == Ok(Corpus(encode, key)))
  {
    hide Reachable, Prefix, Read, Corpus, CrashImage;
    ReachableOk(encode, s);
    CrashKeeps(encode, s.disk, image);
    var key, f := image.key.key, image.data.value;
    if image.recorded.Some? {
      assert ProgressOk(encode, key, image.recorded.value, f);
      ReadPrefix(encode, key, image.recorded.value.documents);
    }
    ReadPrefix(encode, key, key.documents);
    WholePrefix(encode, key);
  }

  /** The documents a crash is sure to leave: all of a finished file, else the least of the records it may show. */
  ghost predicate SurelyKept(d: Disk, n: nat) {
    if d.key.Stored? && d.data.Some? && d.name == Finished then n <= d.key.key.documents
    else n == 0 || (d.entries && d.data.Some? && forall r | r in d.mayRead :: r.Some? && n <= r.value.documents)
  }

  /**
    A run removes a directory under its own key only when there is no progress to resume: no data
    file, or no record of it, and so nothing that a crash would be sure to leave.
    */
  lemma RemovalLosesNothing(encode: Encoder, s: Sys, n: nat)
    requires GoodEncoder(encode) && Reachable(encode, s) && Enabled(s, RemoveDir)
    requires s.disk.key == Stored(s.proc.key) && n > 0
    ensures s.disk.data.None? || s.disk.recorded.None?
    ensures !SurelyKept(s.disk, n)
  {
    hide Reachable, Prefix, Read, Corpus, ProgressOk;
    ReachableOk(encode, s);
    assert s.disk.recorded in s.disk.mayRead;
  }

  /** A step that is neither a removal under another key nor a crash that loses the key keeps what is sure. */
  lemma StepKeepsProgress(encode: Encoder, s: Sys, a: Action, n: nat)
    requires GoodEncoder(encode) && Reachable(encode, s) && Enabled(s, a)
    requires SurelyKept(s.disk, n)
    requires a.RemoveDir? ==> s.disk.key == Stored(s.proc.key)
    requires a.Crash? ==> a.image.key == s.disk.key
    ensures SurelyKept(Apply(encode, s, a).disk, n)
  {
    hide Reachable, Prefix, Read, Corpus, EncodeOne, ProgressOk;
    ReachableOk(encode, s);
    assert s.disk.recorded in s.disk.mayRead;
    if s.disk.key.Stored? && s.disk.data.Some? {
      KeptWithinCorpus(encode, s.disk, n);
    }
    if a.RemoveDir? && n > 0 {
      RemovalLosesNothing(encode, s, n);
    }
  }

  lemma KeptWithinCorpus(encode: Encoder, d: Disk, n: nat)
    requires GoodEncoder(encode) && DiskOk(encode, d) && SurelyKept(d, n) && d.key.Stored? && d.data.Some?
    ensures n <= d.key.key.documents
  {
    hide Prefix;
    if n > 0 && d.name != Finished {
      assert ProgressOk(encode, d.key.key, d.recorded.value, d.data.value);
    }
  }

  /** `n` documents of this key that a crash is sure to leave. */
  ghost predicate KeptFor(d: Disk, key: Key, n: nat) {
    d.key == Stored(key) && SurelyKept(d, n)
  }

  /**
    When progress goes backwards: a step keeps the documents recorded under a key unless a run under
    another key removes the directory, or a crash loses `key.json`, whose contents nothing syncs.
    */
  lemma ProgressKeptIff(encode: Encoder, s: Sys, a: Action, key: Key, n: nat)
    requires GoodEncoder(encode) && Reachable(encode, s) && Enabled(s, a)
    requires KeptFor(s.disk, key, n) && n > 0
    ensures KeptFor(Apply(encode, s, a).disk, key, n) <==>
              (a.RemoveDir? ==> s.proc.key == key) && (a.Crash? ==> a.image.key == Stored(key))
  {
    hide Reachable, SurelyKept;
    if (a.RemoveDir? ==> s.proc.key == key) && (a.Crash? ==> a.image.key == Stored(key)) {
      StepKeepsProgress(encode, s, a, n);
      StepKeepsKey(encode, s, a, key, n);
    }
  }

  lemma StepKeepsKey(encode: Encoder, s: Sys, a: Action, key: Key, n: nat)
    requires GoodEncoder(encode) && Reachable(encode, s) && Enabled(s, a)
    requires KeptFor(s.disk, key, n) && n > 0
    requires (a.RemoveDir? ==> s.proc.key == key) && (a.Crash? ==> a.image.key == Stored(key))
    ensures Apply(encode, s, a).disk.key == Stored(key)
  {
    hide Reachable, Prefix, Read, Corpus, EncodeOne, ProgressOk, EncodingOk;
    ReachableOk(encode, s);
    if a.RemoveDir? {
      RemovalLosesNothing(encode, s, n);
    }
  }

  /** The run resumes at document `n` or behind it, or finds the finished cache. */
  predicate Resumes(d: Disk, key: Key, n: nat) {
    CacheHit(d, key) || (StartProc(d, key).Resuming? && ResumedAt(d, key) >= n)
  }

  /**
    An interrupted encode resumes from its progress record after a crash if and only if the crash left
    the key readable.
    */
  lemma ResumesAfterCrashIff(encode: Encoder, s: Sys, image: Disk, key: Key, n: nat)
    requires GoodEncoder(encode) && Reachable(encode, s) && CrashImage(s.disk, image)
    requires KeptFor(s.disk, key, n) && n > 0
    ensures Resumes(image, key, n) <==> image.key == Stored(key)
  {
    hide Reachable, Prefix, Read, Corpus;
    ReachableOk(encode, s);
    CrashKeeps(encode, s.disk, image);
    assert s.disk.recorded in s.disk.mayRead;
    if image.key == Stored(key) && image.recorded.Some? && image.data.Some? {
      assert ProgressOk(encode, key, image.recorded.value, image.data.value);
    }
  }

  /** What is left of the directory when a crash loses the key and everything else that is not synced. */
  function KeyLost(d: Disk): Disk
    requires d.data.Some? && d.data.value.synced <= |d.data.value.bytes|
  {
    var f := d.data.value;
    Disk(NoKey, Some(File(f.bytes[..f.synced], f.synced, true)), if d.name == Finished then Finished else Partial,
         true, d.recorded, {d.recorded})
  }

  /**
    Such a crash may come at any moment that there is progress to lose.  The records and their bytes
    are all there behind it, yet a run under the same key removes the directory and starts over.
    */
  lemma LostKeyStartsOver(encode: Encoder, s: Sys, key: Key, n: nat)
    requires GoodEncoder(encode) && Reachable(encode, s)
    requires KeptFor(s.disk, key, n) && n > 0
    ensures s.disk.data.Some? && s.disk.data.value.synced <= |s.disk.data.value.bytes|
    ensures var image := KeyLost(s.disk);
            CrashImage(s.disk, image) &&
            (s.disk.name == Partial ==> SurelyKept(image, n) && KeptFor(image.(key := Stored(key)), key, n)) &&
            Run(encode, s, [Crash(image), Start(key), RemoveDir]) == Some(Sys(EMPTY, Cleared(key)))
    ensures !SurelyKept(EMPTY, n)
  {
    hide Reachable, Prefix, Read, Corpus, ProgressOk, NotAfter;
    ReachableOk(encode, s);
    assert s.disk.recorded in s.disk.mayRead;
    var image := KeyLost(s.disk);
    var f := s.disk.data.value;
    assert f.clean ==> f.bytes[..f.synced] == f.bytes;
    StartsOver(encode, s, image, key);
  }

  lemma StartsOver(encode: Encoder, s: Sys, image: Disk, key: Key)
    requires GoodEncoder(encode) && CrashImage(s.disk, image) && StartProc(image, key) == Clearing(key)
    ensures Run(encode, s, [Crash(image), Start(key), RemoveDir]) == Some(Sys(EMPTY, Cleared(key)))
  {
    hide Run, CrashImage, StartProc, GoodEncoder;
    var start := [Crash(image), Start(key)];
    RunNone(encode, s);
    assert [] + [Crash(image)] == [Crash(image)];
    assert [Crash(image)] + [Start(key)] == start;
    assert start + [RemoveDir] == [Crash(image), Start(key), RemoveDir];
    RunSnoc(encode, s, [], s, Crash(image));
    RunSnoc(encode, s, [Crash(image)], Sys(image, Idle), Start(key));
    RunSnoc(encode, s, start, Sys(image, Clearing(key)), RemoveDir);
  }

  lemma RunNone(encode: Encoder, s: Sys)
    requires GoodEncoder(encode)
    ensures Run(encode, s, []) == Some(s)
  {
  }

  // ---------------------------------------------------------------- the program

  lemma {:induction false} RunSnoc(encode: Encoder, s: Sys, actions: seq<Action>, t: Sys, a: Action)
    requires GoodEncoder(encode) && Run(encode, s, actions) == Some(t) && Enabled(t, a)
    ensures Run(encode, s, actions + [a]) == Some(Apply(encode, t, a))
  {
    hide Enabled, Apply;
    assert (actions + [a])[..|actions|] == actions;
  }

  /** What ends a run without a result, short of a crash. */
  datatype RunError = PassageCount(got: nat) | EncoderStopped(document: nat)

  /** The finished file is there under the key. */
  predicate CacheHit(d: Disk, key: Key) {
    StartProc(d, key).Returned?
  }

  lemma HitKey(d: Disk, key: Key)
    requires CacheHit(d, key)
    ensures StartProc(d, key).key == key
  {
  }

  /** The document a run begins to encode at. */
  function ResumedAt(d: Disk, key: Key): nat {
    match StartProc(d, key)
    case Resuming(_, progress) => progress.documents
    case _ => 0
  }

  /** The first document of `i..n` that `stops` holds of, else `n`. */
  function FirstStop(i: nat, n: nat, stops: nat -> bool): (r: nat)
    requires i <= n
    ensures i <= r <= n && (r < n ==> stops(r)) && forall j | i <= j < r :: !stops(j)
    decreases n - i
  {
    if i == n || stops(i) then i else FirstStop(i + 1, n, stops)
  }

  /** What a run gives that begins to encode at document `first`. */
  function Outcome(encode: Encoder, key: Key, first: nat, passages: nat, stops: nat -> bool)
    : Result<seq<Expansion>, RunError>
  {
    if passages != key.documents then Err(PassageCount(passages))
    else if first <= passages && FirstStop(first, passages, stops) < passages then
      Err(EncoderStopped(FirstStop(first, passages, stops)))
    else Ok(Corpus(encode, key))
  }

  /** The process and the directory it works on.  `trace` is every action since the state `from`. */
  class CacheRun {
    const encode: Encoder
    var sys: Sys
    ghost var from: Sys
    ghost var trace: seq<Action>

    ghost predicate Valid()
      reads this
    {
      GoodEncoder(encode) && Inv(encode, sys) && Run(encode, from, trace) == Some(sys)
    }

    constructor (encode: Encoder, sys: Sys)
      requires GoodEncoder(encode) && Inv(encode, sys)
      ensures Valid() && this.encode == encode && this.sys == sys && from == sys && trace == []
    {
      this.encode, this.sys, this.from, this.trace := encode, sys, sys, [];
    }

    /** One step. */
    method Do(a: Action)
      requires Valid() && Enabled(sys, a)
      modifies this
      ensures Valid() && sys == Apply(encode, old(sys), a) && from == old(from) && trace == old(trace) + [a]
    {
      hide Inv, Run, Apply, Enabled;
      StepKeeps(encode, sys, a);
      RunSnoc(encode, from, trace, sys, a);
      sys := Apply(encode, sys, a);
      trace := trace + [a];
    }

    /** From the decision to resume or start over to the encode loop. */
    method Prepare(key: Key)
      requires Valid() && sys.proc == StartProc(sys.disk, key) && !sys.proc.Returned?
      modifies this
      ensures Valid() && from == old(from)
      ensures InPhase(sys.proc, Loop) && sys.proc.key == key
      ensures |sys.proc.expansions| == ResumedAt(old(sys.disk), key) <= key.documents
      ensures sys.proc.expansions == Corpus(encode, key)[..ResumedAt(old(sys.disk), key)]
      ensures sys.proc.first == |sys.proc.expansions|
      ensures HoldsPrefix(encode, sys.disk, key, ResumedAt(old(sys.disk), key)) && sys.proc.buffer == []
      ensures old(sys.proc.Resuming?) ==> sys.disk.data.value.clean && sys.disk.recorded == old(sys.disk.recorded)
    {
      hide Run, Prefix, Corpus, DiskOk, Read;
      if sys.proc.Resuming? {
        ResumeEnabled(encode, sys);
        Do(SetLen);
        Do(SyncLength);
        ghost var bytes, n := sys.disk.data.value.bytes, sys.proc.progress.documents;
        Do(ReadBack);
        ReadCount(bytes, n);
      } else {
        Do(RemoveDir);
        Do(WriteKey);
        Do(CreatePartial);
      }
    }

    /** The records become durable before the progress record names them. */
    method RecordProgress()
      requires Valid() && InPhase(sys.proc, SyncPoint)
      modifies this
      ensures Valid() && from == old(from)
      ensures InPhase(sys.proc, Loop) && sys.proc.key == old(sys.proc.key) && sys.proc.first == old(sys.proc.first)
      ensures sys.proc.expansions == old(sys.proc.expansions)
      ensures sys.disk.recorded == Some(Progress(|sys.proc.expansions|, sys.proc.bytes))
      ensures sys.disk.mayRead == {sys.disk.recorded} && sys.disk.entries
    {
      hide Run, Prefix, Corpus, DiskOk, Read;
      Do(Flush);
      Do(Sync);
      Do(RenameProgress);
      Do(SyncDir);
    }

    /** The last sync, and the rename to `weights.bin`, made durable. */
    method Seal()
      requires Valid() && InPhase(sys.proc, Loop) && Complete(sys.proc)
      modifies this
      ensures Valid() && from == old(from)
      ensures InPhase(sys.proc, TailDurable) && sys.proc.key == old(sys.proc.key)
      ensures sys.disk.data.Some? && sys.disk.name == Finished && sys.disk.key == old(sys.disk.key)
      ensures sys.disk.data.value.clean && sys.disk.entries
    {
      hide Run, Prefix, Corpus, DiskOk, Read, EncodingOk;
      InLoop(encode, sys);
      Do(Flush);
      Do(Sync);
      Do(RenameData);
      Do(SyncDir);
    }

    /** The end of a run: the file is finished, the progress record removed, and the expansions returned. */
    method Finish()
      requires Valid() && InPhase(sys.proc, Loop) && Complete(sys.proc)
      modifies this
      ensures Valid() && from == old(from)
      ensures sys.proc.Returned? && sys.proc.key == old(sys.proc.key)
      ensures sys.disk.data.Some? && sys.disk.name == Finished && sys.disk.key == old(sys.disk.key)
      ensures sys.disk.recorded == None && sys.disk.data.value.clean && sys.disk.entries
    {
      hide Run, Prefix, Corpus, DiskOk, Read, EncodingOk, Complete;
      Seal();
      Do(RemoveProgress);
      Do(Return);
    }

    /** One document, and the progress record after every thousandth of the run. */
    method EncodeNext()
      requires Valid() && InPhase(sys.proc, Loop) && |sys.proc.expansions| < sys.proc.key.documents
      modifies this
      ensures Valid() && from == old(from) && InPhase(sys.proc, Loop) && sys.proc.key == old(sys.proc.key)
      ensures |sys.proc.expansions| == old(|sys.proc.expansions|) + 1 && sys.proc.first == old(sys.proc.first)
      ensures (|sys.proc.expansions| - sys.proc.first) % 1000 == 0 ==>
              sys.disk.recorded == Some(Progress(|sys.proc.expansions|, sys.proc.bytes)) &&
              sys.disk.mayRead == {sys.disk.recorded} && sys.disk.entries
    {
      hide Run, Inv, EncodeOne, Storable, GoodEncoder;
      Do(Encode);
      if sys.proc.phase == SyncPoint {
        RecordProgress();
      }
    }

    /** The encode loop, up to the first document the encoder stops at. */
    method EncodeRest(stops: nat -> bool) returns (stopped: Option<nat>)
      requires Valid() && InPhase(sys.proc, Loop) && |sys.proc.expansions| <= sys.proc.key.documents
      modifies this
      ensures Valid() && from == old(from)
      ensures var n := old(sys.proc.key.documents);
              var stop := FirstStop(old(|sys.proc.expansions|), n, stops);
              if stop < n then stopped == Some(stop) && sys.proc == Idle &&
                HoldsPrefix(encode, sys.disk, old(sys.proc.key), stop)
              else stopped == None && InPhase(sys.proc, Loop) && Complete(sys.proc) && sys.proc.key == old(sys.proc.key)
    {
      hide Run, Prefix, Corpus, DiskOk, Read, EncodeOne, Storable, GoodEncoder, HoldsPrefix, Owns;
      ghost var first := |sys.proc.expansions|;
      var key := sys.proc.key;
      while |sys.proc.expansions| < key.documents
        invariant Valid() && from == old(from) && InPhase(sys.proc, Loop) && sys.proc.key == key
        invariant first <= |sys.proc.expansions| <= key.documents
        invariant FirstStop(|sys.proc.expansions|, key.documents, stops) == FirstStop(first, key.documents, stops)
        decreases key.documents - |sys.proc.expansions|
      {
        var i := |sys.proc.expansions|;
        if stops(i) {
          // The buffered writer is dropped on the way out and still writes what it holds.
          SpillEnabled(encode, sys);
          Do(Spill(|sys.proc.buffer|));
          AllSpilled(encode, sys);
          Do(Kill);
          return Some(i);
        }
        EncodeNext();
      }
      stopped := None;
    }

    /**
      `sparse_expansions`: from any state runs, crashes and kills may have left, by actions of the
      transition system only.  `passages` is how many passages the corpus gave, `stops` the documents
      this run's encoder fails on or expands beyond the count field.  Neither matters to a finished
      cache; otherwise the result is the corpus's expansions, or the error of the first such document
      at or behind the resume point, with what was written by then left to the next run.
      */
    method SparseExpansions(key: Key, passages: nat, stops: nat -> bool) returns (r: Result<seq<Expansion>, RunError>)
      requires Valid() && sys.proc.Idle?
      modifies this
      ensures Valid() && from == old(from)
      ensures CacheHit(old(sys.disk), key) ==> r == Ok(Corpus(encode, key)) && sys.disk == old(sys.disk)
      ensures !CacheHit(old(sys.disk), key) ==>
              r == Outcome(encode, key, ResumedAt(old(sys.disk), key), passages, stops)
      ensures sys.proc == if r.Ok? then Returned(key, Ok(r.value)) else Idle
      ensures r.Err? && r.error.EncoderStopped? ==> HoldsPrefix(encode, sys.disk, key, r.error.document)
    {
      hide Run, Prefix, Corpus, DiskOk, Read, StartProc, EncodingOk, GoodEncoder, Complete;
      Do(Start(key));
      if sys.proc.Returned? {
        HitKey(sys.disk, key);
        return Ok(sys.proc.result.value);
      }
      Prepare(key);
      if passages != key.documents {
        Do(Kill);
        return Err(PassageCount(passages));
      }
      var stopped := EncodeRest(stops);
      if stopped.Some? {
        return Err(EncoderStopped(stopped.value));
      }
      Finish();
      r := Ok(sys.proc.result.value);
    }
  }

  /** The partial file holds exactly the records of the first `n` documents. */
  ghost predicate HoldsPrefix(encode: Encoder, d: Disk, key: Key, n: nat)
    requires GoodEncoder(encode)
  {
    n <= key.documents && Owns(d, key, Partial) && d.data.value.bytes == Prefix(encode, key, n)
  }

  lemma AllSpilled(encode: Encoder, s: Sys)
    requires GoodEncoder(encode) && Inv(encode, s) && InPhase(s.proc, Loop) && s.proc.buffer == []
    ensures HoldsPrefix(encode, s.disk, s.proc.key, |s.proc.expansions|)
  {
    hide Prefix, Corpus, DiskOk;
    assert s.disk.data.value.bytes + [] == s.disk.data.value.bytes;
  }

  lemma InLoop(encode: Encoder, s: Sys)
    requires GoodEncoder(encode) && Inv(encode, s) && InPhase(s.proc, Loop)
    ensures s.disk.data.Some? && s.disk.name == Partial
  {
    hide Prefix, Corpus, DiskOk;
  }

  lemma SpillEnabled(encode: Encoder, s: Sys)
    requires GoodEncoder(encode) && Inv(encode, s) && InPhase(s.proc, Loop)
    ensures Enabled(s, Spill(|s.proc.buffer|))
  {
    hide Prefix, Corpus, DiskOk;
  }

  lemma ReadCount(b: seq<Byte>, n: nat)
    requires Read(b, n).Ok?
    ensures |Read(b, n).value| == n
  {
    hide Read;
    AcceptedIffWritten(b, n, Read(b, n).value);
  }

  lemma ResumeEnabled(encode: Encoder, s: Sys)
    requires GoodEncoder(encode) && Inv(encode, s) && s.proc.Resuming?
    ensures Enabled(s, SetLen)
  {
    hide Prefix;
    assert ProgressOk(encode, s.proc.key, s.proc.progress, s.disk.data.value);
  }
}
