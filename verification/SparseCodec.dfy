/**
  The `weights.bin` layout: per document a little-endian entry count, a truncation flag and the
  `(token id, weight)` pairs.  A weight is kept as its 32-bit pattern.
  */
module SparseCodec {
  import opened Common
  import opened Utf8

  type U32 = n: int | 0 <= n < 0x1_0000_0000

  datatype Entry = Entry(id: U32, weight: U32)

  datatype Expansion = Expansion(entries: seq<Entry>, truncated: bool)

  datatype ReadError = EndsInside(document: nat) | BadFlag(document: nat, flag: Byte) | BytesAfter(count: nat)

  datatype WriteError = TooManyEntries(count: nat)

  function Le32(n: U32): (b: seq<Byte>)
    ensures |b| == 4
  {
    [n % 256, n / 256 % 256, n / 65536 % 256, n / 16777216]
  }

  function FromLe32(b: seq<Byte>): U32
    requires |b| == 4
  {
    Digits(b[0], b[1], b[2], b[3])
  }

  function Digits(a: int, b: int, c: int, d: int): int {
    a + 256 * b + 65536 * c + 16777216 * d
  }

  lemma Le32RoundTrip(n: U32)
    ensures FromLe32(Le32(n)) == n
  {
    DivideAgain(n);
    assert n / 256 == n / 256 / 256 * 256 + n / 256 % 256;
  }

  lemma FromLe32RoundTrip(b: seq<Byte>)
    requires |b| == 4
    ensures Le32(FromLe32(b)) == b
  {
    hide Digits;
    DigitsBack(b[0], b[1], b[2], b[3]);
  }

  lemma DigitsBack(a: Byte, b: Byte, c: Byte, d: Byte)
    ensures var n := Digits(a, b, c, d);
            0 <= n && n % 256 == a && n / 256 % 256 == b && n / 65536 % 256 == c && n / 16777216 == d
  {
    hide Digits;
    DigitsNest(a, b, c, d);
    Digit(a, b + 256 * (c + 256 * d));
    Digit(b, c + 256 * d);
    Digit(c, d);
    DivideAgain(Digits(a, b, c, d));
  }

  lemma DigitsNest(a: int, b: int, c: int, d: int)
    ensures Digits(a, b, c, d) == a + 256 * (b + 256 * (c + 256 * d))
  {
  }

  lemma Digit(d: Byte, rest: nat)
    ensures (d + 256 * rest) % 256 == d && (d + 256 * rest) / 256 == rest
  {
  }

  lemma DivideAgain(n: nat)
    ensures n / 65536 == n / 256 / 256 && n / 16777216 == n / 256 / 256 / 256
  {
  }

  /** An expansion whose entry count fits the count field. */
  predicate Storable(e: Expansion) {
    |e.entries| < 0x1_0000_0000
  }

  predicate AllStorable(es: seq<Expansion>) {
    forall i | 0 <= i < |es| :: Storable(es[i])
  }

  function EncodeEntries(entries: seq<Entry>): (b: seq<Byte>)
    ensures |b| == 8 * |entries|
  {
    if entries == [] then []
    else EncodeEntries(entries[..|entries| - 1]) + Le32(entries[|entries| - 1].id) + Le32(entries[|entries| - 1].weight)
  }

  function EncodeOne(e: Expansion): (b: seq<Byte>)
    requires Storable(e)
    ensures |b| == 5 + 8 * |e.entries|
  {
    Le32(|e.entries|) + [if e.truncated then 1 else 0] + EncodeEntries(e.entries)
  }

  function EncodeAll(es: seq<Expansion>): seq<Byte>
    requires AllStorable(es)
  {
    if es == [] then [] else EncodeOne(es[0]) + EncodeAll(es[1..])
  }

  lemma {:induction false} EncodeAllConcat(a: seq<Expansion>, b: seq<Expansion>)
    requires AllStorable(a) && AllStorable(b)
    ensures AllStorable(a + b) && EncodeAll(a + b) == EncodeAll(a) + EncodeAll(b)
    decreases |a|
  {
    hide Storable, EncodeOne;
    if a == [] {
      assert a + b == b;
    } else {
      assert (a + b)[1..] == a[1..] + b;
      EncodeAllConcat(a[1..], b);
    }
  }

  lemma EncodeAllOne(e: Expansion)
    requires Storable(e)
    ensures EncodeAll([e]) == EncodeOne(e)
  {
    hide EncodeOne;
    assert [e][1..] == [];
  }

  // ---------------------------------------------------------------- writing

  /** `append_sparse_weights`: nothing is written when the count does not fit. */
  method AppendExpansion(out: seq<Byte>, e: Expansion) returns (r: Result<seq<Byte>, WriteError>)
    ensures r.Ok? <==> |e.entries| <= 0xFFFF_FFFF
    ensures Storable(e) ==> r == Ok(out + EncodeOne(e))
    ensures !Storable(e) ==> r == Err(TooManyEntries(|e.entries|))
  {
    hide Le32;
    var entries := e.entries;
    if |entries| >= 0x1_0000_0000 {
      return Err(TooManyEntries(|entries|));
    }
    var bytes := out + Le32(|entries|);
    bytes := bytes + [if e.truncated then 1 else 0];
    ghost var head := bytes;
    for k := 0 to |entries|
      invariant bytes == head + EncodeEntries(entries[..k])
    {
      assert entries[..k + 1][..k] == entries[..k];
      bytes := bytes + Le32(entries[k].id);
      bytes := bytes + Le32(entries[k].weight);
    }
    assert entries[..|entries|] == entries;
    assert bytes == out + EncodeOne(e);
    r := Ok(bytes);
  }

  /** The first expansion that is too long, and the error with its number of entries. */
  predicate FirstTooLong(es: seq<Expansion>, k: int, error: WriteError) {
    0 <= k < |es| && !Storable(es[k]) && AllStorable(es[..k]) && error == TooManyEntries(|es[k].entries|)
  }

  /** `write_sparse_weights`, up to the atomic replace of the file by these bytes. */
  method WriteExpansions(es: seq<Expansion>) returns (r: Result<seq<Byte>, WriteError>)
    ensures AllStorable(es) ==> r == Ok(EncodeAll(es))
    ensures r.Err? <==> !AllStorable(es)
    ensures r.Err? ==> exists k :: FirstTooLong(es, k, r.error)
  {
    hide EncodeOne, Storable;
    var bytes := [];
    for k := 0 to |es|
      invariant AllStorable(es[..k]) && bytes == EncodeAll(es[..k])
    {
      var appended := AppendExpansion(bytes, es[k]);
      if appended.Err? {
        assert !Storable(es[k]);
        assert FirstTooLong(es, k, appended.error);
        return Err(appended.error);
      }
      assert es[..k + 1] == es[..k] + [es[k]];
      EncodeAllConcat(es[..k], [es[k]]);
      EncodeAllOne(es[k]);
      bytes := appended.value;
    }
    assert es[..|es|] == es;
    r := Ok(bytes);
  }

  // ---------------------------------------------------------------- reading

  function CountAt(b: seq<Byte>, at: nat): U32
    requires at + 4 <= |b|
  {
    FromLe32(b[at..at + 4])
  }

  function EntryAt(b: seq<Byte>, at: nat): Entry
    requires at + 8 <= |b|
  {
    Entry(FromLe32(b[at..at + 4]), FromLe32(b[at + 4..at + 8]))
  }

  function EntriesAt(b: seq<Byte>, at: nat, count: nat): (r: seq<Entry>)
    requires at + 8 * count <= |b|
    ensures |r| == count
  {
    if count == 0 then [] else EntriesAt(b, at, count - 1) + [EntryAt(b, at + 8 * (count - 1))]
  }

  /** The expansions of documents `i..n`, read from byte `at` to the end of the file. */
  function ReadFrom(b: seq<Byte>, at: nat, i: nat, n: nat): Result<seq<Expansion>, ReadError>
    requires at <= |b| && i <= n
    decreases n - i
  {
    if i == n then if at != |b| then Err(BytesAfter(|b| - at)) else Ok([])
    else if at + 5 > |b| then Err(EndsInside(i))
    else if b[at + 4] > 1 then Err(BadFlag(i, b[at + 4]))
    else if at + 5 + 8 * CountAt(b, at) > |b| then Err(EndsInside(i))
    else
      var e := Expansion(EntriesAt(b, at + 5, CountAt(b, at)), b[at + 4] == 1);
      Prepend([e], ReadFrom(b, at + 5 + 8 * CountAt(b, at), i + 1, n))
  }

  function Prepend(es: seq<Expansion>, r: Result<seq<Expansion>, ReadError>): Result<seq<Expansion>, ReadError> {
    match r
    case Ok(rest) => Ok(es + rest)
    case Err(e) => Err(e)
  }

  function Read(b: seq<Byte>, documents: nat): Result<seq<Expansion>, ReadError> {
    ReadFrom(b, 0, 0, documents)
  }

  /** `read_sparse_weights`: the cursor loop over a file's bytes. */
  method ReadExpansions(bytes: seq<Byte>, documents: nat) returns (r: Result<seq<Expansion>, ReadError>)
    ensures r == Read(bytes, documents)
  {
    hide EntryAt, FromLe32;
    var out: seq<Expansion> := [];
    PrependNone(Read(bytes, documents));
    var at := 0;
    for i := 0 to documents
      invariant 0 <= at <= |bytes|
      invariant Prepend(out, ReadFrom(bytes, at, i, documents)) == Read(bytes, documents)
    {
      if at + 4 > |bytes| {
        return Err(EndsInside(i));
      }
      var count := FromLe32(bytes[at..at + 4]);
      if at + 4 >= |bytes| {
        return Err(EndsInside(i));
      }
      var flag := bytes[at + 4];
      if flag > 1 {
        return Err(BadFlag(i, flag));
      }
      var from := at + 5;
      var entries := ReadEntries(bytes, from, count);
      if entries.Err? {
        return Err(EndsInside(i));
      }
      PrependPrepend(out, Expansion(entries.value, flag == 1), ReadFrom(bytes, from + 8 * count, i + 1, documents));
      out := out + [Expansion(entries.value, flag == 1)];
      at := from + 8 * count;
    }
    if at != |bytes| {
      return Err(BytesAfter(|bytes| - at));
    }
    assert out + [] == out;
    r := Ok(out);
  }

  lemma PrependPrepend(es: seq<Expansion>, e: Expansion, r: Result<seq<Expansion>, ReadError>)
    ensures Prepend(es, Prepend([e], r)) == Prepend(es + [e], r)
  {
    if r.Ok? {
      assert es + ([e] + r.value) == es + [e] + r.value;
    }
  }

  /** The pairs of one record; the only error is running out of bytes. */
  method ReadEntries(bytes: seq<Byte>, from: nat, count: nat) returns (r: Result<seq<Entry>, ()>)
    requires from <= |bytes|
    ensures from + 8 * count <= |bytes| ==> r == Ok(EntriesAt(bytes, from, count))
    ensures from + 8 * count > |bytes| ==> r.Err?
  {
    hide FromLe32;
    var entries: seq<Entry> := [];
    var at := from;
    for k := 0 to count
      invariant at == from + 8 * k <= |bytes|
      invariant entries == EntriesAt(bytes, from, k)
    {
      if at + 4 > |bytes| {
        return Err(());
      }
      var id := FromLe32(bytes[at..at + 4]);
      if at + 8 > |bytes| {
        return Err(());
      }
      var weight := FromLe32(bytes[at + 4..at + 8]);
      entries := entries + [Entry(id, weight)];
      at := at + 8;
    }
    r := Ok(entries);
  }

  // ---------------------------------------------------------------- the codec is a bijection

  lemma {:induction false} EntriesRoundTrip(b: seq<Byte>, at: nat, entries: seq<Entry>)
    requires at + 8 * |entries| <= |b| && b[at..at + 8 * |entries|] == EncodeEntries(entries)
    ensures EntriesAt(b, at, |entries|) == entries
    decreases |entries|
  {
    hide Le32, FromLe32;
    if entries != [] {
      var n := |entries| - 1;
      var e, mid := entries[n], at + 8 * n;
      CutEntries(b[at..at + 8 * (n + 1)], EncodeEntries(entries[..n]), Le32(e.id), Le32(e.weight));
      CutSlice(b, at, 8 * n);
      EntriesRoundTrip(b, at, entries[..n]);
      Le32RoundTrip(e.id);
      Le32RoundTrip(e.weight);
    }
  }

  /** The last two words of a run of entries. */
  lemma CutEntries(all: seq<Byte>, init: seq<Byte>, id: seq<Byte>, weight: seq<Byte>)
    requires all == init + id + weight && |id| == 4 && |weight| == 4
    ensures |all| == |init| + 8
    ensures all[..|init|] == init && all[|init|..|init| + 4] == id && all[|init| + 4..|init| + 8] == weight
  {
  }

  /** The parts of a slice of eight bytes more than `m` are slices themselves. */
  lemma CutSlice(b: seq<Byte>, at: nat, m: nat)
    requires at + m + 8 <= |b|
    ensures var all := b[at..at + (m + 8)];
            all[..m] == b[at..at + m] && all[m..m + 4] == b[at + m..at + m + 4] &&
              all[m + 4..m + 8] == b[at + m + 4..at + m + 8]
    ensures b[at..at + (m + 8)] == b[at..at + m] + b[at + m..at + m + 4] + b[at + m + 4..at + m + 8]
  {
    var hi := at + (m + 8);
    SliceOfSlice(b, at, hi, 0, m);
    SliceOfSlice(b, at, hi, m, m + 4);
    SliceOfSlice(b, at, hi, m + 4, m + 8);
    ThreeParts(b[at..hi], m, m + 4);
  }

  lemma SliceOfSlice(b: seq<Byte>, lo: nat, hi: nat, i: nat, j: nat)
    requires lo <= hi <= |b| && i <= j <= hi - lo
    ensures b[lo..hi][i..j] == b[lo + i..lo + j]
  {
    var x, y := b[lo..hi][i..j], b[lo + i..lo + j];
    forall k | 0 <= k < |x| ensures x[k] == y[k] {
      assert x[k] == b[lo..hi][i + k] == b[lo + (i + k)];
    }
    assert x == y;
  }

  lemma ThreeParts(all: seq<Byte>, i: nat, j: nat)
    requires i <= j <= |all|
    ensures all == all[..i] + all[i..j] + all[j..|all|]
  {
  }

  lemma HeaderAt(b: seq<Byte>, at: nat, e: Expansion)
    requires Storable(e) && at + 5 <= |b|
    requires b[at..at + 5] == EncodeOne(e)[..5]
    ensures CountAt(b, at) == |e.entries| && b[at + 4] == if e.truncated then 1 else 0
  {
    hide Le32, FromLe32, EncodeOne;
    var head := b[at..at + 5];
    HeaderParts(e);
    assert head[4] == EncodeOne(e)[..5][4] == EncodeOne(e)[4];
    assert b[at..at + 4] == head[..4] == EncodeOne(e)[..5][..4] == EncodeOne(e)[..4];
    Le32RoundTrip(|e.entries|);
  }

  lemma HeaderParts(e: Expansion)
    requires Storable(e)
    ensures EncodeOne(e)[..4] == Le32(|e.entries|) && EncodeOne(e)[4] == if e.truncated then 1 else 0
  {
    hide Le32;
    var r := Le32(|e.entries|) + [if e.truncated then 1 else 0];
    assert EncodeOne(e) == r + EncodeEntries(e.entries);
    assert r[..4] == Le32(|e.entries|) && r[4] == if e.truncated then 1 else 0;
  }

  lemma RecordAt(b: seq<Byte>, at: nat, e: Expansion)
    requires Storable(e) && at + |EncodeOne(e)| <= |b| && b[at..at + |EncodeOne(e)|] == EncodeOne(e)
    ensures CountAt(b, at) == |e.entries| && b[at + 4] == (if e.truncated then 1 else 0)
    ensures EntriesAt(b, at + 5, |e.entries|) == e.entries
  {
    hide Le32, FromLe32, EncodeEntries;
    var r := EncodeOne(e);
    assert b[at..at + 5] == b[at..at + |r|][..5];
    HeaderAt(b, at, e);
    assert b[at + 5..at + |r|] == b[at..at + |r|][5..] == EncodeEntries(e.entries);
    EntriesRoundTrip(b, at + 5, e.entries);
  }

  lemma TwoSlices(b: seq<Byte>, at: nat, x: seq<Byte>, y: seq<Byte>)
    requires at + |x + y| <= |b| && b[at..at + |x + y|] == x + y
    ensures |x + y| == |x| + |y|
    ensures b[at..at + |x|] == x && b[at + |x|..at + |x| + |y|] == y
  {
    var all := b[at..at + |x + y|];
    SliceOfSlice(b, at, at + |x + y|, 0, |x|);
    SliceOfSlice(b, at, at + |x + y|, |x|, |x + y|);
    assert (x + y)[0..|x|] == x && (x + y)[|x|..|x + y|] == y;
  }

  /** One record, when one more document is wanted. */
  lemma ReadOne(b: seq<Byte>, at: nat, i: nat, e: Expansion, n: nat)
    requires Storable(e) && i < n
    requires at + |EncodeOne(e)| <= |b| && b[at..at + |EncodeOne(e)|] == EncodeOne(e)
    ensures ReadFrom(b, at, i, n) == Prepend([e], ReadFrom(b, at + |EncodeOne(e)|, i + 1, n))
  {
    hide EntriesAt, CountAt, EncodeOne, Prepend;
    RecordAt(b, at, e);
  }

  /** Reading across written records gives them back and goes on behind them. */
  lemma {:induction false} ReadAcross(b: seq<Byte>, at: nat, i: nat, es: seq<Expansion>, n: nat)
    requires AllStorable(es) && i + |es| <= n
    requires at + |EncodeAll(es)| <= |b| && b[at..at + |EncodeAll(es)|] == EncodeAll(es)
    ensures ReadFrom(b, at, i, n) == Prepend(es, ReadFrom(b, at + |EncodeAll(es)|, i + |es|, n))
    decreases |es|
  {
    hide EncodeOne, ReadFrom, Prepend, Storable;
    if es == [] {
      PrependNone(ReadFrom(b, at, i, n));
    } else {
      var e, rest := es[0], es[1..];
      var next := at + |EncodeOne(e)|;
      TwoSlices(b, at, EncodeOne(e), EncodeAll(rest));
      ReadOne(b, at, i, e, n);
      ReadAcross(b, next, i + 1, rest, n);
      PrependConcat(e, rest, ReadFrom(b, at + |EncodeAll(es)|, i + |es|, n));
      assert [e] + rest == es;
    }
  }

  lemma PrependNone(r: Result<seq<Expansion>, ReadError>)
    ensures Prepend([], r) == r
  {
    if r.Ok? {
      assert [] + r.value == r.value;
    }
  }

  lemma PrependConcat(e: Expansion, rest: seq<Expansion>, r: Result<seq<Expansion>, ReadError>)
    ensures Prepend([e], Prepend(rest, r)) == Prepend([e] + rest, r)
  {
    if r.Ok? {
      assert [e] + (rest + r.value) == [e] + rest + r.value;
    }
  }

  /** Reading when no document is left. */
  lemma ReadEnd(b: seq<Byte>, es: seq<Expansion>)
    requires AllStorable(es) && |EncodeAll(es)| <= |b|
    ensures Read(b, |es|) == ReadFrom(b, 0, 0, |es|)
    ensures var at := |EncodeAll(es)|;
            Prepend(es, ReadFrom(b, at, |es|, |es|)) == if at == |b| then Ok(es) else Err(BytesAfter(|b| - at))
  {
    hide EncodeAll, Storable;
    assert es + [] == es;
  }

  /** What was written is read back, bit for bit. */
  lemma ReadsWhatWasWritten(es: seq<Expansion>)
    requires AllStorable(es)
    ensures Read(EncodeAll(es), |es|) == Ok(es)
  {
    hide *;
    var b := EncodeAll(es);
    assert b[0..0 + |b|] == b;
    ReadEnd(b, es);
    ReadAcross(b, 0, 0, es, |es|);
  }

  /** Bytes after the last document are refused, and counted. */
  lemma ExtensionRefused(es: seq<Expansion>, extra: seq<Byte>)
    requires AllStorable(es) && extra != []
    ensures Read(EncodeAll(es) + extra, |es|) == Err(BytesAfter(|extra|))
  {
    hide *;
    var b := EncodeAll(es) + extra;
    ReadEnd(b, es);
    assert b[0..0 + |EncodeAll(es)|] == EncodeAll(es);
    ReadAcross(b, 0, 0, es, |es|);
  }

  lemma {:induction false} PrefixEndsInside(b: seq<Byte>, at: nat, i: nat, es: seq<Expansion>)
    requires AllStorable(es) && at <= |b| < at + |EncodeAll(es)|
    requires b[at..] == EncodeAll(es)[..|b| - at]
    ensures exists d | i <= d < i + |es| :: ReadFrom(b, at, i, i + |es|) == Err(EndsInside(d))
    decreases |es|
  {
    hide EncodeOne, EntriesAt, CountAt;
    var e, rest, n := es[0], es[1..], i + |es|;
    var all := EncodeAll(es);
    var next := at + |EncodeOne(e)|;
    assert all[..|EncodeOne(e)|] == EncodeOne(e) && all[|EncodeOne(e)|..] == EncodeAll(rest);
    if next <= |b| {
      assert b[at..next] == b[at..][..|EncodeOne(e)|] == EncodeOne(e);
      assert b[next..] == b[at..][|EncodeOne(e)|..] == EncodeAll(rest)[..|b| - next];
      RecordAt(b, at, e);
      PrefixEndsInside(b, next, i + 1, rest);
    } else if at + 5 <= |b| {
      assert b[at..at + 5] == b[at..][..5] == all[..5] == EncodeOne(e)[..5];
      HeaderAt(b, at, e);
      assert ReadFrom(b, at, i, n) == Err(EndsInside(i));
    } else {
      assert ReadFrom(b, at, i, n) == Err(EndsInside(i));
    }
  }

  /** Every strict prefix of a file is refused as ending inside a document. */
  lemma PrefixRefused(es: seq<Expansion>, k: nat)
    requires AllStorable(es) && k < |EncodeAll(es)|
    ensures exists d | 0 <= d < |es| :: Read(EncodeAll(es)[..k], |es|) == Err(EndsInside(d))
  {
    hide EncodeAll, Storable;
    var b := EncodeAll(es)[..k];
    assert b[0..] == b;
    PrefixEndsInside(b, 0, 0, es);
  }

  lemma {:induction false} EntriesEncode(b: seq<Byte>, at: nat, count: nat)
    requires at + 8 * count <= |b|
    ensures EncodeEntries(EntriesAt(b, at, count)) == b[at..at + 8 * count]
    decreases count
  {
    hide Le32, FromLe32;
    if count > 0 {
      hide EncodeEntries, EntriesAt;
      EntriesEncode(b, at, count - 1);
      EntryEncodes(b, at, count - 1, at + 8 * (count - 1));
    } else {
      assert b[at..at] == [];
    }
  }

  /** One entry more, at `mid`. */
  lemma EntryEncodes(b: seq<Byte>, at: nat, n: nat, mid: nat)
    requires mid == at + 8 * n && mid + 8 <= |b|
    requires EncodeEntries(EntriesAt(b, at, n)) == b[at..mid]
    ensures EncodeEntries(EntriesAt(b, at, n + 1)) == b[at..mid + 8]
  {
    hide Le32, FromLe32, EncodeEntries, EntriesAt;
    FromLe32RoundTrip(b[mid..mid + 4]);
    FromLe32RoundTrip(b[mid + 4..mid + 8]);
    LastEntry(b, at, n, mid);
    ThreeSlices(b, at, mid);
  }

  lemma ThreeSlices(b: seq<Byte>, at: nat, mid: nat)
    requires at <= mid && mid + 8 <= |b|
    ensures b[at..mid + 8] == b[at..mid] + b[mid..mid + 4] + b[mid + 4..mid + 8]
  {
    CutSlice(b, at, mid - at);
  }

  lemma LastEntry(b: seq<Byte>, at: nat, n: nat, mid: nat)
    requires mid == at + 8 * n && mid + 8 <= |b|
    ensures EncodeEntries(EntriesAt(b, at, n + 1)) ==
            EncodeEntries(EntriesAt(b, at, n)) + Le32(FromLe32(b[mid..mid + 4])) + Le32(FromLe32(b[mid + 4..mid + 8]))
  {
    hide Le32, FromLe32;
    var es := EntriesAt(b, at, n + 1);
    assert es[..n] == EntriesAt(b, at, n);
  }

  lemma {:induction false} AcceptedReencodes(b: seq<Byte>, at: nat, i: nat, n: nat)
    requires at <= |b| && i <= n && ReadFrom(b, at, i, n).Ok?
    ensures var es := ReadFrom(b, at, i, n).value;
            |es| == n - i && AllStorable(es) && EncodeAll(es) == b[at..]
    decreases n - i
  {
    hide EncodeEntries, EntriesAt, Le32, FromLe32;
    if i < n {
      var count: nat := CountAt(b, at);
      var next := at + 5 + 8 * count;
      AcceptedReencodes(b, next, i + 1, n);
      var es := ReadFrom(b, at, i, n).value;
      var e, rest := es[0], ReadFrom(b, next, i + 1, n).value;
      assert es == [e] + rest && es[1..] == rest;
      EntriesEncode(b, at + 5, count);
      FromLe32RoundTrip(b[at..at + 4]);
      assert b[at..] == b[at..at + 4] + [b[at + 4]] + b[at + 5..next] + b[next..];
    } else {
      assert b[at..] == [];
    }
  }

  /** Whatever is accepted for `n` documents is exactly what writing those documents produces. */
  lemma AcceptedIffWritten(b: seq<Byte>, n: nat, es: seq<Expansion>)
    ensures Read(b, n) == Ok(es) <==> |es| == n && AllStorable(es) && EncodeAll(es) == b
  {
    hide ReadFrom, EncodeAll, Storable;
    if Read(b, n) == Ok(es) {
      AcceptedReencodes(b, 0, 0, n);
      assert b[0..] == b;
    }
    if |es| == n && AllStorable(es) && EncodeAll(es) == b {
      ReadsWhatWasWritten(es);
    }
  }

  /** Five zero bytes after the last record read as one more document: the reason progress is recorded. */
  lemma ZerosReadAsADocument(es: seq<Expansion>)
    requires AllStorable(es)
    ensures Read(EncodeAll(es) + [0, 0, 0, 0, 0], |es| + 1) == Ok(es + [Expansion([], false)])
  {
    hide *;
    var zero := Expansion([], false);
    ZeroRecord();
    EncodeAllConcat(es, [zero]);
    ReadsWhatWasWritten(es + [zero]);
  }

  lemma ZeroRecord()
    ensures AllStorable([Expansion([], false)]) && EncodeAll([Expansion([], false)]) == [0, 0, 0, 0, 0]
  {
    EncodeAllOne(Expansion([], false));
  }

  // ---------------------------------------------------------------- the layout, byte by byte

  /** The four bytes at `at` are the number, least significant first. */
  predicate WordIs(b: seq<Byte>, at: nat, n: int) {
    at + 4 <= |b| &&
    n == b[at] as int + 256 * (b[at + 1] as int) + 65536 * (b[at + 2] as int) + 16777216 * (b[at + 3] as int)
  }

  /** A document's record begins at `at`: the count, the flag, then eight bytes for each entry. */
  predicate RecordIs(b: seq<Byte>, at: nat, e: Expansion) {
    && at + 5 + 8 * |e.entries| <= |b|
    && WordIs(b, at, |e.entries|)
    && b[at + 4] == (if e.truncated then 1 else 0)
    && forall i | 0 <= i < |e.entries| ::
         WordIs(b, at + 5 + 8 * i, e.entries[i].id) && WordIs(b, at + 9 + 8 * i, e.entries[i].weight)
  }

  /** Where the record of document `i` begins. */
  function Offset(es: seq<Expansion>, i: nat): nat
    requires i <= |es|
  {
    if i == 0 then 0 else Offset(es, i - 1) + 5 + 8 * |es[i - 1].entries|
  }

  lemma FromLe32Is(b: seq<Byte>, at: nat, n: U32)
    requires at + 4 <= |b| && b[at..at + 4] == Le32(n)
    ensures WordIs(b, at, n)
  {
    hide Le32;
    Le32RoundTrip(n);
    var w := b[at..at + 4];
    assert w[0] == b[at] && w[1] == b[at + 1] && w[2] == b[at + 2] && w[3] == b[at + 3];
  }

  /** The entries' pairs of words, eight bytes each. */
  predicate EntryWords(b: seq<Byte>, at: nat, entries: seq<Entry>) {
    forall i | 0 <= i < |entries| ::
      WordIs(b, at + 8 * i, entries[i].id) && WordIs(b, at + 4 + 8 * i, entries[i].weight)
  }

  lemma EntriesUnfold(entries: seq<Entry>)
    requires entries != []
    ensures var n := |entries| - 1;
            EncodeEntries(entries) == EncodeEntries(entries[..n]) + Le32(entries[n].id) + Le32(entries[n].weight)
  {
    hide Le32;
  }

  /** The bytes of a run of entries: those of all but the last, and the last one's two words. */
  lemma EntriesSplit(b: seq<Byte>, at: nat, entries: seq<Entry>, mid: nat)
    requires entries != [] && mid == at + 8 * (|entries| - 1) && mid + 8 <= |b|
    requires b[at..mid + 8] == EncodeEntries(entries)
    ensures var n := |entries| - 1;
            b[at..mid] == EncodeEntries(entries[..n]) && b[mid..mid + 4] == Le32(entries[n].id) &&
            b[mid + 4..mid + 8] == Le32(entries[n].weight)
  {
    hide Le32, EncodeEntries;
    var n := |entries| - 1;
    EntriesUnfold(entries);
    CutEntries(b[at..mid + 8], EncodeEntries(entries[..n]), Le32(entries[n].id), Le32(entries[n].weight));
    CutParts(b, at, mid);
  }

  lemma CutParts(b: seq<Byte>, at: nat, mid: nat)
    requires at <= mid && mid + 8 <= |b|
    ensures var all, m := b[at..mid + 8], mid - at;
            all[..m] == b[at..mid] && all[m..m + 4] == b[mid..mid + 4] && all[m + 4..m + 8] == b[mid + 4..mid + 8]
  {
    SliceOfSlice(b, at, mid + 8, 0, mid - at);
    SliceOfSlice(b, at, mid + 8, mid - at, mid - at + 4);
    SliceOfSlice(b, at, mid + 8, mid - at + 4, mid - at + 8);
  }

  lemma EntryWordsSnoc(b: seq<Byte>, at: nat, entries: seq<Entry>, mid: nat)
    requires entries != [] && mid == at + 8 * (|entries| - 1) && EntryWords(b, at, entries[..|entries| - 1])
    requires WordIs(b, mid, entries[|entries| - 1].id) && WordIs(b, mid + 4, entries[|entries| - 1].weight)
    ensures EntryWords(b, at, entries)
  {
    hide WordIs;
    var init := entries[..|entries| - 1];
    forall i | 0 <= i < |entries|
      ensures WordIs(b, at + 8 * i, entries[i].id) && WordIs(b, at + 4 + 8 * i, entries[i].weight)
    {
      if i < |init| {
        assert init[i] == entries[i];
      }
    }
  }

  lemma {:induction false} EntriesAre(b: seq<Byte>, at: nat, entries: seq<Entry>)
    requires at + 8 * |entries| <= |b| && b[at..at + 8 * |entries|] == EncodeEntries(entries)
    ensures EntryWords(b, at, entries)
    decreases |entries|
  {
    hide Le32, WordIs, EncodeEntries, EntryWords;
    if entries == [] {
      NoWords(b, at);
    } else {
      var n := |entries| - 1;
      var mid := at + 8 * n;
      EntriesSplit(b, at, entries, mid);
      EntriesAre(b, at, entries[..n]);
      FromLe32Is(b, mid, entries[n].id);
      FromLe32Is(b, mid + 4, entries[n].weight);
      EntryWordsSnoc(b, at, entries, mid);
    }
  }

  lemma NoWords(b: seq<Byte>, at: nat)
    ensures EntryWords(b, at, [])
  {
  }

  lemma RecordLayout(b: seq<Byte>, at: nat, e: Expansion)
    requires Storable(e) && at + |EncodeOne(e)| <= |b| && b[at..at + |EncodeOne(e)|] == EncodeOne(e)
    ensures RecordIs(b, at, e)
  {
    hide Le32, WordIs, EncodeEntries;
    var r := EncodeOne(e);
    HeaderParts(e);
    assert b[at..at + 4] == b[at..at + |r|][..4] == Le32(|e.entries|);
    assert b[at + 4] == b[at..at + |r|][4] == r[4];
    FromLe32Is(b, at, |e.entries|);
    assert b[at + 5..at + |r|] == b[at..at + |r|][5..] == EncodeEntries(e.entries);
    EntriesAre(b, at + 5, e.entries);
    forall i | 0 <= i < |e.entries| ensures WordIs(b, at + 9 + 8 * i, e.entries[i].weight) {
      assert WordIs(b, at + 5 + 4 + 8 * i, e.entries[i].weight);
    }
  }

  lemma {:induction false} EncodedUpTo(es: seq<Expansion>, i: nat)
    requires AllStorable(es) && i <= |es|
    ensures |EncodeAll(es[..i])| == Offset(es, i)
    ensures Offset(es, i) <= |EncodeAll(es)| && EncodeAll(es)[Offset(es, i)..] == EncodeAll(es[i..])
    decreases i
  {
    hide EncodeOne, Storable;
    if i == 0 {
      assert es[..0] == [] && es[0..] == es;
    } else {
      EncodedUpTo(es, i - 1);
      assert es[..i] == es[..i - 1] + [es[i - 1]] && es[i - 1..] == [es[i - 1]] + es[i..];
      EncodeAllConcat(es[..i - 1], [es[i - 1]]);
      EncodeAllConcat([es[i - 1]], es[i..]);
      EncodeAllOne(es[i - 1]);
      DropMore(EncodeAll(es), Offset(es, i - 1), EncodeOne(es[i - 1]), EncodeAll(es[i..]));
    }
  }

  lemma DropMore(b: seq<Byte>, at: nat, x: seq<Byte>, y: seq<Byte>)
    requires at <= |b| && b[at..] == x + y
    ensures at + |x| <= |b| && b[at..at + |x|] == x && b[at + |x|..] == y
  {
    assert |b[at..]| == |b| - at == |x| + |y|;
    assert b[at..at + |x|] == b[at..][..|x|] == x;
    assert b[at + |x|..] == b[at..][|x|..] == y;
  }

  /** The file is the documents' records one behind another, each laid out as stated. */
  lemma FileLayout(es: seq<Expansion>)
    requires AllStorable(es)
    ensures |EncodeAll(es)| == Offset(es, |es|)
    ensures forall i | 0 <= i < |es| :: RecordIs(EncodeAll(es), Offset(es, i), es[i])
  {
    hide EncodeOne, Storable, RecordIs, Offset;
    EncodedUpTo(es, |es|);
    assert es[..|es|] == es;
    forall i | 0 <= i < |es| ensures RecordIs(EncodeAll(es), Offset(es, i), es[i]) {
      EncodedUpTo(es, i);
      assert es[i..] == [es[i]] + es[i + 1..];
      EncodeAllConcat([es[i]], es[i + 1..]);
      EncodeAllOne(es[i]);
      DropMore(EncodeAll(es), Offset(es, i), EncodeOne(es[i]), EncodeAll(es[i + 1..]));
      RecordLayout(EncodeAll(es), Offset(es, i), es[i]);
    }
  }

  lemma PartialRecord(b: seq<Byte>, at: nat, i: nat, e: Expansion, n: nat)
    requires Storable(e) && i < n && at <= |b| < at + |EncodeOne(e)|
    requires b[at..] == EncodeOne(e)[..|b| - at]
    ensures ReadFrom(b, at, i, n) == Err(EndsInside(i))
  {
    hide EncodeOne, EntriesAt, CountAt;
    if at + 5 <= |b| {
      assert b[at..at + 5] == b[at..][..5] == EncodeOne(e)[..5];
      HeaderAt(b, at, e);
    }
  }

  lemma CutBehind(all: seq<Byte>, at: nat, k: nat, x: seq<Byte>, y: seq<Byte>)
    requires at <= k <= |all| && k <= at + |x| && all[at..] == x + y
    ensures all[..k][at..] == x[..k - at]
  {
    assert all[..k][at..] == all[at..][..k - at];
  }

  /** A file cut anywhere is refused as ending inside the document whose record is cut, or is the first missing. */
  lemma PrefixEndsAt(es: seq<Expansion>, k: nat, d: nat)
    requires AllStorable(es) && d < |es| && Offset(es, d) <= k < Offset(es, d + 1)
    ensures k <= |EncodeAll(es)| && Read(EncodeAll(es)[..k], |es|) == Err(EndsInside(d))
  {
    hide EncodeAll, Storable, ReadFrom, EncodeOne;
    EncodedUpTo(es, d);
    EncodedUpTo(es, d + 1);
    var b, at := EncodeAll(es)[..k], Offset(es, d);
    assert es[d..] == [es[d]] + es[d + 1..];
    EncodeAllConcat([es[d]], es[d + 1..]);
    EncodeAllOne(es[d]);
    CutBehind(EncodeAll(es), at, k, EncodeOne(es[d]), EncodeAll(es[d + 1..]));
    HeadOfFile(es, d, k);
    ReadAcross(b, 0, 0, es[..d], |es|);
    PartialRecord(b, at, d, es[d], |es|);
  }

  lemma HeadOfFile(es: seq<Expansion>, d: nat, k: nat)
    requires AllStorable(es) && d <= |es| && Offset(es, d) <= k <= |EncodeAll(es)|
    ensures |EncodeAll(es[..d])| == Offset(es, d)
    ensures EncodeAll(es)[..k][0..0 + Offset(es, d)] == EncodeAll(es[..d])
  {
    hide EncodeAll, Storable;
    EncodedUpTo(es, d);
    assert es == es[..d] + es[d..];
    EncodeAllConcat(es[..d], es[d..]);
    assert EncodeAll(es)[..k][0..0 + Offset(es, d)] == EncodeAll(es)[..Offset(es, d)];
  }

  lemma FlagAt(b: seq<Byte>, at: nat, i: nat, n: nat)
    requires at + 5 <= |b| && b[at + 4] > 1 && i < n
    ensures ReadFrom(b, at, i, n) == Err(BadFlag(i, b[at + 4]))
  {
    hide CountAt, EntriesAt;
  }

  lemma Behind(head: seq<Byte>, count: seq<Byte>, flag: Byte, after: seq<Byte>)
    requires |count| == 4
    ensures var b := head + (count + [flag] + after);
            |b| >= |head| + 5 && b[0..0 + |head|] == head && b[|head| + 4] == flag
  {
    var tail := count + [flag] + after;
    assert tail[4] == flag;
    assert (head + tail)[|head| + 4] == tail[4];
  }

  /** A truncation flag other than 0 and 1 is refused where it stands, whatever count is before it and follows it. */
  lemma FlagRefused(es: seq<Expansion>, count: seq<Byte>, flag: Byte, after: seq<Byte>, n: nat)
    requires AllStorable(es) && |count| == 4 && flag > 1 && n > |es|
    ensures Read(EncodeAll(es) + (count + [flag] + after), n) == Err(BadFlag(|es|, flag))
  {
    hide EncodeAll, Storable, ReadFrom;
    var b, at := EncodeAll(es) + (count + [flag] + after), |EncodeAll(es)|;
    Behind(EncodeAll(es), count, flag, after);
    ReadAcross(b, 0, 0, es, n);
    FlagAt(b, at, |es|, n);
  }
}
