/**
  UTF-8 (RFC 3629, section 3) over sequences of Unicode scalars.

  A Dafny `char` is a Unicode scalar value, so `string` is the code-point view of a body and
  `Encode` gives the bytes of the same body.  `ByteAt(s, k)` is the byte offset of character `k`.
  */
module Utf8 {
  type Byte = b: int | 0 <= b < 256

  function Width(c: char): (w: nat)
    ensures 1 <= w <= 4
  {
    var n := c as int;
    if n < 0x80 then 1 else if n < 0x800 then 2 else if n < 0x1_0000 then 3 else 4
  }

  function EncodeChar(c: char): (b: seq<Byte>)
    ensures |b| == Width(c)
  {
    var n := c as int;
    if n < 0x80 then [n]
    else if n < 0x800 then [0xC0 + n / 64, 0x80 + n % 64]
    else if n < 0x1_0000 then [0xE0 + n / 4096, 0x80 + n / 64 % 64, 0x80 + n % 64]
    else [0xF0 + n / 262144, 0x80 + n / 4096 % 64, 0x80 + n / 64 % 64, 0x80 + n % 64]
  }

  /** The offset, in bytes, of character `k` of `s`. */
  function ByteAt(s: string, k: nat): (r: nat)
    requires k <= |s|
    ensures k <= r <= 4 * k
  {
    if k == 0 then 0 else ByteAt(s, k - 1) + Width(s[k - 1])
  }

  /** The bytes of the first `k` characters of `s`. */
  function EncodeTo(s: string, k: nat): (b: seq<Byte>)
    requires k <= |s|
    ensures |b| == ByteAt(s, k)
  {
    if k == 0 then [] else EncodeTo(s, k - 1) + EncodeChar(s[k - 1])
  }

  function Encode(s: string): (b: seq<Byte>)
    ensures |b| == ByteAt(s, |s|)
  {
    EncodeTo(s, |s|)
  }

  ghost predicate ValidUtf8(b: seq<Byte>) {
    exists s: string :: Encode(s) == b
  }

  /** The characters of a valid UTF-8 byte string. */
  ghost function Text(b: seq<Byte>): (s: string)
    requires ValidUtf8(b)
    ensures Encode(s) == b
  {
    var s: string :| Encode(s) == b;
    s
  }

  // ---------------------------------------------------------------- offsets

  lemma {:induction false} ByteAtMonotone(s: string, i: nat, j: nat)
    requires i <= j <= |s|
    ensures ByteAt(s, i) + (j - i) <= ByteAt(s, j) <= ByteAt(s, i) + 4 * (j - i)
    decreases j
  {
    if i < j {
      ByteAtMonotone(s, i, j - 1);
    }
  }

  lemma ByteAtZero(s: string)
    ensures ByteAt(s, 0) == 0
  {
  }

  lemma ByteAtStep(s: string, k: nat)
    requires k < |s|
    ensures ByteAt(s, k + 1) == ByteAt(s, k) + Width(s[k])
  {
  }

  lemma ByteAtOrder(s: string, i: nat, j: nat)
    requires i <= |s| && j <= |s|
    ensures i < j <==> ByteAt(s, i) < ByteAt(s, j)
    ensures i == j <==> ByteAt(s, i) == ByteAt(s, j)
  {
    if i <= j {
      ByteAtMonotone(s, i, j);
    } else {
      ByteAtMonotone(s, j, i);
    }
  }

  lemma {:induction false} ByteAtLocal(s: string, t: string, k: nat)
    requires k <= |s| && k <= |t| && s[..k] == t[..k]
    ensures ByteAt(s, k) == ByteAt(t, k)
    ensures EncodeTo(s, k) == EncodeTo(t, k)
    decreases k
  {
    if k > 0 {
      assert s[..k - 1] == s[..k][..k - 1] == t[..k][..k - 1] == t[..k - 1];
      assert s[k - 1] == s[..k][k - 1] == t[..k][k - 1] == t[k - 1];
      ByteAtLocal(s, t, k - 1);
    }
  }

  lemma {:induction false} EncodePrefix(s: string, k: nat, m: nat)
    requires k <= m <= |s|
    ensures ByteAt(s, k) <= ByteAt(s, m)
    ensures EncodeTo(s, m)[..ByteAt(s, k)] == EncodeTo(s, k)
    decreases m
  {
    hide EncodeTo, ByteAt;
    ByteAtMonotone(s, k, m);
    if k < m {
      EncodePrefix(s, k, m - 1);
      EncodeStep(s, m - 1);
      TakeConcat(EncodeTo(s, m - 1), EncodeChar(s[m - 1]), ByteAt(s, k));
    }
  }

  lemma EncodeStep(s: string, k: nat)
    requires k < |s|
    ensures EncodeTo(s, k + 1) == EncodeTo(s, k) + EncodeChar(s[k])
  {
  }

  lemma NoBytes(s: string)
    ensures EncodeTo(s, 0) == []
  {
  }

  lemma TakeConcat(a: seq<Byte>, b: seq<Byte>, n: nat)
    requires n <= |a|
    ensures (a + b)[..n] == a[..n]
  {
  }

  lemma DropConcat(a: seq<Byte>, b: seq<Byte>, n: nat)
    requires n <= |a|
    ensures (a + b)[n..] == a[n..] + b
  {
  }

  lemma {:induction false} EncodeToSlice(s: string, i: nat, j: nat)
    requires i <= j <= |s|
    ensures ByteAt(s, i) <= ByteAt(s, j)
    ensures EncodeTo(s, j)[ByteAt(s, i)..] == EncodeTo(s[i..], j - i)
    decreases j
  {
    hide EncodeTo, ByteAt;
    ByteAtMonotone(s, i, j);
    if i < j {
      EncodeToSlice(s, i, j - 1);
      ByteAtMonotone(s, i, j - 1);
      EncodeStep(s, j - 1);
      EncodeStep(s[i..], j - 1 - i);
      DropConcat(EncodeTo(s, j - 1), EncodeChar(s[j - 1]), ByteAt(s, i));
    } else {
      NoBytes(s[i..]);
    }
  }

  /** Slicing the bytes at two character offsets is encoding the slice of the characters. */
  lemma EncodeSlice(s: string, i: nat, j: nat)
    requires i <= j <= |s|
    ensures ByteAt(s, i) <= ByteAt(s, j) <= |Encode(s)|
    ensures Encode(s)[ByteAt(s, i)..ByteAt(s, j)] == Encode(s[i..j])
    ensures ByteAt(s[i..j], j - i) == ByteAt(s, j) - ByteAt(s, i)
  {
    hide ByteAt, EncodeTo;
    EncodePrefix(s, j, |s|);
    EncodeToSlice(s, i, j);
    assert s[i..][..j - i] == s[i..j] == s[i..j][..j - i];
    ByteAtLocal(s[i..], s[i..j], j - i);
    assert Encode(s)[ByteAt(s, i)..ByteAt(s, j)] == EncodeTo(s, j)[ByteAt(s, i)..];
  }

  /** The offset of a character in a slice. */
  lemma OffsetInSlice(s: string, a: nat, b: nat, m: nat)
    requires a <= m <= b <= |s|
    ensures ByteAt(s[a..b], m - a) == ByteAt(s, m) - ByteAt(s, a)
  {
    hide *;
    EncodeSlice(s, a, m);
    assert s[a..b][..m - a] == s[a..m][..m - a];
    ByteAtLocal(s[a..b], s[a..m], m - a);
  }

  lemma EncodeConcat(a: string, b: string)
    ensures Encode(a + b) == Encode(a) + Encode(b)
  {
    hide *;
    var s := a + b;
    EncodeSlice(s, 0, |a|);
    EncodeSlice(s, |a|, |s|);
    ByteAtZero(s);
    assert s[0..|a|] == a && s[|a|..|s|] == b;
    assert Encode(s) == Encode(s)[0..ByteAt(s, |a|)] + Encode(s)[ByteAt(s, |a|)..ByteAt(s, |s|)];
  }

  lemma EncodeSingle(c: char)
    ensures Encode([c]) == EncodeChar(c)
  {
    assert EncodeTo([c], 0) == [];
  }

  lemma CharBytes(s: string, k: nat)
    requires k < |s|
    ensures ByteAt(s, k) < ByteAt(s, k + 1) <= |Encode(s)|
    ensures Encode(s)[ByteAt(s, k)..ByteAt(s, k + 1)] == EncodeChar(s[k])
  {
    EncodeSlice(s, k, k + 1);
    assert s[k..k + 1] == [s[k]];
    EncodeSingle(s[k]);
  }

  // ---------------------------------------------------------------- reading characters back

  predicate IsContinuation(b: Byte) {
    0x80 <= b < 0xC0
  }

  function LeadWidth(b: Byte): nat {
    if b < 0x80 then 1 else if b < 0xE0 then 2 else if b < 0xF0 then 3 else 4
  }

  /** The payload of a byte, its marker removed. */
  function Bits(b: int, marker: int): int {
    b - marker
  }

  /** The scalar whose encoding starts at byte `i`, as the leading byte announces it. */
  function ScalarAt(b: seq<Byte>, i: nat): int
    requires i < |b| && i + LeadWidth(b[i]) <= |b|
  {
    match LeadWidth(b[i])
    case 1 => b[i]
    case 2 => Bits(b[i], 0xC0) * 64 + Bits(b[i + 1], 0x80)
    case 3 => Bits(b[i], 0xE0) * 4096 + Bits(b[i + 1], 0x80) * 64 + Bits(b[i + 2], 0x80)
    case _ => Bits(b[i], 0xF0) * 262144 + Bits(b[i + 1], 0x80) * 4096 + Bits(b[i + 2], 0x80) * 64 + Bits(b[i + 3], 0x80)
  }

  predicate IsScalar(n: int) {
    0 <= n < 0xD800 || 0xE000 <= n < 0x11_0000
  }

  predicate CharStartsAt(b: seq<Byte>, i: nat) {
    i < |b| && i + LeadWidth(b[i]) <= |b| && IsScalar(ScalarAt(b, i))
  }

  function CharAt(b: seq<Byte>, i: nat): char
    requires CharStartsAt(b, i)
  {
    ScalarAt(b, i) as char
  }

  lemma SixBitDigits(n: nat)
    ensures n == n / 64 * 64 + n % 64
    ensures n == n / 4096 * 4096 + n / 64 % 64 * 64 + n % 64
    ensures n == n / 262144 * 262144 + n / 4096 % 64 * 4096 + n / 64 % 64 * 64 + n % 64
  {
    assert n / 4096 == n / 64 / 64;
    assert n / 262144 == n / 4096 / 64;
  }

  lemma EncodeCharDecodes(c: char)
    ensures var b := EncodeChar(c);
            LeadWidth(b[0]) == Width(c) && !IsContinuation(b[0]) && ScalarAt(b, 0) == c as int
    ensures forall i | 1 <= i < Width(c) :: IsContinuation(EncodeChar(c)[i])
    ensures IsScalar(c as int)
  {
    SixBitDigits(c as int);
  }

  /** The four shapes of RFC 3629, section 3: markers, payload bits most significant first, shortest form. */
  lemma EncodeCharIsRfc3629(c: char)
    ensures var n, b := c as int, EncodeChar(c);
            if n <= 0x7F then b == [n]
            else if n <= 0x7FF then
              |b| == 2 && 0xC2 <= b[0] <= 0xDF && 0x80 <= b[1] <= 0xBF && n == Bits(b[0], 0xC0) * 64 + Bits(b[1], 0x80)
            else if n <= 0xFFFF then
              |b| == 3 && 0xE0 <= b[0] <= 0xEF && 0x80 <= b[1] <= 0xBF && 0x80 <= b[2] <= 0xBF &&
              n == (Bits(b[0], 0xE0) * 64 + Bits(b[1], 0x80)) * 64 + Bits(b[2], 0x80)
            else
              |b| == 4 && 0xF0 <= b[0] <= 0xF4 && 0x80 <= b[1] <= 0xBF && 0x80 <= b[2] <= 0xBF &&
                0x80 <= b[3] <= 0xBF &&
              n == ((Bits(b[0], 0xF0) * 64 + Bits(b[1], 0x80)) * 64 + Bits(b[2], 0x80)) * 64 + Bits(b[3], 0x80)
  {
    SixBitDigits(c as int);
  }

  /** A character of the text is what its bytes decode to, and only its first byte is a boundary. */
  lemma CharAtOffset(s: string, k: nat)
    requires k < |s|
    ensures var b := Encode(s); var i := ByteAt(s, k);
            CharStartsAt(b, i) && CharAt(b, i) == s[k] && LeadWidth(b[i]) == Width(s[k]) &&
            i + Width(s[k]) == ByteAt(s, k + 1) <= |b| && !IsContinuation(b[i]) &&
            forall j | i < j < ByteAt(s, k + 1) :: IsContinuation(b[j])
  {
    CharBytes(s, k);
    EncodeCharDecodes(s[k]);
    var b, i, e := Encode(s), ByteAt(s, k), EncodeChar(s[k]);
    assert forall j | 0 <= j < |e| :: b[i + j] == e[j];
    forall j | i < j < ByteAt(s, k + 1) ensures IsContinuation(b[j]) {
      assert b[i + (j - i)] == e[j - i];
    }
  }

  /** A one-byte character is found in the bytes exactly where it is in the text. */
  lemma AsciiAt(s: string, k: nat, c: char)
    requires k < |s|
    ensures ByteAt(s, k) < |Encode(s)|
    ensures c as int < 0x80 ==> (Encode(s)[ByteAt(s, k)] == c as int <==> s[k] == c)
  {
    CharAtOffset(s, k);
    CharBytes(s, k);
    assert Encode(s)[ByteAt(s, k)] == EncodeChar(s[k])[0];
  }

  /** `str::is_char_boundary`. */
  predicate IsBoundary(b: seq<Byte>, i: nat) {
    i == 0 || i == |b| || (i < |b| && !IsContinuation(b[i]))
  }

  lemma {:induction false} Locate(s: string, i: nat, m: nat) returns (k: nat)
    requires m <= |s| && i < ByteAt(s, m)
    ensures k < m && ByteAt(s, k) <= i < ByteAt(s, k + 1)
    decreases m
  {
    if ByteAt(s, m - 1) <= i {
      k := m - 1;
    } else {
      k := Locate(s, i, m - 1);
    }
  }

  /** The character boundaries of the bytes are the offsets of the characters. */
  lemma BoundaryIffOffset(s: string, i: nat)
    requires i <= |Encode(s)|
    ensures IsBoundary(Encode(s), i) <==> exists k :: 0 <= k <= |s| && ByteAt(s, k) == i
  {
    if i == |Encode(s)| {
      assert ByteAt(s, |s|) == i;
    } else {
      var k := Locate(s, i, |s|);
      CharAtOffset(s, k);
      if exists m :: 0 <= m <= |s| && ByteAt(s, m) == i {
        var m :| 0 <= m <= |s| && ByteAt(s, m) == i;
        ByteAtOrder(s, m, k + 1);
        ByteAtOrder(s, k, m);
      }
      if i == 0 {
        assert ByteAt(s, 0) == 0;
      }
    }
  }

  /** Decoding is a left inverse of encoding, so a byte string has at most one text. */
  lemma {:induction false} EncodeInjective(s: string, t: string)
    requires Encode(s) == Encode(t)
    ensures s == t
    decreases |s|
  {
    if s == "" || t == "" {
      assert |s| <= ByteAt(s, |s|) && |t| <= ByteAt(t, |t|);
    } else {
      CharAtOffset(s, 0);
      CharAtOffset(t, 0);
      assert s[0] == t[0];
      assert s == [s[0]] + s[1..] && t == [t[0]] + t[1..];
      EncodeConcat([s[0]], s[1..]);
      EncodeConcat([t[0]], t[1..]);
      EncodeSingle(s[0]);
      var w := Width(s[0]);
      assert Encode(s)[w..] == Encode(s[1..]) && Encode(t)[w..] == Encode(t[1..]);
      EncodeInjective(s[1..], t[1..]);
    }
  }
}
