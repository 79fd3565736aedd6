/**
  The text a sparse index stores for an expansion: each entry's term `s<id>` repeated
  `round(weight * scale)` times.  Weights are reals; a 24-bit weight times a 10-bit scale is exact in
  the 53 bits the code multiplies in.
  */
module FieldText {
  import opened Common

  const MAX_SCALE := 1_000
  const MAX_WEIGHT := 4.5
  const VOCABULARY_SIZE := 30_522
  const MAX_OCCURRENCES := 4_500
  const MAX_ENTRIES := 30_517

  datatype Weight = Finite(value: real) | NotFinite

  datatype Entry = Entry(id: nat, weight: Weight)

  datatype Error = BadScale | BadToken(entry: nat) | BadWeight(entry: nat) | NotAscending(entry: nat)

  predicate Special(id: nat) {
    id == 0 || 100 <= id <= 103
  }

  predicate GoodToken(e: Entry) {
    e.id < VOCABULARY_SIZE && !Special(e.id)
  }

  predicate GoodWeight(e: Entry) {
    e.weight.Finite? && 0.0 < e.weight.value <= MAX_WEIGHT
  }

  predicate Good(e: Entry) {
    GoodToken(e) && GoodWeight(e)
  }

  predicate Ascending(es: seq<Entry>, i: nat)
    requires 0 < i < |es|
  {
    es[i - 1].id < es[i].id
  }

  predicate Valid(es: seq<Entry>) {
    (forall i | 0 <= i < |es| :: Good(es[i])) && (forall i | 0 < i < |es| :: Ascending(es, i))
  }

  predicate ValidScale(scale: nat) {
    1 <= scale <= MAX_SCALE
  }

  /** The error names the first offending entry; the entries themselves are looked at before their order. */
  ghost predicate Offends(es: seq<Entry>, error: Error) {
    match error
    case BadScale => false
    case BadToken(i) => i < |es| && !GoodToken(es[i]) && forall k | 0 <= k < i :: Good(es[k])
    case BadWeight(i) => i < |es| && GoodToken(es[i]) && !GoodWeight(es[i]) && forall k | 0 <= k < i :: Good(es[k])
    case NotAscending(i) =>
      0 < i < |es| && !Ascending(es, i) && (forall k | 0 <= k < |es| :: Good(es[k])) &&
      forall k | 0 < k < i :: Ascending(es, k)
  }

  method Validate(es: seq<Entry>) returns (r: Result<(), Error>)
    ensures r.Ok? <==> Valid(es)
    ensures r.Err? ==> Offends(es, r.error)
  {
    for i := 0 to |es|
      invariant forall k | 0 <= k < i :: Good(es[k])
    {
      if es[i].id >= VOCABULARY_SIZE || Special(es[i].id) {
        assert !Good(es[i]);
        return Err(BadToken(i));
      }
      if es[i].weight.NotFinite? || es[i].weight.value <= 0.0 || es[i].weight.value > MAX_WEIGHT {
        assert !Good(es[i]);
        return Err(BadWeight(i));
      }
    }
    var i := 1;
    while i < |es|
      invariant 0 < i && forall k | 0 < k < i && k < |es| :: Ascending(es, k)
    {
      if es[i - 1].id >= es[i].id {
        assert !Ascending(es, i);
        return Err(NotAscending(i));
      }
      i := i + 1;
    }
    return Ok(());
  }

  // ---------------------------------------------------------------- terms

  function Digit(d: nat): char
    requires d < 10
  {
    ('0' as int + d) as char
  }

  function Decimal(n: nat): (s: string)
    ensures |s| > 0
  {
    if n < 10 then [Digit(n)] else Decimal(n / 10) + [Digit(n % 10)]
  }

  function Term(id: nat): (s: string)
    ensures |s| > 0
  {
    "s" + Decimal(id)
  }

  lemma {:induction false} DecimalIsDigits(n: nat)
    ensures forall i | 0 <= i < |Decimal(n)| :: '0' <= Decimal(n)[i] <= '9'
  {
    if n >= 10 {
      DecimalIsDigits(n / 10);
    }
  }

  lemma {:induction false} DecimalInjective(m: nat, n: nat)
    requires Decimal(m) == Decimal(n)
    ensures m == n
  {
    if m < 10 || n < 10 {
      assert |Decimal(m)| == 1 <==> m < 10;
      assert |Decimal(n)| == 1 <==> n < 10;
      assert Decimal(m)[0] == Decimal(n)[0];
    } else {
      var a, b := Decimal(m), Decimal(n);
      assert a[..|a| - 1] == Decimal(m / 10) && b[..|b| - 1] == Decimal(n / 10);
      assert a[|a| - 1] == b[|b| - 1];
      DecimalInjective(m / 10, n / 10);
    }
  }

  lemma {:induction false} DecimalLength(n: nat, digits: nat)
    requires digits > 0 && n < Power10(digits)
    ensures |Decimal(n)| <= digits
    decreases digits
  {
    if n >= 10 {
      var rest := Power10(digits - 1);
      assert n < 10 * rest;
      assert n / 10 < rest;
      assert digits > 1;
      DecimalLength(n / 10, digits - 1);
    }
  }

  function Power10(k: nat): nat {
    if k == 0 then 1 else 10 * Power10(k - 1)
  }

  lemma TermShape(id: nat)
    ensures ' ' !in Term(id)
    ensures id < VOCABULARY_SIZE ==> |Term(id)| <= 6
  {
    DecimalIsDigits(id);
    if id < VOCABULARY_SIZE {
      assert Power10(5) == 100_000 by {
        assert Power10(3) == 1_000;
      }
      DecimalLength(id, 5);
    }
  }

  lemma TermInjective(a: nat, b: nat)
    requires Term(a) == Term(b)
    ensures a == b
  {
    assert Term(a)[1..] == Decimal(a) && Term(b)[1..] == Decimal(b);
    DecimalInjective(a, b);
  }

  // ---------------------------------------------------------------- occurrences

  /** Rounding to the nearest, halves away from zero, of a number that is not negative. */
  function Round(x: real): nat
    requires x >= 0.0
  {
    (x + 0.5).Floor
  }

  lemma Product(w: real, scale: nat)
    requires 0.0 < w <= MAX_WEIGHT && ValidScale(scale)
    ensures 0.0 < w * scale as real <= 4500.0
  {
    var s := scale as real;
    assert w * s <= 4.5 * s <= 4500.0;
    assert w * s > 0.0;
  }

  /** The whole number nearest the scaled weight, the upper one at a half. */
  function Occurrences(e: Entry, scale: nat): (n: nat)
    requires GoodWeight(e) && ValidScale(scale)
    ensures n as real - 0.5 <= e.weight.value * scale as real < n as real + 0.5
    ensures n <= MAX_OCCURRENCES
  {
    Product(e.weight.value, scale);
    Round(e.weight.value * scale as real)
  }

  /** The terms of the text, in order. */
  function Tokens(es: seq<Entry>, scale: nat): seq<string>
    requires Valid(es) && ValidScale(scale)
  {
    if es == [] then []
    else
      ValidInit(es);
      var last := es[|es| - 1];
      Tokens(es[..|es| - 1], scale) + Repeat(Term(last.id), Occurrences(last, scale))
  }

  lemma ValidInit(es: seq<Entry>)
    requires Valid(es)
    ensures forall k | 0 <= k <= |es| :: Valid(es[..k])
    ensures es != [] ==> Good(es[|es| - 1])
  {
    forall k | 0 <= k <= |es| ensures Valid(es[..k]) {
      forall i | 0 < i < k ensures Ascending(es[..k], i) {
        assert Ascending(es, i);
      }
    }
  }

  // ---------------------------------------------------------------- joining and splitting

  function Join(ts: seq<string>): string {
    if ts == [] then ""
    else if |ts| == 1 then ts[0]
    else Join(ts[..|ts| - 1]) + (" " + ts[|ts| - 1])
  }

  /** Splitting at every space: `k` spaces make `k + 1` pieces, some perhaps empty. */
  function Pieces(t: string): (r: seq<string>)
    ensures |r| > 0
  {
    if t == "" then [""]
    else
      var r, c := Pieces(t[..|t| - 1]), t[|t| - 1];
      if c == ' ' then r + [""] else r[|r| - 1 := r[|r| - 1] + [c]]
  }

  predicate Word(t: string) {
    t != "" && ' ' !in t
  }

  lemma {:induction false} PiecesAppend(t: string, u: string)
    requires ' ' !in u
    ensures var r := Pieces(t); Pieces(t + u) == r[|r| - 1 := r[|r| - 1] + u]
    decreases |u|
  {
    var r := Pieces(t);
    if u == "" {
      assert t + u == t && r[|r| - 1] + u == r[|r| - 1];
    } else {
      var v, c := u[..|u| - 1], u[|u| - 1];
      PiecesAppend(t, v);
      assert (t + u)[..|t + u| - 1] == t + v;
      assert r[|r| - 1] + u == r[|r| - 1] + v + [c];
    }
  }

  lemma PiecesOfSpace(t: string)
    ensures Pieces(t + " ") == Pieces(t) + [""]
  {
    assert (t + " ")[..|t|] == t;
  }

  /** Splitting the joined words at every space gives the words back. */
  lemma {:induction false} SplitJoin(ts: seq<string>)
    requires ts != [] && forall i | 0 <= i < |ts| :: Word(ts[i])
    ensures Pieces(Join(ts)) == ts && Join(ts) != ""
    decreases |ts|
  {
    hide Pieces;
    var last := ts[|ts| - 1];
    assert Word(last);
    if |ts| == 1 {
      PiecesOfWord(last);
      assert ts == [last];
    } else {
      var init := ts[..|ts| - 1];
      SplitJoin(init);
      PiecesAfterSpace(Join(init), last);
      assert ts == init + [last];
    }
  }

  lemma PiecesOfWord(u: string)
    requires ' ' !in u
    ensures Pieces(u) == [u]
  {
    PiecesAppend("", u);
    assert Pieces("") == [""];
    assert "" + u == u;
  }

  lemma PiecesAfterSpace(t: string, u: string)
    requires ' ' !in u
    ensures Pieces(t + (" " + u)) == Pieces(t) + [u]
  {
    hide Pieces;
    PiecesOfSpace(t);
    PiecesAppend(t + " ", u);
    assert t + " " + u == t + (" " + u);
    assert "" + u == u;
  }

  // ---------------------------------------------------------------- the text

  method Print(es: seq<Entry>, scale: nat) returns (r: Result<string, Error>)
    ensures r.Ok? <==> ValidScale(scale) && Valid(es)
    ensures r.Ok? ==> r.value == Join(Tokens(es, scale))
    ensures !ValidScale(scale) ==> r == Err(BadScale)
    ensures r.Err? && ValidScale(scale) ==> Offends(es, r.error)
  {
    hide Tokens, Join, Offends, Occurrences, Valid;
    if scale < 1 || scale > MAX_SCALE {
      return Err(BadScale);
    }
    var valid := Validate(es);
    if valid.Err? {
      return Err(valid.error);
    }
    ValidInit(es);
    var out := "";
    assert es[..0] == [];
    NoTokens(scale);
    for k := 0 to |es|
      invariant Valid(es[..k]) && out == Join(Tokens(es[..k], scale))
    {
      ghost var before := Tokens(es[..k], scale);
      NextTokens(es, scale, k);
      assert Good(es[k]) by { ValidEach(es, k); }
      var n := Occurrences(es[k], scale);
      var term := Term(es[k].id);
      assert before + Repeat(term, 0) == before;
      for j := 0 to n
        invariant out == Join(before + Repeat(term, j))
      {
        assert before + Repeat(term, j + 1) == (before + Repeat(term, j)) + [term];
        TokensAreWords(es[..k], scale);
        AppendToken(before + Repeat(term, j), term);
        if out != "" {
          out := out + " ";
        }
        out := out + term;
      }
    }
    assert es[..|es|] == es;
    r := Ok(out);
  }

  lemma NoTokens(scale: nat)
    requires ValidScale(scale)
    ensures Tokens([], scale) == [] && Join([]) == ""
  {
  }

  lemma ValidEach(es: seq<Entry>, k: nat)
    requires Valid(es) && k < |es|
    ensures Good(es[k])
  {
  }

  lemma NextTokens(es: seq<Entry>, scale: nat, k: nat)
    requires Valid(es) && ValidScale(scale) && k < |es|
    ensures Valid(es[..k]) && Valid(es[..k + 1]) && Good(es[k])
    ensures Tokens(es[..k + 1], scale) == Tokens(es[..k], scale) + Repeat(Term(es[k].id), Occurrences(es[k], scale))
  {
    hide Occurrences, Term;
    ValidInit(es);
    assert es[..k + 1][..k] == es[..k];
  }

  lemma AppendToken(ts: seq<string>, t: string)
    requires forall i | 0 <= i < |ts| :: ts[i] != ""
    ensures Join(ts) == "" <==> ts == []
    ensures Join(ts + [t]) == if Join(ts) == "" then t else Join(ts) + (" " + t)
  {
    assert (ts + [t])[..|ts|] == ts;
  }

  lemma {:induction false} TokensAreWords(es: seq<Entry>, scale: nat)
    requires Valid(es) && ValidScale(scale)
    ensures forall i | 0 <= i < |Tokens(es, scale)| :: Word(Tokens(es, scale)[i]) && |Tokens(es, scale)[i]| <= 6
    decreases |es|
  {
    hide Occurrences, Term;
    if es != [] {
      ValidInit(es);
      TokensAreWords(es[..|es| - 1], scale);
      TermShape(es[|es| - 1].id);
    }
  }

  /** Splitting the text on spaces gives the terms, and nothing else; no terms make the empty text. */
  lemma TextSplitsIntoTokens(es: seq<Entry>, scale: nat)
    requires Valid(es) && ValidScale(scale)
    ensures var ts := Tokens(es, scale); if ts == [] then Join(ts) == "" else Pieces(Join(ts)) == ts && Join(ts) != ""
    ensures forall i | 0 <= i < |Tokens(es, scale)| :: Word(Tokens(es, scale)[i])
  {
    hide Tokens, Pieces, Word;
    TokensAreWords(es, scale);
    if Tokens(es, scale) != [] {
      SplitJoin(Tokens(es, scale));
    }
  }

  /** Each entry's term occurs exactly as often as its rounded, scaled weight says. */
  lemma {:induction false} OccursAsWeighted(es: seq<Entry>, scale: nat, k: nat)
    requires Valid(es) && ValidScale(scale) && k < |es|
    ensures Good(es[k]) && multiset(Tokens(es, scale))[Term(es[k].id)] == Occurrences(es[k], scale)
    decreases |es|
  {
    hide Occurrences, Term;
    ValidInit(es);
    var init, last := es[..|es| - 1], es[|es| - 1];
    RepeatCount(Term(last.id), Occurrences(last, scale));
    if k == |es| - 1 {
      AscendingOrder(es);
      OnlyTheIds(init, scale, last.id);
    } else {
      OccursAsWeighted(init, scale, k);
      AscendingOrder(es);
      if Term(last.id) == Term(es[k].id) {
        TermInjective(last.id, es[k].id);
      }
    }
  }

  lemma {:induction false} RepeatCount(t: string, n: nat)
    ensures multiset(Repeat(t, n)) == multiset{}[t := n]
    decreases n
  {
    if n > 0 {
      RepeatCount(t, n - 1);
      assert Repeat(t, n) == Repeat(t, n - 1) + [t];
    }
  }

  lemma {:induction false} AscendingOrder(es: seq<Entry>)
    requires Valid(es)
    ensures forall i, j | 0 <= i < j < |es| :: es[i].id < es[j].id
    decreases |es|
  {
    if |es| > 1 {
      ValidInit(es);
      AscendingOrder(es[..|es| - 1]);
      assert Ascending(es, |es| - 1);
    }
  }

  /** A term that no entry names does not occur. */
  lemma {:induction false} OnlyTheIds(es: seq<Entry>, scale: nat, id: nat)
    requires Valid(es) && ValidScale(scale) && forall i | 0 <= i < |es| :: es[i].id != id
    ensures multiset(Tokens(es, scale))[Term(id)] == 0
    decreases |es|
  {
    hide Occurrences, Term;
    if es != [] {
      ValidInit(es);
      OnlyTheIds(es[..|es| - 1], scale, id);
      var last := es[|es| - 1];
      RepeatCount(Term(last.id), Occurrences(last, scale));
      if Term(last.id) == Term(id) {
        TermInjective(last.id, id);
      }
    }
  }

  /** The terms come in ascending id order. */
  lemma {:induction false} TokensAscend(es: seq<Entry>, scale: nat, i: nat, j: nat) returns (a: nat, b: nat)
    requires Valid(es) && ValidScale(scale) && i < j < |Tokens(es, scale)|
    ensures a <= b < |es| && es[a].id <= es[b].id
    ensures Tokens(es, scale)[i] == Term(es[a].id) && Tokens(es, scale)[j] == Term(es[b].id)
    decreases |es|
  {
    hide Occurrences, Term;
    ValidInit(es);
    AscendingOrder(es);
    var init := es[..|es| - 1];
    var n := |Tokens(init, scale)|;
    if j < n {
      a, b := TokensAscend(init, scale, i, j);
    } else {
      b := |es| - 1;
      a := if i < n then EntryOf(init, scale, i) else b;
    }
  }

  /** The entry a term was written for. */
  function EntryOf(es: seq<Entry>, scale: nat, i: nat): (a: nat)
    requires Valid(es) && ValidScale(scale) && i < |Tokens(es, scale)|
    ensures a < |es| && Tokens(es, scale)[i] == Term(es[a].id)
  {
    ValidInit(es);
    if i < |Tokens(es[..|es| - 1], scale)| then EntryOf(es[..|es| - 1], scale, i) else |es| - 1
  }

  // ---------------------------------------------------------------- bounds

  /** How many ids that are not special lie below this one. */
  function Rank(id: nat): int {
    id - (if id > 0 then 1 else 0) - (if id <= 100 then 0 else if id <= 103 then id - 100 else 4)
  }

  lemma {:induction false} RankAtLeast(es: seq<Entry>, i: nat)
    requires Valid(es) && i < |es|
    ensures Rank(es[i].id) >= i
  {
    assert Good(es[i]);
    if i > 0 {
      RankAtLeast(es, i - 1);
      assert Ascending(es, i) && Good(es[i - 1]);
    }
  }

  /** No more entries than the vocabulary has tokens that are not special. */
  lemma EntriesBounded(es: seq<Entry>)
    requires Valid(es)
    ensures |es| <= MAX_ENTRIES
  {
    if es != [] {
      RankAtLeast(es, |es| - 1);
      assert Good(es[|es| - 1]);
    }
  }

  lemma {:induction false} TokensBounded(es: seq<Entry>, scale: nat)
    requires Valid(es) && ValidScale(scale)
    ensures |Tokens(es, scale)| <= MAX_OCCURRENCES * |es|
    decreases |es|
  {
    hide Occurrences, Term;
    if es != [] {
      ValidInit(es);
      TokensBounded(es[..|es| - 1], scale);
    }
  }

  lemma {:induction false} JoinLength(ts: seq<string>)
    requires ts != [] && forall i | 0 <= i < |ts| :: |ts[i]| <= 6
    ensures |Join(ts)| <= 7 * |ts| - 1
    decreases |ts|
  {
    if |ts| > 1 {
      JoinLength(ts[..|ts| - 1]);
    }
  }

  /** The text of any expansion at any scale is under 7 * 4,500 * 30,517 characters. */
  lemma TextBounded(es: seq<Entry>, scale: nat)
    requires Valid(es) && ValidScale(scale)
    ensures |Tokens(es, scale)| <= MAX_OCCURRENCES * MAX_ENTRIES
    ensures |Join(Tokens(es, scale))| < 7 * MAX_OCCURRENCES * MAX_ENTRIES
  {
    hide Tokens, Join, Word, Valid;
    EntriesBounded(es);
    TokensBounded(es, scale);
    TokensAreWords(es, scale);
    if Tokens(es, scale) == [] {
      NoTokens(scale);
    } else {
      JoinLength(Tokens(es, scale));
    }
  }

  // ---------------------------------------------------------------- the numbers and characters written out

  /** What makes an entry good, and a scale and an expansion valid. */
  lemma ValidIs(es: seq<Entry>, scale: nat)
    ensures ValidScale(scale) <==> 1 <= scale <= 1_000
    ensures Valid(es) <==>
            (forall i | 0 <= i < |es| ::
               es[i].id < 30_522 && es[i].id !in {0, 100, 101, 102, 103} &&
               es[i].weight.Finite? && 0.0 < es[i].weight.value <= 4.5) &&
            (forall i, j | 0 <= i < j < |es| :: es[i].id < es[j].id)
    ensures forall i | 0 <= i < |es| :: GoodToken(es[i]) <==> es[i].id < 30_522 && es[i].id !in {0, 100, 101, 102, 103}
    ensures MAX_ENTRIES == 30_517 == 30_522 - 5 && MAX_OCCURRENCES == 4_500
  {
    hide Good;
    forall i | 0 <= i < |es|
      ensures Good(es[i]) <==> es[i].id < 30_522 && es[i].id !in {0, 100, 101, 102, 103} &&
                               es[i].weight.Finite? && 0.0 < es[i].weight.value <= 4.5
    {
      GoodIs(es[i]);
    }
    if Valid(es) {
      AscendingOrder(es);
    }
    if forall i, j | 0 <= i < j < |es| :: es[i].id < es[j].id {
      assert forall i | 0 < i < |es| :: Ascending(es, i);
    }
  }

  lemma GoodIs(e: Entry)
    ensures GoodToken(e) <==> e.id < 30_522 && e.id !in {0, 100, 101, 102, 103}
    ensures Good(e) <==> GoodToken(e) && e.weight.Finite? && 0.0 < e.weight.value <= 4.5
  {
  }

  /** The number a string of decimal digits denotes. */
  function ValueOf(t: string): int {
    if t == "" then 0 else 10 * ValueOf(t[..|t| - 1]) + (t[|t| - 1] as int - 48)
  }

  lemma {:induction false} DecimalIs(n: nat)
    ensures ValueOf(Decimal(n)) == n
    ensures forall i | 0 <= i < |Decimal(n)| :: 48 <= Decimal(n)[i] as int <= 57
    ensures Decimal(n)[0] as int == 48 ==> n == 0
    ensures n == 0 ==> |Decimal(n)| == 1
  {
    var t := Decimal(n);
    if n < 10 {
      assert t[..0] == "";
    } else {
      DecimalIs(n / 10);
      assert t[..|t| - 1] == Decimal(n / 10) && n / 10 > 0;
    }
  }

  /** A term is the letter s and the decimal digits of the id, without leading zeros. */
  lemma TermIs(id: nat)
    ensures Term(id)[0] == 's' && |Term(id)| >= 2 && ValueOf(Term(id)[1..]) == id
    ensures forall i | 0 < i < |Term(id)| :: 48 <= Term(id)[i] as int <= 57
    ensures Term(id)[1] as int == 48 ==> id == 0 && |Term(id)| == 2
  {
    hide Decimal;
    DecimalIs(id);
    assert Term(id)[1..] == Decimal(id);
  }

  /** The terms are joined by single spaces, with none before the first or behind the last. */
  lemma {:induction false} JoinIs(a: seq<string>, b: seq<string>, t: string)
    ensures Join([]) == "" && Join([t]) == t
    ensures a != [] && b != [] ==> Join(a + b) == Join(a) + " " + Join(b)
    decreases |b|
  {
    if a != [] && b != [] {
      var n := |b| - 1;
      assert (a + b)[..|a + b| - 1] == a + b[..n];
      if n == 0 {
        assert b == [b[0]] && a + b[..0] == a;
        assert Join(a) + (" " + b[0]) == Join(a) + " " + b[0];
      } else {
        JoinIs(a, b[..n], t);
        assert Join(a) + " " + Join(b[..n]) + (" " + b[n]) == Join(a) + " " + (Join(b[..n]) + (" " + b[n]));
      }
    }
  }
}
