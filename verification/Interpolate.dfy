/**
  The ordering oracle: the replace rule and the interpolating rule over document ids, and when the
  interpolating rule does not depend on scale, is the fused order, or is the replace order.
  */
module Interpolate {
  import opened Common
  import opened Sorting
  import opened Metrics
  import opened Rerank

  /** A scored candidate of the head, with its place in the fused list. */
  datatype Slot = Slot(index: nat, id: int, fused: real, score: real)

  /** What the interpolating rule sorts. */
  datatype Placed = Placed(index: nat, id: int, blend: real)

  datatype Ranked = Ranked(id: int, score: Option<real>)

  /** The scored candidates among the first `n`. */
  function SlotsTo(fused: seq<int>, fusedScores: seq<real>, scores: seq<Option<real>>, n: nat): seq<Slot>
    requires n <= |fused| && n <= |fusedScores| && n <= |scores|
  {
    if n == 0 then []
    else SlotsTo(fused, fusedScores, scores, n - 1) +
         if scores[n - 1].Some? then [Slot(n - 1, fused[n - 1], fusedScores[n - 1], scores[n - 1].value)] else []
  }

  function ScoredHead(fused: seq<int>, fusedScores: seq<real>, scores: seq<Option<real>>, d: nat): seq<Slot>
    requires |fusedScores| == |fused| && Least(d, |fused|) <= |scores|
  {
    SlotsTo(fused, fusedScores, scores, Least(d, |fused|))
  }

  function SlotIds(head: seq<Slot>): set<int> {
    set s | s in head :: s.id
  }

  predicate BySlotScore(a: Slot, b: Slot) {
    a.score > b.score || (a.score == b.score && a.id <= b.id)
  }

  predicate ByPlacedBlend(a: Placed, b: Placed) {
    a.blend > b.blend || (a.blend == b.blend && a.index <= b.index)
  }

  function Unscored(ids: seq<int>): (r: seq<Ranked>)
    ensures |r| == |ids|
  {
    seq(|ids|, i requires 0 <= i < |ids| => Ranked(ids[i], None))
  }

  function ScoredSlots(head: seq<Slot>): (r: seq<Ranked>)
    ensures |r| == |head|
  {
    seq(|head|, i requires 0 <= i < |head| => Ranked(head[i].id, Some(head[i].score)))
  }

  function ScoredPlaced(placed: seq<Placed>): (r: seq<Ranked>)
    ensures |r| == |placed|
  {
    seq(|placed|, i requires 0 <= i < |placed| => Ranked(placed[i].id, Some(placed[i].blend)))
  }

  /** `order_reranked`: the scored head by (score descending, id), then the rest in fused order. */
  function OrderReranked(fused: seq<int>, fusedScores: seq<real>, scores: seq<Option<real>>, d: nat,
                         k: nat): seq<Ranked>
    requires |fusedScores| == |fused| && Least(d, |fused|) <= |scores|
  {
    var head := ScoredHead(fused, fusedScores, scores, d);
    Take(ScoredSlots(Sort(head, BySlotScore)) + Unscored(Drop(fused, SlotIds(head))), k)
  }

  function FusedOf(head: seq<Slot>): (r: seq<real>)
    ensures |r| == |head| && forall i | 0 <= i < |r| :: r[i] == head[i].fused
  {
    seq(|head|, i requires 0 <= i < |head| => head[i].fused)
  }

  function ScoreOf(head: seq<Slot>): (r: seq<real>)
    ensures |r| == |head| && forall i | 0 <= i < |r| :: r[i] == head[i].score
  {
    seq(|head|, i requires 0 <= i < |head| => head[i].score)
  }

  function Combined(head: seq<Slot>, alpha: real): (r: seq<real>)
    ensures |r| == |head|
  {
    Blend(MinMax(FusedOf(head)), MinMax(ScoreOf(head)), alpha)
  }

  function Place(head: seq<Slot>, alpha: real): (r: seq<Placed>)
    ensures |r| == |head|
    ensures forall i | 0 <= i < |r| :: r[i] == Placed(head[i].index, head[i].id, Combined(head, alpha)[i])
  {
    seq(|head|, i requires 0 <= i < |head| => Placed(head[i].index, head[i].id, Combined(head, alpha)[i]))
  }

  /**
    `order_interpolated`: the scored head by (combined score descending, fused place), then the rest in
    fused order.
    */
  function OrderInterpolated(fused: seq<int>, fusedScores: seq<real>, scores: seq<Option<real>>, d: nat, k: nat,
                             alpha: real): seq<Ranked>
    requires |fusedScores| == |fused| && Least(d, |fused|) <= |scores|
  {
    var head := ScoredHead(fused, fusedScores, scores, d);
    Take(ScoredPlaced(Sort(Place(head, alpha), ByPlacedBlend)) + Unscored(Drop(fused, SlotIds(head))), k)
  }

  function RankedIds(r: seq<Ranked>): (ids: seq<int>)
    ensures |ids| == |r| && forall i | 0 <= i < |r| :: ids[i] == r[i].id
  {
    seq(|r|, i requires 0 <= i < |r| => r[i].id)
  }

  // ---------------------------------------------------------------- min-max scaling

  lemma {:induction false} MinMaxRange(v: seq<real>)
    requires v != []
    ensures MinOf(v) in v && MaxOf(v) in v
    ensures forall i | 0 <= i < |v| :: MinOf(v) <= v[i] <= MaxOf(v)
    decreases |v|
  {
    if |v| > 1 {
      var init, last := v[..|v| - 1], v[|v| - 1];
      MinMaxRange(init);
      assert v == init + [last];
    }
  }

  lemma MinMaxAt(v: seq<real>, i: nat)
    requires i < |v|
    ensures MinMax(v)[i] == Ratio(v[i], MinOf(v), MaxOf(v))
  {
    hide MinOf, MaxOf, Ratio;
  }

  /** Every column is scaled into [0, 1], with a 0 in it, and with a 1 unless it is constant. */
  lemma MinMaxUnit(v: seq<real>)
    ensures forall i | 0 <= i < |v| :: 0.0 <= MinMax(v)[i] <= 1.0
    ensures v != [] ==> 0.0 in MinMax(v)
    ensures v != [] && MinOf(v) != MaxOf(v) ==> 1.0 in MinMax(v)
  {
    hide MinMax, MinOf, MaxOf;
    if v != [] {
      MinMaxRange(v);
      var i :| 0 <= i < |v| && v[i] == MinOf(v);
      var j :| 0 <= j < |v| && v[j] == MaxOf(v);
      forall m | 0 <= m < |v| ensures 0.0 <= MinMax(v)[m] <= 1.0 {
        MinMaxBounds(v, m);
      }
      MinMaxBounds(v, i);
      MinMaxBounds(v, j);
      assert MinMax(v)[i] == 0.0;
    }
  }

  lemma MinMaxBounds(v: seq<real>, i: nat)
    requires i < |v| && MinOf(v) <= v[i] <= MaxOf(v)
    ensures 0.0 <= MinMax(v)[i] <= 1.0 && (v[i] == MinOf(v) ==> MinMax(v)[i] == 0.0)
    ensures v[i] == MaxOf(v) != MinOf(v) ==> MinMax(v)[i] == 1.0
  {
    hide MinMax, MinOf, MaxOf;
    MinMaxAt(v, i);
    if MinOf(v) != MaxOf(v) {
      Fraction(v[i] - MinOf(v), MaxOf(v) - MinOf(v));
    }
  }

  lemma Fraction(x: real, y: real)
    requires 0.0 <= x <= y && y > 0.0
    ensures 0.0 <= x / y <= 1.0 && (x == 0.0 ==> x / y == 0.0) && (x == y ==> x / y == 1.0)
  {
  }

  predicate Shifted(a: real, b: real, x: real, x': real) {
    x' == a * x + b
  }

  /** `w` is `v` under a positive affine change. */
  predicate Affine(v: seq<real>, w: seq<real>, a: real, b: real) {
    a > 0.0 && |v| == |w| && forall i | 0 <= i < |v| :: w[i] == a * v[i] + b
  }

  lemma AffineOrder(a: real, b: real, x: real, y: real)
    requires a > 0.0
    ensures x < y <==> a * x + b < a * y + b
  {
    assert a * (y - x) == a * y - a * x;
    if x < y {
      assert a * (y - x) > 0.0;
    } else {
      assert a * (x - y) >= 0.0;
    }
  }

  lemma {:induction false} ExtremesAffine(v: seq<real>, w: seq<real>, a: real, b: real)
    requires Affine(v, w, a, b) && v != []
    ensures MinOf(w) == a * MinOf(v) + b && MaxOf(w) == a * MaxOf(v) + b
    decreases |v|
  {
    hide Affine, MinOf, MaxOf;
    if |v| > 1 {
      var n := |v| - 1;
      AffineParts(v, w, a, b);
      ExtremesAffine(v[..n], w[..n], a, b);
      MinMaxSnoc(v);
      MinMaxSnoc(w);
      AffineOrder(a, b, v[n], MinOf(v[..n]));
      AffineOrder(a, b, MaxOf(v[..n]), v[n]);
    } else {
      AffineParts(v, w, a, b);
      MinMaxSingle(v);
      MinMaxSingle(w);
    }
  }

  lemma MinMaxSnoc(v: seq<real>)
    requires |v| > 1
    ensures var init, last := v[..|v| - 1], v[|v| - 1];
            MinOf(v) == (if last < MinOf(init) then last else MinOf(init)) &&
            MaxOf(v) == (if last > MaxOf(init) then last else MaxOf(init))
  {
  }

  lemma MinMaxSingle(v: seq<real>)
    requires |v| == 1
    ensures MinOf(v) == v[0] == MaxOf(v)
  {
  }

  lemma AffineParts(v: seq<real>, w: seq<real>, a: real, b: real)
    requires Affine(v, w, a, b) && v != []
    ensures |w| == |v| && w[|v| - 1] == a * v[|v| - 1] + b && a > 0.0
    ensures Affine(v[..|v| - 1], w[..|v| - 1], a, b)
  {
  }

  lemma CancelScale(a: real, x: real, y: real)
    requires a > 0.0 && y != 0.0
    ensures a * y != 0.0 && (a * x) / (a * y) == x / y
  {
    var q := x / y;
    assert q * y == x;
    assert q * (a * y) == a * (q * y) == a * x;
    UniqueQuotient(a * x, a * y, q);
  }

  lemma UniqueQuotient(n: real, d: real, q: real)
    requires d != 0.0 && q * d == n
    ensures n / d == q
  {
  }

  /** Scaling to [0, 1] forgets any positive affine change. */
  lemma MinMaxAffine(v: seq<real>, w: seq<real>, a: real, b: real)
    requires Affine(v, w, a, b)
    ensures MinMax(w) == MinMax(v)
  {
    hide MinOf, MaxOf, MinMax;
    if v != [] {
      ExtremesAffine(v, w, a, b);
      forall i | 0 <= i < |v| ensures MinMax(w)[i] == MinMax(v)[i] {
        ScaledAffine(v, w, a, b, i);
      }
    }
    assert MinMax(w) == MinMax(v);
  }

  lemma ScaledAffine(v: seq<real>, w: seq<real>, a: real, b: real, i: nat)
    requires i < |v| == |w| && a > 0.0 && Shifted(a, b, v[i], w[i])
    requires Shifted(a, b, MinOf(v), MinOf(w)) && Shifted(a, b, MaxOf(v), MaxOf(w))
    ensures MinMax(w)[i] == MinMax(v)[i]
  {
    hide *;
    MinMaxAt(v, i);
    MinMaxAt(w, i);
    RatioAffine(a, b, v[i], MinOf(v), MaxOf(v), w[i], MinOf(w), MaxOf(w));
  }

  lemma RatioAffine(a: real, b: real, x: real, lo: real, hi: real, x': real, lo': real, hi': real)
    requires a > 0.0 && Shifted(a, b, x, x') && Shifted(a, b, lo, lo') && Shifted(a, b, hi, hi')
    ensures Ratio(x', lo', hi') == Ratio(x, lo, hi)
  {
    AffineOrder(a, b, lo, hi);
    AffineOrder(a, b, hi, lo);
    if lo != hi {
      Difference(a, b, x, lo);
      Difference(a, b, hi, lo);
      CancelScale(a, x - lo, hi - lo);
    }
  }

  lemma Difference(a: real, b: real, x: real, y: real)
    ensures (a * x + b) - (a * y + b) == a * (x - y)
  {
  }

  // ---------------------------------------------------------------- scale does not matter

  lemma {:induction false} SlotsAffine(fused: seq<int>, fs: seq<real>, fs': seq<real>, scores: seq<Option<real>>,
                                       scores': seq<Option<real>>,
                                       n: nat, a: real, b: real, a': real, b': real)
    requires n <= |fused| && n <= |fs| && n <= |fs'| && n <= |scores| && n <= |scores'| && a > 0.0 && a' > 0.0
    requires forall i | 0 <= i < n && scores[i].Some? :: fs'[i] == a * fs[i] + b
    requires forall i | 0 <= i < n :: (scores[i].Some? <==> scores'[i].Some?)
    requires forall i | 0 <= i < n && scores[i].Some? :: scores'[i].value == a' * scores[i].value + b'
    ensures var h, h' := SlotsTo(fused, fs, scores, n), SlotsTo(fused, fs', scores', n);
            |h| == |h'| && (forall i | 0 <= i < |h| :: h'[i].index == h[i].index && h'[i].id == h[i].id) &&
            (forall i | 0 <= i < |h| :: h'[i].fused == a * h[i].fused + b && h'[i].score == a' * h[i].score + b')
    decreases n
  {
    if n > 0 {
      SlotsAffine(fused, fs, fs', scores, scores', n - 1, a, b, a', b');
    }
  }

  /**
    The interpolated ranking, ids and combined scores alike, does not change when either score
    column of the head is rescaled by a positive affine map.
    */
  lemma InterpolationIgnoresScale(fused: seq<int>, fs: seq<real>, fs': seq<real>, scores: seq<Option<real>>,
                                  scores': seq<Option<real>>,
                                  d: nat, k: nat, alpha: real, a: real, b: real, a': real, b': real)
    requires |fs| == |fused| == |fs'| && Least(d, |fused|) <= |scores| && Least(d, |fused|) <= |scores'| && a > 0.0 &&
             a' > 0.0
    requires forall i | 0 <= i < Least(d, |fused|) && scores[i].Some? :: fs'[i] == a * fs[i] + b
    requires forall i | 0 <= i < Least(d, |fused|) :: (scores[i].Some? <==> scores'[i].Some?)
    requires forall i | 0 <= i < Least(d, |fused|) && scores[i].Some? :: scores'[i].value == a' * scores[i].value + b'
    ensures OrderInterpolated(fused, fs', scores', d, k, alpha) == OrderInterpolated(fused, fs, scores, d, k, alpha)
  {
    hide SlotsTo, MinMax, Sort, Drop, Blend;
    SlotsAffine(fused, fs, fs', scores, scores', Least(d, |fused|), a, b, a', b');
    var h, h' := ScoredHead(fused, fs, scores, d), ScoredHead(fused, fs', scores', d);
    MinMaxAffine(FusedOf(h), FusedOf(h'), a, b);
    MinMaxAffine(ScoreOf(h), ScoreOf(h'), a', b');
    assert Place(h', alpha) == Place(h, alpha);
    SameIds(h, h');
  }

  lemma SameIds(h: seq<Slot>, h': seq<Slot>)
    requires |h| == |h'| && forall i | 0 <= i < |h| :: h'[i].id == h[i].id
    ensures SlotIds(h) == SlotIds(h')
  {
    forall id ensures id in SlotIds(h) <==> id in SlotIds(h') {
      if id in SlotIds(h) {
        var i :| 0 <= i < |h| && h[i].id == id;
        assert h'[i] in h';
      }
      if id in SlotIds(h') {
        var i :| 0 <= i < |h'| && h'[i].id == id;
        assert h[i] in h;
      }
    }
  }

  // ---------------------------------------------------------------- alpha 0: the fused order

  /** Scaling keeps the order of a column; equal scores stay equal, different ones different. */
  lemma MinMaxOrder(v: seq<real>, i: nat, j: nat)
    requires i < |v| && j < |v|
    ensures v[i] >= v[j] <==> MinMax(v)[i] >= MinMax(v)[j]
  {
    hide MinOf, MaxOf;
    MinMaxRange(v);
    var lo, hi := MinOf(v), MaxOf(v);
    if lo != hi {
      DivideOrder(v[i] - lo, v[j] - lo, hi - lo);
    }
  }

  lemma DivideOrder(x: real, y: real, d: real)
    requires d > 0.0
    ensures x >= y <==> x / d >= y / d
  {
    var p, q := x / d, y / d;
    assert p * d == x && q * d == y;
    if p >= q {
      assert (p - q) * d >= 0.0;
    } else {
      assert (q - p) * d > 0.0;
    }
  }

  lemma {:induction false} FullHead(fused: seq<int>, fs: seq<real>, scores: seq<Option<real>>, n: nat)
    requires n <= |fused| && n <= |fs| && n <= |scores| && forall i | 0 <= i < n :: scores[i].Some?
    ensures var h := SlotsTo(fused, fs, scores, n);
            |h| == n && forall i | 0 <= i < n :: h[i] == Slot(i, fused[i], fs[i], scores[i].value)
    decreases n
  {
    if n > 0 {
      FullHead(fused, fs, scores, n - 1);
    }
  }

  lemma DropHead(fused: seq<int>, n: nat, ids: set<int>)
    requires n <= |fused| && Distinct(fused) && ids == Elements(fused[..n])
    ensures Drop(fused, ids) == fused[n..]
  {
    hide Drop;
    assert fused == fused[..n] + fused[n..];
    DropConcat(fused[..n], fused[n..], ids);
    var front, back := fused[..n], fused[n..];
    forall i | 0 <= i < |front| ensures front[i] in ids {
      assert front[i] in front;
    }
    forall j | 0 <= j < |back| ensures back[j] !in ids {
      assert back[j] == fused[n + j];
      assert forall i | 0 <= i < n :: fused[i] != fused[n + j];
    }
    DropAll(front, ids);
    DropNone(back, ids);
  }

  /** With alpha 0, falling fused scores and every head candidate scored, the fused order comes back. */
  lemma AlphaZeroIsFused(fused: seq<int>, fs: seq<real>, scores: seq<Option<real>>, d: nat, k: nat)
    requires |fs| == |fused| && Distinct(fused) && Least(d, |fused|) <= |scores|
    requires forall i | 0 <= i < Least(d, |fused|) :: scores[i].Some?
    requires forall i, j | 0 <= i < j < Least(d, |fused|) :: fs[i] >= fs[j]
    ensures RankedIds(OrderInterpolated(fused, fs, scores, d, k, 0.0)) == Take(fused, k)
  {
    hide SlotsTo, MinMax, Sort, Drop;
    var n := Least(d, |fused|);
    var h := ScoredHead(fused, fs, scores, d);
    FullHead(fused, fs, scores, n);
    var placed := Place(h, 0.0);
    forall i, j | 0 <= i < j < n ensures ByPlacedBlend(placed[i], placed[j]) {
      MinMaxOrder(FusedOf(h), i, j);
      ZeroBlend(MinMax(FusedOf(h))[i], MinMax(ScoreOf(h))[i]);
      ZeroBlend(MinMax(FusedOf(h))[j], MinMax(ScoreOf(h))[j]);
    }
    SortOfSorted(placed, ByPlacedBlend);
    HeadIds(fused, h, n);
    DropHead(fused, n, SlotIds(h));
    var all := ScoredPlaced(placed) + Unscored(fused[n..]);
    assert RankedIds(all) == fused;
    assert RankedIds(Take(all, k)) == Take(RankedIds(all), k);
  }

  lemma ZeroBlend(f: real, c: real)
    ensures (1.0 - 0.0) * f + 0.0 * c == f
    ensures (1.0 - 1.0) * f + 1.0 * c == c
  {
  }

  lemma HeadIds(fused: seq<int>, h: seq<Slot>, n: nat)
    requires n == |h| <= |fused| && forall i | 0 <= i < n :: h[i].id == fused[i]
    ensures SlotIds(h) == Elements(fused[..n])
  {
    forall x ensures x in SlotIds(h) <==> x in Elements(fused[..n]) {
      if x in SlotIds(h) {
        var i :| 0 <= i < n && h[i].id == x;
        assert fused[..n][i] == x;
      }
      if x in fused[..n] {
        var i :| 0 <= i < n && fused[..n][i] == x;
        assert h[i] in h;
      }
    }
  }

  // ---------------------------------------------------------------- alpha 1: the replace order

  predicate SlotOf(fused: seq<int>, scores: seq<Option<real>>, n: nat, s: Slot)
    requires n <= |fused| && n <= |scores|
  {
    s.index < n && s.id == fused[s.index] && scores[s.index] == Some(s.score)
  }

  lemma {:induction false} SlotShape(fused: seq<int>, fs: seq<real>, scores: seq<Option<real>>, n: nat)
    requires n <= |fused| && n <= |fs| && n <= |scores|
    ensures forall i | 0 <= i < |SlotsTo(fused, fs, scores, n)| ::
            SlotOf(fused, scores, n, SlotsTo(fused, fs, scores, n)[i])
    ensures forall i, j | 0 <= i < j < |SlotsTo(fused, fs, scores, n)| ::
              SlotsTo(fused, fs, scores, n)[i].index < SlotsTo(fused, fs, scores, n)[j].index
    decreases n
  {
    if n > 0 {
      SlotShape(fused, fs, scores, n - 1);
    }
  }

  /** The ids of a head are distinct when the fused ids are. */
  lemma HeadIdsDistinct(fused: seq<int>, fs: seq<real>, scores: seq<Option<real>>, n: nat)
    requires n <= |fused| && n <= |fs| && n <= |scores| && Distinct(fused)
    ensures Distinct(IdsOfSlots(SlotsTo(fused, fs, scores, n)))
  {
    hide SlotsTo;
    SlotShape(fused, fs, scores, n);
    var h := SlotsTo(fused, fs, scores, n);
    forall i, j | 0 <= i < j < |h| ensures IdsOfSlots(h)[i] != IdsOfSlots(h)[j] {
      assert SlotOf(fused, scores, n, h[i]) && SlotOf(fused, scores, n, h[j]);
      assert fused[h[i].index] != fused[h[j].index];
    }
  }

  predicate Falling(ids: seq<int>, score: int -> real) {
    forall i, j | 0 <= i < j < |ids| :: score(ids[i]) > score(ids[j])
  }

  /** Two permutations along which the same score falls strictly are the same. */
  lemma {:induction false} FallingUnique(a: seq<int>, b: seq<int>, score: int -> real)
    requires Falling(a, score) && Falling(b, score) && multiset(a) == multiset(b)
    ensures a == b
  {
    var le := (x: int, y: int) => score(x) > score(y) || x == y;
    SortedUnique(a, b, le);
  }

  function SlotId(s: Slot): int {
    s.id
  }

  function PlacedId(p: Placed): int {
    p.id
  }

  function IdsOfSlots(h: seq<Slot>): seq<int> {
    Map(SlotId, h)
  }

  function IdsOfPlaced(h: seq<Placed>): seq<int> {
    Map(PlacedId, h)
  }

  lemma SlotsDistinct(h: seq<Slot>)
    requires Distinct(IdsOfSlots(h))
    ensures Distinct(h)
  {
    forall i, j | 0 <= i < j < |h| ensures h[i] != h[j] {
      assert IdsOfSlots(h)[i] != IdsOfSlots(h)[j];
    }
  }

  /** The score of each id of a head without repeats, as a function. */
  function ScoreIn(head: seq<Slot>, id: int): real {
    if head == [] then 0.0
    else if head[|head| - 1].id == id then head[|head| - 1].score else ScoreIn(head[..|head| - 1], id)
  }

  lemma {:induction false} ScoreInHead(head: seq<Slot>, i: nat)
    requires i < |head| && Distinct(IdsOfSlots(head))
    ensures ScoreIn(head, head[i].id) == head[i].score
    decreases |head|
  {
    if i < |head| - 1 {
      var init := head[..|head| - 1];
      assert IdsOfSlots(head)[i] != IdsOfSlots(head)[|head| - 1];
      assert Distinct(IdsOfSlots(init)) by {
        assert forall p | 0 <= p < |init| :: IdsOfSlots(init)[p] == IdsOfSlots(head)[p];
      }
      ScoreInHead(init, i);
    }
  }

  lemma ByScoreFalls(head: seq<Slot>)
    requires Distinct(IdsOfSlots(head)) && Distinct(ScoreOf(head))
    ensures Falling(IdsOfSlots(Sort(head, BySlotScore)), id => ScoreIn(head, id))
  {
    hide Sort, ScoreIn;
    var sorted := Sort(head, BySlotScore);
    assert TotalPreorder(BySlotScore);
    SortSorted(head, BySlotScore);
    ElementsOfPermutation(sorted, head);
    SlotsDistinct(head);
    PermutationDistinct(head, sorted);
    forall i, j | 0 <= i < j < |sorted| ensures ScoreIn(head, sorted[i].id) > ScoreIn(head, sorted[j].id) {
      assert sorted[i] in head && sorted[j] in head && sorted[i] != sorted[j];
      var p :| 0 <= p < |head| && head[p] == sorted[i];
      var q :| 0 <= q < |head| && head[q] == sorted[j];
      ScoreInHead(head, p);
      ScoreInHead(head, q);
      assert ScoreOf(head)[p] != ScoreOf(head)[q];
      assert BySlotScore(sorted[i], sorted[j]);
    }
  }

  lemma ByBlendFalls(head: seq<Slot>)
    requires Distinct(IdsOfSlots(head)) && Distinct(ScoreOf(head))
    ensures Falling(IdsOfPlaced(Sort(Place(head, 1.0), ByPlacedBlend)), id => ScoreIn(head, id))
  {
    hide Sort, ScoreIn, MinMax;
    var placed := Place(head, 1.0);
    var sorted := Sort(placed, ByPlacedBlend);
    assert TotalPreorder(ByPlacedBlend);
    SortSorted(placed, ByPlacedBlend);
    ElementsOfPermutation(sorted, placed);
    PlacedDistinct(head, 1.0);
    PermutationDistinct(placed, sorted);
    forall i, j | 0 <= i < j < |sorted| ensures ScoreIn(head, sorted[i].id) > ScoreIn(head, sorted[j].id) {
      assert sorted[i] in placed && sorted[j] in placed && sorted[i] != sorted[j];
      var p :| 0 <= p < |placed| && placed[p] == sorted[i];
      var q :| 0 <= q < |placed| && placed[q] == sorted[j];
      ScoreInHead(head, p);
      ScoreInHead(head, q);
      ZeroBlend(MinMax(FusedOf(head))[p], MinMax(ScoreOf(head))[p]);
      ZeroBlend(MinMax(FusedOf(head))[q], MinMax(ScoreOf(head))[q]);
      MinMaxOrder(ScoreOf(head), p, q);
      assert ScoreOf(head)[p] != ScoreOf(head)[q];
      assert ByPlacedBlend(sorted[i], sorted[j]);
    }
  }

  lemma PlacedDistinct(head: seq<Slot>, alpha: real)
    requires Distinct(IdsOfSlots(head))
    ensures Distinct(Place(head, alpha)) && IdsOfPlaced(Place(head, alpha)) == IdsOfSlots(head)
  {
    forall i, j | 0 <= i < j < |head| ensures Place(head, alpha)[i] != Place(head, alpha)[j] {
      assert IdsOfSlots(head)[i] != IdsOfSlots(head)[j];
    }
  }

  /** With alpha 1 and no two equal cross-encoder scores, the ids are ordered as the replace rule orders them. */
  lemma AlphaOneIsReplace(fused: seq<int>, fs: seq<real>, scores: seq<Option<real>>, d: nat, k: nat)
    requires |fs| == |fused| && Distinct(fused) && Least(d, |fused|) <= |scores|
    requires Distinct(ScoreOf(ScoredHead(fused, fs, scores, d)))
    ensures RankedIds(OrderInterpolated(fused, fs, scores, d, k, 1.0)) ==
            RankedIds(OrderReranked(fused, fs, scores, d, k))
  {
    hide SlotsTo, MinMax, Sort, Drop, Blend, ScoreIn, Combined, Place, Falling, RankedIds, Map, Take, ScoredPlaced,
        ScoredSlots;
    var head := ScoredHead(fused, fs, scores, d);
    HeadIdsDistinct(fused, fs, scores, Least(d, |fused|));
    var a, b := Sort(Place(head, 1.0), ByPlacedBlend), Sort(head, BySlotScore);
    ByScoreFalls(head);
    ByBlendFalls(head);
    PlacedDistinct(head, 1.0);
    MapPermutation(PlacedId, a, Place(head, 1.0));
    MapPermutation(SlotId, b, head);
    SameFall(IdsOfPlaced(a), IdsOfSlots(b), head);
    var rest := Unscored(Drop(fused, SlotIds(head)));
    PlacedThenRest(a, rest, k);
    SlotsThenRest(b, rest, k);
  }

  lemma PlacedThenRest(a: seq<Placed>, rest: seq<Ranked>, k: nat)
    ensures RankedIds(Take(ScoredPlaced(a) + rest, k)) == Take(IdsOfPlaced(a) + RankedIds(rest), k)
  {
    assert RankedIds(ScoredPlaced(a) + rest) == IdsOfPlaced(a) + RankedIds(rest);
  }

  lemma SlotsThenRest(b: seq<Slot>, rest: seq<Ranked>, k: nat)
    ensures RankedIds(Take(ScoredSlots(b) + rest, k)) == Take(IdsOfSlots(b) + RankedIds(rest), k)
  {
    assert RankedIds(ScoredSlots(b) + rest) == IdsOfSlots(b) + RankedIds(rest);
  }

  lemma SameFall(a: seq<int>, b: seq<int>, head: seq<Slot>)
    requires Falling(a, id => ScoreIn(head, id)) && Falling(b, id => ScoreIn(head, id)) && multiset(a) == multiset(b)
    ensures a == b
  {
    var score := (id: int) => ScoreIn(head, id);
    forall i, j | 0 <= i < j < |a| ensures score(a[i]) > score(a[j]) {
    }
    forall i, j | 0 <= i < j < |b| ensures score(b[i]) > score(b[j]) {
    }
    FallingUnique(a, b, score);
  }
}
