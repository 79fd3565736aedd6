/**
  The reference's `phrase_count`: how often a two-term phrase occurs within a slop, counted by two
  indices that only move forward.
  */
module PhraseCount {
  import opened Common

  predicate Ascending(s: seq<int>) {
    forall i, j | 0 <= i < j < |s| :: s[i] < s[j]
  }

  /** The positions of `term` among the first `n` tokens, moved by `shift`. */
  function Positions(tokens: seq<string>, term: string, n: nat, shift: int): seq<int>
    requires n <= |tokens|
  {
    if n == 0 then []
    else Positions(tokens, term, n - 1, shift) + if tokens[n - 1] == term then [n - 1 + shift] else []
  }

  lemma {:induction false} PositionsAscend(tokens: seq<string>, term: string, n: nat, shift: int)
    requires n <= |tokens|
    ensures Ascending(Positions(tokens, term, n, shift))
    ensures forall v :: v in Positions(tokens, term, n, shift) <==> 0 <= v - shift < n && tokens[v - shift] == term
    decreases n
  {
    if n > 0 {
      PositionsAscend(tokens, term, n - 1, shift);
      var before, s := Positions(tokens, term, n - 1, shift), Positions(tokens, term, n, shift);
      forall i, j | 0 <= i < j < |s| ensures s[i] < s[j] {
        assert i < |before| && s[i] == before[i] && before[i] in before;
      }
    }
  }

  function Distance(x: int, y: int): nat {
    if x <= y then y - x else x - y
  }

  predicate Within(left: seq<int>, right: seq<int>, i: int, j: int, slop: nat) {
    0 <= i < |left| && 0 <= j < |right| && right[j] - slop <= left[i] <= right[j] + slop
  }

  /** The last of the left positions from `li` on that the right position has reached; `li` if none has. */
  function Skip(left: seq<int>, li: nat, rv: int): (r: nat)
    requires li < |left|
    ensures li <= r < |left| && (r > li ==> left[r] <= rv) && (r + 1 < |left| ==> left[r + 1] > rv)
    decreases |left| - li
  {
    if li + 1 < |left| && left[li + 1] <= rv then Skip(left, li + 1, rv) else li
  }

  function Greedy(left: seq<int>, right: seq<int>, li: nat, ri: nat, slop: nat): nat
    requires li <= |left| && ri <= |right|
    decreases |left| - li + (|right| - ri)
  {
    if li == |left| || ri == |right| then 0
    else if Distance(left[li], right[ri]) <= slop then
      1 + Greedy(left, right, Skip(left, li, right[ri]) + 1, ri + 1, slop)
    else if left[li] < right[ri] then Greedy(left, right, li + 1, ri, slop)
    else Greedy(left, right, li, ri + 1, slop)
  }

  /** The count by the rule used for slop 0: positions that coincide. */
  function Coincide(left: seq<int>, right: seq<int>): nat {
    |Elements(left) * Elements(right)|
  }

  function CountOf(tokens: seq<string>, a: string, b: string, slop: nat): nat {
    var left, right := Positions(tokens, a, |tokens|, 1), Positions(tokens, b, |tokens|, 0);
    if slop == 0 then Coincide(left, right) else Greedy(left, right, 0, 0, slop)
  }

  method CountPhrase(tokens: seq<string>, a: string, b: string, slop: nat) returns (count: nat)
    ensures count == CountOf(tokens, a, b, slop)
  {
    hide Positions, Elements;
    var left, right := Positions(tokens, a, |tokens|, 1), Positions(tokens, b, |tokens|, 0);
    if slop == 0 {
      return |Elements(left) * Elements(right)|;
    }
    var li, ri := 0, 0;
    count := 0;
    while li < |left| && ri < |right|
      invariant 0 <= li <= |left| && 0 <= ri <= |right|
      invariant count + Greedy(left, right, li, ri, slop) == Greedy(left, right, 0, 0, slop)
      decreases |left| - li + (|right| - ri)
    {
      var lv, rv := left[li], right[ri];
      if Distance(lv, rv) <= slop {
        ghost var from := li;
        while li + 1 < |left|
          invariant from <= li < |left| && Skip(left, li, rv) == Skip(left, from, rv)
        {
          if left[li + 1] > rv {
            break;
          }
          li := li + 1;
        }
        count := count + 1;
        li := li + 1;
        ri := ri + 1;
      } else if lv < rv {
        li := li + 1;
      } else {
        ri := ri + 1;
      }
    }
  }

  // ---------------------------------------------------------------- what is counted

  /** Pairs of places, both sides increasing, each pair within the slop: no place is used twice. */
  ghost predicate Pairing(left: seq<int>, right: seq<int>, slop: nat, pairs: seq<(int, int)>) {
    (forall p | 0 <= p < |pairs| :: Within(left, right, pairs[p].0, pairs[p].1, slop)) &&
    (forall p, q | 0 <= p < q < |pairs| :: pairs[p].0 < pairs[q].0 && pairs[p].1 < pairs[q].1)
  }

  /** The count is the size of an order-preserving one-to-one pairing. */
  lemma {:induction false} GreedyPairs(left: seq<int>, right: seq<int>, li: nat, ri: nat, slop: nat)
    returns (pairs: seq<(int, int)>)
    requires li <= |left| && ri <= |right| && Ascending(left)
    ensures Pairing(left, right, slop, pairs) && |pairs| == Greedy(left, right, li, ri, slop)
    ensures forall p | 0 <= p < |pairs| :: pairs[p].0 >= li && pairs[p].1 >= ri
    decreases |left| - li + (|right| - ri)
  {
    hide Skip;
    if li == |left| || ri == |right| {
      pairs := [];
    } else if Distance(left[li], right[ri]) <= slop {
      var m := Skip(left, li, right[ri]);
      var rest := GreedyPairs(left, right, m + 1, ri + 1, slop);
      assert m > li ==> left[li] < left[m];
      assert Within(left, right, m, ri, slop);
      pairs := [(m, ri)] + rest;
    } else if left[li] < right[ri] {
      pairs := GreedyPairs(left, right, li + 1, ri, slop);
    } else {
      pairs := GreedyPairs(left, right, li, ri + 1, slop);
    }
  }

  ghost predicate SomeWithin(left: seq<int>, right: seq<int>, li: nat, ri: nat, slop: nat) {
    exists i, j | li <= i && ri <= j :: Within(left, right, i, j, slop)
  }

  /** The count is positive exactly when two places are within the slop. */
  lemma {:induction false} GreedyFinds(left: seq<int>, right: seq<int>, li: nat, ri: nat, slop: nat)
    requires li <= |left| && ri <= |right| && Ascending(left) && Ascending(right)
    ensures Greedy(left, right, li, ri, slop) > 0 <==> SomeWithin(left, right, li, ri, slop)
    decreases |left| - li + (|right| - ri)
  {
    hide Skip;
    if li < |left| && ri < |right| {
      if Distance(left[li], right[ri]) <= slop {
        assert Within(left, right, li, ri, slop);
      } else if left[li] < right[ri] {
        GreedyFinds(left, right, li + 1, ri, slop);
        forall i, j | li <= i && ri <= j && Within(left, right, i, j, slop) ensures i >= li + 1 {
          assert j > ri ==> right[ri] < right[j];
        }
      } else {
        GreedyFinds(left, right, li, ri + 1, slop);
        forall i, j | li <= i && ri <= j && Within(left, right, i, j, slop) ensures j >= ri + 1 {
          assert i > li ==> left[li] < left[i];
        }
      }
    }
  }

  predicate AllAbove(s: set<int>, low: int) {
    forall v | v in s :: low < v
  }

  lemma TailElements(s: seq<int>, i: nat)
    requires i < |s| && Ascending(s)
    ensures Elements(s[i..]) == {s[i]} + Elements(s[i + 1..])
    ensures AllAbove(Elements(s[i + 1..]), s[i])
  {
    assert s[i..] == [s[i]] + s[i + 1..];
    var tail := s[i + 1..];
    forall v | v in Elements(tail) ensures s[i] < v {
      var k :| 0 <= k < |tail| && tail[k] == v;
      assert s[i] < s[i + 1 + k];
    }
  }

  /** Intersecting two sets by their least elements. */
  lemma MeetAtLeast(l: set<int>, r: set<int>, x: int, y: int)
    requires AllAbove(l, x) && AllAbove(r, y)
    ensures x == y ==> |({x} + l) * ({y} + r)| == 1 + |l * r|
    ensures x < y ==> ({x} + l) * ({y} + r) == l * ({y} + r)
    ensures y < x ==> ({x} + l) * ({y} + r) == ({x} + l) * r
  {
    if x == y {
      assert ({x} + l) * ({y} + r) == {x} + l * r && x !in l * r;
    }
  }

  lemma NothingLeft(left: seq<int>, right: seq<int>)
    requires left == [] || right == []
    ensures Coincide(left, right) == 0
  {
    assert Elements(left) * Elements(right) == {};
  }

  /** The shortcut for slop 0 counts what the two-index loop would count. */
  lemma {:induction false} ZeroSlopShortcut(left: seq<int>, right: seq<int>, li: nat, ri: nat)
    requires li <= |left| && ri <= |right| && Ascending(left) && Ascending(right)
    ensures Greedy(left, right, li, ri, 0) == Coincide(left[li..], right[ri..])
    decreases |left| - li + (|right| - ri)
  {
    hide Elements, AllAbove;
    if li == |left| || ri == |right| {
      NothingLeft(left[li..], right[ri..]);
    } else {
      var x, y := left[li], right[ri];
      TailElements(left, li);
      TailElements(right, ri);
      MeetAtLeast(Elements(left[li + 1..]), Elements(right[ri + 1..]), x, y);
      if x == y {
        assert Skip(left, li, y) == li;
        ZeroSlopShortcut(left, right, li + 1, ri + 1);
      } else if x < y {
        ZeroSlopShortcut(left, right, li + 1, ri);
      } else {
        ZeroSlopShortcut(left, right, li, ri + 1);
      }
    }
  }

  lemma CountIsGreedy(tokens: seq<string>, a: string, b: string, slop: nat)
    ensures var left, right := Positions(tokens, a, |tokens|, 1), Positions(tokens, b, |tokens|, 0);
            CountOf(tokens, a, b, slop) == Greedy(left, right, 0, 0, slop) && Ascending(left) && Ascending(right)
  {
    hide Positions, Coincide, Greedy;
    PositionsAscend(tokens, a, |tokens|, 1);
    PositionsAscend(tokens, b, |tokens|, 0);
    var left, right := Positions(tokens, a, |tokens|, 1), Positions(tokens, b, |tokens|, 0);
    ZeroSlopShortcut(left, right, 0, 0);
    assert left[0..] == left && right[0..] == right;
  }

  /** Somewhere `b` stands within `slop` of the place right after an `a`. */
  ghost predicate Occurs(tokens: seq<string>, a: string, b: string, slop: nat) {
    exists p, q :: 0 <= p < |tokens| && 0 <= q < |tokens| && tokens[p] == a && tokens[q] == b &&
      q - slop <= p + 1 <= q + slop
  }

  /** A phrase counts exactly when it occurs, so what matches at a slop matches at every larger one. */
  lemma CountsWhenItOccurs(tokens: seq<string>, a: string, b: string, slop: nat)
    ensures CountOf(tokens, a, b, slop) > 0 <==> Occurs(tokens, a, b, slop)
    ensures forall wider | wider >= slop :: CountOf(tokens, a, b, slop) > 0 ==> CountOf(tokens, a, b, wider) > 0
  {
    hide CountOf;
    CountIffOccurs(tokens, a, b, slop);
    forall wider | wider >= slop ensures CountOf(tokens, a, b, slop) > 0 ==> CountOf(tokens, a, b, wider) > 0 {
      CountIffOccurs(tokens, a, b, wider);
    }
  }

  lemma CountIffOccurs(tokens: seq<string>, a: string, b: string, slop: nat)
    ensures CountOf(tokens, a, b, slop) > 0 <==> Occurs(tokens, a, b, slop)
  {
    hide Positions, Greedy, CountOf;
    var left, right := Positions(tokens, a, |tokens|, 1), Positions(tokens, b, |tokens|, 0);
    CountIsGreedy(tokens, a, b, slop);
    GreedyFinds(left, right, 0, 0, slop);
    PositionsAscend(tokens, a, |tokens|, 1);
    PositionsAscend(tokens, b, |tokens|, 0);
    if Occurs(tokens, a, b, slop) {
      var p, q :| 0 <= p < |tokens| && 0 <= q < |tokens| && tokens[p] == a && tokens[q] == b &&
        q - slop <= p + 1 <= q + slop;
      assert p + 1 in left && q in right;
      var i :| 0 <= i < |left| && left[i] == p + 1;
      var j :| 0 <= j < |right| && right[j] == q;
      assert Within(left, right, i, j, slop);
    }
    if SomeWithin(left, right, 0, 0, slop) {
      var i, j :| Within(left, right, i, j, slop);
      OccursAt(tokens, a, b, slop, left, right, i, j);
    }
  }

  lemma OccursAt(tokens: seq<string>, a: string, b: string, slop: nat, left: seq<int>, right: seq<int>, i: int, j: int)
    requires forall v | v in left :: 0 <= v - 1 < |tokens| && tokens[v - 1] == a
    requires forall v | v in right :: 0 <= v < |tokens| && tokens[v] == b
    requires Within(left, right, i, j, slop)
    ensures Occurs(tokens, a, b, slop)
  {
    assert left[i] in left && right[j] in right;
    assert right[j] - slop <= left[i] - 1 + 1 <= right[j] + slop;
  }

  // ---------------------------------------------------------------- when the count is the largest pairing

  /** No pairing of the positions is larger than the count. */
  ghost predicate CountIsLargest(tokens: seq<string>, a: string, b: string, slop: nat) {
    forall pairs | Pairing(Positions(tokens, a, |tokens|, 1), Positions(tokens, b, |tokens|, 0), slop, pairs) ::
      |pairs| <= CountOf(tokens, a, b, slop)
  }

  /** The greedy rule counts a largest pairing of every text exactly when there is no slop. */
  lemma CountIsLargestIff(slop: nat)
    ensures (forall tokens, a, b :: CountIsLargest(tokens, a, b, slop)) <==> slop == 0
  {
    hide CountIsLargest;
    if slop == 0 {
      forall tokens, a, b ensures CountIsLargest(tokens, a, b, 0) {
        ExactIsLargest(tokens, a, b);
      }
    } else {
      GreedyUndercounts(slop);
    }
  }

  lemma ExactIsLargest(tokens: seq<string>, a: string, b: string)
    ensures CountIsLargest(tokens, a, b, 0)
  {
    hide Positions, Pairing, Coincide;
    PositionsAscend(tokens, a, |tokens|, 1);
    var left, right := Positions(tokens, a, |tokens|, 1), Positions(tokens, b, |tokens|, 0);
    forall pairs | Pairing(left, right, 0, pairs) ensures |pairs| <= Coincide(left, right) {
      PairsCoincide(left, right, pairs);
    }
  }

  /** The places a pairing without slop pairs are different common positions. */
  lemma PairsCoincide(left: seq<int>, right: seq<int>, pairs: seq<(int, int)>)
    requires Ascending(left) && Pairing(left, right, 0, pairs)
    ensures |pairs| <= Coincide(left, right)
  {
    hide Elements;
    var met := PairedTo(left, right, pairs, |pairs|);
    SubsetIsSmaller(met, Elements(left) * Elements(right));
  }

  /** The positions the first `n` pairs meet at. */
  lemma {:induction false} PairedTo(left: seq<int>, right: seq<int>, pairs: seq<(int, int)>, n: nat)
    returns (met: set<int>)
    requires n <= |pairs| && Ascending(left) && Pairing(left, right, 0, pairs)
    ensures |met| == n && met <= Elements(left) * Elements(right)
    ensures forall v | v in met :: n > 0 && v <= left[pairs[n - 1].0]
    decreases n
  {
    if n == 0 {
      met := {};
    } else {
      var before := PairedTo(left, right, pairs, n - 1);
      var i, j := pairs[n - 1].0, pairs[n - 1].1;
      assert Within(left, right, i, j, 0);
      assert left[i] == right[j];
      if n > 1 {
        assert pairs[n - 2].0 < i && Within(left, right, pairs[n - 2].0, pairs[n - 2].1, 0);
      }
      met := before + {left[i]};
    }
  }

  lemma SubsetIsSmaller<T>(a: set<T>, b: set<T>)
    requires a <= b
    ensures |a| <= |b|
  {
    assert b == a + (b - a);
  }

  /** With any slop "a a b b" counts once, but two pairs fit: the greedy rule skips the first "a" for good. */
  lemma GreedyUndercounts(slop: nat)
    requires slop >= 1
    ensures !CountIsLargest(["a", "a", "b", "b"], "a", "b", slop)
  {
    hide Positions, Greedy;
    ExamplePositions();
    GreedyExample(slop);
    assert Pairing([1, 2], [2, 3], slop, [(0, 0), (1, 1)]);
  }

  lemma ExamplePositions()
    ensures Positions(["a", "a", "b", "b"], "a", 4, 1) == [1, 2] && Positions(["a", "a", "b", "b"], "b", 4, 0) == [2, 3]
  {
    var tokens := ["a", "a", "b", "b"];
    assert Positions(tokens, "a", 2, 1) == [1, 2] && Positions(tokens, "a", 3, 1) == [1, 2];
    assert Positions(tokens, "b", 2, 0) == [] && Positions(tokens, "b", 3, 0) == [2];
  }

  lemma GreedyExample(slop: nat)
    requires slop >= 1
    ensures Greedy([1, 2], [2, 3], 0, 0, slop) == 1
  {
    var left, right := [1, 2], [2, 3];
    assert Skip(left, 0, 2) == 1;
    assert Greedy(left, right, 2, 1, slop) == 0;
  }

  // ---------------------------------------------------------------- the counted pairs, without the two indices

  /** The least place on either side, from `li` and `ri` on, that is within the slop of any place of the other. */
  ghost predicate FirstMatch(left: seq<int>, right: seq<int>, li: nat, ri: nat, slop: nat, i: nat, j: nat) {
    && li <= i && ri <= j && Within(left, right, i, j, slop)
    && (forall x, y | li <= x < i && ri <= y :: !Within(left, right, x, y, slop))
    && (forall x, y | li <= x && ri <= y < j :: !Within(left, right, x, y, slop))
  }

  /** The last left place from `i` on whose position is at most `rv`; `i` itself when there is none. */
  predicate LastReached(left: seq<int>, i: nat, rv: int, m: nat) {
    i <= m < |left| && (m > i ==> left[m] <= rv) && forall x | m < x < |left| :: left[x] > rv
  }

  /**
    The counted pairs: each is the first match of what is left, and takes with it all left places up to the last that
    the right position has reached, and all right places up to its own.
    */
  ghost predicate Chain(left: seq<int>, right: seq<int>, li: nat, ri: nat, slop: nat, counted: seq<(nat, nat, nat)>)
    decreases |counted|
  {
    if counted == [] then !SomeWithin(left, right, li, ri, slop)
    else
      var (i, j, m) := counted[0];
      FirstMatch(left, right, li, ri, slop, i, j) && LastReached(left, i, right[j], m) &&
      Chain(left, right, m + 1, j + 1, slop, counted[1..])
  }

  lemma ReachedIs(left: seq<int>, i: nat, rv: int, m: nat)
    requires i < |left| && Ascending(left)
    ensures LastReached(left, i, rv, m) <==> m == Skip(left, i, rv)
  {
    var r := Skip(left, i, rv);
    assert r + 1 < |left| ==> forall x | r < x < |left| :: left[r + 1] <= left[x];
  }

  lemma DropLeft(left: seq<int>, right: seq<int>, li: nat, ri: nat, slop: nat)
    requires li < |left| && ri < |right| && Ascending(right)
    requires Distance(left[li], right[ri]) > slop && left[li] < right[ri]
    ensures forall y | ri <= y :: !Within(left, right, li, y, slop)
  {
    forall y | ri <= y ensures !Within(left, right, li, y, slop) {
      assert ri < y < |right| ==> right[ri] < right[y];
    }
  }

  lemma DropRight(left: seq<int>, right: seq<int>, li: nat, ri: nat, slop: nat)
    requires li < |left| && ri < |right| && Ascending(left)
    requires Distance(left[li], right[ri]) > slop && left[li] >= right[ri]
    ensures forall x | li <= x :: !Within(left, right, x, ri, slop)
  {
    forall x | li <= x ensures !Within(left, right, x, ri, slop) {
      assert li < x < |left| ==> left[li] < left[x];
    }
  }

  /** The loop counts the first match and goes on behind it. */
  lemma {:induction false} GreedyStep(left: seq<int>, right: seq<int>, li: nat, ri: nat, slop: nat, i: nat, j: nat,
                                      m: nat)
    requires Ascending(left) && Ascending(right) && li <= |left| && ri <= |right|
    requires FirstMatch(left, right, li, ri, slop, i, j) && LastReached(left, i, right[j], m)
    ensures Greedy(left, right, li, ri, slop) == 1 + Greedy(left, right, m + 1, j + 1, slop)
    decreases |left| - li + (|right| - ri)
  {
    hide Skip, LastReached;
    ReachedIs(left, i, right[j], m);
    if Distance(left[li], right[ri]) <= slop {
      assert Within(left, right, li, ri, slop);
      assert i == li && j == ri;
    } else if left[li] < right[ri] {
      DropLeft(left, right, li, ri, slop);
      GreedyStep(left, right, li + 1, ri, slop, i, j, m);
    } else {
      DropRight(left, right, li, ri, slop);
      GreedyStep(left, right, li, ri + 1, slop, i, j, m);
    }
  }

  lemma {:induction false} ChainCounts(left: seq<int>, right: seq<int>, li: nat, ri: nat, slop: nat,
                                       counted: seq<(nat, nat, nat)>)
    requires Ascending(left) && Ascending(right) && li <= |left| && ri <= |right|
    requires Chain(left, right, li, ri, slop, counted)
    ensures Greedy(left, right, li, ri, slop) == |counted|
    decreases |counted|
  {
    hide Greedy, LastReached, Skip;
    if counted == [] {
      GreedyFinds(left, right, li, ri, slop);
    } else {
      var (i, j, m) := counted[0];
      ReachedIs(left, i, right[j], m);
      GreedyStep(left, right, li, ri, slop, i, j, m);
      ChainCounts(left, right, m + 1, j + 1, slop, counted[1..]);
    }
  }

  lemma {:induction false} FirstMatchExists(left: seq<int>, right: seq<int>, li: nat, ri: nat, slop: nat)
    returns (i: nat, j: nat)
    requires Ascending(left) && Ascending(right) && li <= |left| && ri <= |right|
    requires SomeWithin(left, right, li, ri, slop)
    ensures FirstMatch(left, right, li, ri, slop, i, j)
    decreases |left| - li + (|right| - ri)
  {
    var a, b :| li <= a && ri <= b && Within(left, right, a, b, slop);
    if Distance(left[li], right[ri]) <= slop {
      i, j := li, ri;
    } else if left[li] < right[ri] {
      DropLeft(left, right, li, ri, slop);
      assert a >= li + 1;
      i, j := FirstMatchExists(left, right, li + 1, ri, slop);
    } else {
      DropRight(left, right, li, ri, slop);
      assert b >= ri + 1;
      i, j := FirstMatchExists(left, right, li, ri + 1, slop);
    }
  }

  lemma {:induction false} ChainExists(left: seq<int>, right: seq<int>, li: nat, ri: nat, slop: nat)
    returns (counted: seq<(nat, nat, nat)>)
    requires Ascending(left) && Ascending(right) && li <= |left| && ri <= |right|
    ensures Chain(left, right, li, ri, slop, counted)
    decreases |left| - li + (|right| - ri)
  {
    hide LastReached, Skip, SomeWithin;
    if SomeWithin(left, right, li, ri, slop) {
      var i, j := FirstMatchExists(left, right, li, ri, slop);
      var m := Skip(left, i, right[j]);
      ReachedIs(left, i, right[j], m);
      var rest := ChainExists(left, right, m + 1, j + 1, slop);
      counted := [(i, j, m)] + rest;
      assert counted[1..] == rest;
    } else {
      counted := [];
    }
  }

  /** At every slop the count is the number of the counted pairs, which exist and are determined. */
  lemma CountIsChain(tokens: seq<string>, a: string, b: string, slop: nat) returns (counted: seq<(nat, nat, nat)>)
    ensures var left, right := Positions(tokens, a, |tokens|, 1), Positions(tokens, b, |tokens|, 0);
            Chain(left, right, 0, 0, slop, counted) && CountOf(tokens, a, b, slop) == |counted| &&
            forall other | Chain(left, right, 0, 0, slop, other) :: |other| == |counted|
  {
    hide Positions, Greedy, CountOf, Chain;
    CountIsGreedy(tokens, a, b, slop);
    var left, right := Positions(tokens, a, |tokens|, 1), Positions(tokens, b, |tokens|, 0);
    counted := ChainExists(left, right, 0, 0, slop);
    ChainCounts(left, right, 0, 0, slop, counted);
    forall other | Chain(left, right, 0, 0, slop, other) ensures |other| == |counted| {
      ChainCounts(left, right, 0, 0, slop, other);
    }
  }
}
