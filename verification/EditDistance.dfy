/**
  The reference's `levenshtein`: the loop over rolling rows computes the length of a shortest
  sequence of single-character edits, and that length is a metric.
  */
module EditDistance {
  import opened Common

  function Differ(x: char, y: char): nat {
    if x == y then 0 else 1
  }

  /** The recurrence that one cell of the table is computed by. */
  function Distance(a: string, b: string): nat
    decreases |a| + |b|
  {
    if a == "" then |b|
    else if b == "" then |a|
    else
      var a', b' := a[..|a| - 1], b[..|b| - 1];
      Least(Least(Distance(a', b) + 1, Distance(a, b') + 1), Distance(a', b') + Differ(a[|a| - 1], b[|b| - 1]))
  }

  lemma LastCell(a: string, x: char, b: string, y: char)
    ensures Distance(a + [x], b + [y]) ==
            Least(Least(Distance(a, b + [y]) + 1, Distance(a + [x], b) + 1), Distance(a, b) + Differ(x, y))
  {
    assert (a + [x])[..|a|] == a && (b + [y])[..|b|] == b;
  }

  lemma Cell(a: string, b: string, i: nat, j: nat)
    requires i < |a| && j < |b|
    ensures Distance(a[..i + 1], b[..j + 1]) ==
            Least(Least(Distance(a[..i], b[..j + 1]) + 1, Distance(a[..i + 1], b[..j]) + 1),
              Distance(a[..i], b[..j]) + Differ(a[i], b[j]))
  {
    hide Distance, Differ, Least;
    assert a[..i + 1] == a[..i] + [a[i]] && b[..j + 1] == b[..j] + [b[j]];
    LastCell(a[..i], a[i], b[..j], b[j]);
  }

  lemma Edges(a: string, b: string)
    ensures Distance("", b) == |b| && Distance(a, "") == |a|
  {
  }

  method Levenshtein(a: string, b: string) returns (d: nat)
    ensures d == Distance(a, b)
  {
    hide Distance, Least, Differ;
    var prev: seq<nat> := seq(|b| + 1, j requires 0 <= j => j);
    forall j | 0 <= j <= |b| ensures prev[j] == Distance(a[..0], b[..j]) {
      Edges("", b[..j]);
      assert a[..0] == "";
    }
    for i := 0 to |a|
      invariant |prev| == |b| + 1 && forall j | 0 <= j <= |b| :: prev[j] == Distance(a[..i], b[..j])
    {
      var cur: seq<nat> := [i + 1];
      Edges(a[..i + 1], "");
      assert b[..0] == "";
      for j := 0 to |b|
        invariant |cur| == j + 1 && forall k | 0 <= k <= j :: cur[k] == Distance(a[..i + 1], b[..k])
      {
        Cell(a, b, i, j);
        cur := cur + [Least(Least(prev[j + 1] + 1, cur[j] + 1), prev[j] + Differ(a[i], b[j]))];
      }
      prev := cur;
    }
    assert a[..|a|] == a && b[..|b|] == b;
    d := prev[|b|];
  }

  // ---------------------------------------------------------------- a metric

  /** The last step of a shortest alignment: each of the three costs bounds the distance, and one of them is it. */
  lemma Steps(a: string, b: string)
    requires a != "" && b != ""
    ensures var a', b' := a[..|a| - 1], b[..|b| - 1];
            var del, ins := Distance(a', b) + 1, Distance(a, b') + 1;
            var sub := Distance(a', b') + Differ(a[|a| - 1], b[|b| - 1]);
            Distance(a, b) <= del && Distance(a, b) <= ins && Distance(a, b) <= sub &&
            (Distance(a, b) == del || Distance(a, b) == ins || Distance(a, b) == sub)
  {
    hide Differ;
  }

  lemma {:induction false} Symmetric(a: string, b: string)
    ensures Distance(a, b) == Distance(b, a)
    decreases |a| + |b|
  {
    if a == "" || b == "" {
    } else {
      var a', b' := a[..|a| - 1], b[..|b| - 1];
      Symmetric(a', b);
      Symmetric(a, b');
      Symmetric(a', b');
    }
  }

  lemma {:induction false} ZeroIffEqual(a: string, b: string)
    ensures Distance(a, b) == 0 <==> a == b
    decreases |a| + |b|
  {
    if a == "" || b == "" {
    } else {
      var a', b' := a[..|a| - 1], b[..|b| - 1];
      ZeroIffEqual(a', b');
      assert a == a' + [a[|a| - 1]] && b == b' + [b[|b| - 1]];
    }
  }

  /** One more character on one side changes the distance by at most one. */
  lemma {:induction false} OneLonger(a: string, b: string)
    requires a != ""
    ensures Distance(a, b) <= Distance(a[..|a| - 1], b) + 1
  {
    if b != "" {
      Steps(a, b);
    }
  }

  lemma {:induction false} LengthBound(a: string, b: string)
    ensures Distance(a, b) <= |a| + |b| && |a| <= Distance(a, b) + |b| && |b| <= Distance(a, b) + |a|
    decreases |a| + |b|
  {
    if a == "" || b == "" {
    } else {
      var a', b' := a[..|a| - 1], b[..|b| - 1];
      LengthBound(a', b);
      LengthBound(a, b');
      LengthBound(a', b');
    }
  }

  lemma {:induction false} Triangle(a: string, b: string, c: string)
    ensures Distance(a, c) <= Distance(a, b) + Distance(b, c)
    decreases |a| + |b| + |c|
  {
    hide Distance, Least;
    Edges(a, b);
    Edges(b, c);
    Edges(a, c);
    if a == "" || b == "" || c == "" {
      LengthBound(a, b);
      LengthBound(b, c);
      LengthBound(a, c);
    } else {
      var a', b', c' := a[..|a| - 1], b[..|b| - 1], c[..|c| - 1];
      Steps(a, b);
      Steps(b, c);
      Steps(a, c);
      Triangle(a', b, c);
      Triangle(a, b, c');
      Triangle(a, b', c);
      Triangle(a, b', c');
      Triangle(a', b', c);
      Triangle(a', b', c');
      TriangleCase(a, b, c);
    }
  }

  lemma TriangleCase(a: string, b: string, c: string)
    requires a != "" && b != "" && c != ""
    requires var a', b', c' := a[..|a| - 1], b[..|b| - 1], c[..|c| - 1];
             Distance(a', c) <= Distance(a', b) + Distance(b, c) &&
             Distance(a, c') <= Distance(a, b) + Distance(b, c') &&
             Distance(a, c) <= Distance(a, b') + Distance(b', c) &&
             Distance(a, c') <= Distance(a, b') + Distance(b', c') &&
             Distance(a', c) <= Distance(a', b') + Distance(b', c) &&
             Distance(a', c') <= Distance(a', b') + Distance(b', c')
    ensures Distance(a, c) <= Distance(a, b) + Distance(b, c)
  {
    hide Distance, Least;
    Steps(a, b);
    Steps(b, c);
    Steps(a, c);
  }

  // ---------------------------------------------------------------- shortest edit sequences

  /** `t` is `s` with one character inserted, deleted or substituted. */
  ghost predicate OneEdit(s: string, t: string) {
    exists p: string, q: string, x: string, y: string ::
      |x| <= 1 && |y| <= 1 && |x| + |y| >= 1 && s == p + x + q && t == p + y + q
  }

  /** A sequence of single edits from its first string to its last. */
  ghost predicate EditPath(path: seq<string>) {
    path != [] && forall i | 0 <= i < |path| - 1 :: OneEdit(path[i], path[i + 1])
  }

  lemma {:induction false} CommonSuffix(a: string, b: string, q: string)
    ensures Distance(a + q, b + q) <= Distance(a, b)
    decreases |q|
  {
    hide Distance, Least;
    if q == "" {
      assert a + q == a && b + q == b;
    } else {
      var q' := q[..|q| - 1];
      CommonSuffix(a, b, q');
      assert (a + q)[..|a + q| - 1] == a + q' && (b + q)[..|b + q| - 1] == b + q';
      Steps(a + q, b + q);
    }
  }

  lemma EditBound(p: string, x: string, y: string, q: string)
    requires |x| <= 1 && |y| <= 1 && |x| + |y| >= 1
    ensures Distance(p + x + q, p + y + q) <= 1
  {
    hide Distance, Least;
    CommonSuffix(p + x, p + y, q);
    ZeroIffEqual(p, p);
    if x == "" {
      assert p + x == p && (p + y)[..|p|] == p;
      Symmetric(p + y, p);
      OneLonger(p + y, p);
    } else if y == "" {
      assert p + y == p && (p + x)[..|p|] == p;
      OneLonger(p + x, p);
    } else {
      assert (p + x)[..|p|] == p && (p + y)[..|p|] == p;
      Steps(p + x, p + y);
    }
  }

  /** One edit is at distance at most one. */
  lemma OneEditBound(s: string, t: string)
    requires OneEdit(s, t)
    ensures Distance(s, t) <= 1
  {
    hide Distance;
    var p, q, x, y :| |x| <= 1 && |y| <= 1 && |x| + |y| >= 1 && s == p + x + q && t == p + y + q;
    EditBound(p, x, y, q);
  }

  lemma {:induction false} PathBound(path: seq<string>)
    requires EditPath(path)
    ensures Distance(path[0], path[|path| - 1]) <= |path| - 1
    decreases |path|
  {
    hide Distance, OneEdit;
    if |path| == 1 {
      ZeroIffEqual(path[0], path[0]);
    } else {
      var n := |path| - 1;
      PathBound(path[..n]);
      OneEditBound(path[n - 1], path[n]);
      Triangle(path[0], path[n - 1], path[n]);
    }
  }

  lemma PathSnoc(path: seq<string>, t: string)
    requires EditPath(path) && OneEdit(path[|path| - 1], t)
    ensures EditPath(path + [t])
  {
    hide OneEdit;
  }

  function Appended(path: seq<string>, q: string): (r: seq<string>)
    ensures |r| == |path| && forall i | 0 <= i < |r| :: r[i] == path[i] + q
  {
    seq(|path|, i requires 0 <= i < |path| => path[i] + q)
  }

  lemma AppendedEdit(s: string, t: string, z: string)
    requires OneEdit(s, t)
    ensures OneEdit(s + z, t + z)
  {
    var p, q, x, y :| |x| <= 1 && |y| <= 1 && |x| + |y| >= 1 && s == p + x + q && t == p + y + q;
    Reassociate(p, x, q, z);
    Reassociate(p, y, q, z);
    var tail := q + z;
    assert s + z == p + x + tail && t + z == p + y + tail;
  }

  lemma Reassociate(p: string, x: string, q: string, z: string)
    ensures p + x + q + z == p + x + (q + z)
  {
  }

  lemma AppendedPath(path: seq<string>, q: string)
    requires EditPath(path)
    ensures EditPath(Appended(path, q))
  {
    hide OneEdit;
    forall i | 0 <= i < |path| - 1 ensures OneEdit(Appended(path, q)[i], Appended(path, q)[i + 1]) {
      AppendedEdit(path[i], path[i + 1], q);
    }
  }

  /** A sequence of edits from `a` to `b` as long as their distance. */
  lemma {:induction false} ShortestPath(a: string, b: string) returns (path: seq<string>)
    ensures EditPath(path) && path[0] == a && path[|path| - 1] == b && |path| == Distance(a, b) + 1
    decreases |a| + |b|
  {
    hide Distance, Least, OneEdit;
    Edges(a, b);
    if a == "" && b == "" {
      path := [a];
    } else if b == "" || (a != "" && Distance(a, b) == Distance(a[..|a| - 1], b) + 1) {
      var a', x := a[..|a| - 1], a[|a| - 1..];
      Edges(a', b);
      var rest := ShortestPath(a', b);
      assert a == a' + x;
      PathCons(a, rest, a', x, "", "");
      path := [a] + rest;
    } else if a == "" || Distance(a, b) == Distance(a, b[..|b| - 1]) + 1 {
      var b', y := b[..|b| - 1], b[|b| - 1..];
      Edges(a, b');
      var rest := ShortestPath(a, b');
      assert b == b' + y;
      EditAt(b', "", y, "");
      assert b' + "" + "" == b' && b' + y + "" == b;
      PathSnoc(rest, b);
      path := rest + [b];
    } else {
      Steps(a, b);
      var a', b', x, y := a[..|a| - 1], b[..|b| - 1], a[|a| - 1..], b[|b| - 1..];
      var rest := ShortestPath(a', b');
      assert a == a' + x && b == b' + y;
      AppendedPath(rest, x);
      path := Appended(rest, x);
      if a[|a| - 1] != b[|b| - 1] {
        EditAt(b', x, y, "");
        assert b' + x + "" == b' + x && b' + y + "" == b;
        PathSnoc(path, b);
        path := path + [b];
      } else {
        assert x == y;
      }
    }
  }

  lemma EditAt(p: string, x: string, y: string, q: string)
    requires |x| <= 1 && |y| <= 1 && |x| + |y| >= 1
    ensures OneEdit(p + x + q, p + y + q)
  {
  }

  lemma PathCons(a: string, rest: seq<string>, p: string, x: string, y: string, q: string)
    requires EditPath(rest) && |x| <= 1 && |y| <= 1 && |x| + |y| >= 1 && a == p + x && rest[0] == p && y == "" &&
             q == ""
    ensures EditPath([a] + rest)
  {
    EditAt(p, x, y, q);
    assert p + x + q == a && p + y + q == p;
    hide OneEdit;
  }

  /** The distance is the length of a shortest sequence of single-character edits. */
  lemma DistanceIsShortest(a: string, b: string)
    ensures forall path | EditPath(path) && path[0] == a && path[|path| - 1] == b :: Distance(a, b) <= |path| - 1
    ensures exists path :: EditPath(path) && path[0] == a && path[|path| - 1] == b && |path| - 1 == Distance(a, b)
  {
    hide Distance, OneEdit;
    forall path | EditPath(path) && path[0] == a && path[|path| - 1] == b ensures Distance(a, b) <= |path| - 1 {
      PathBound(path);
    }
    var path := ShortestPath(a, b);
  }

  /** Two neighbouring characters swapped are two edits apart, never one. */
  lemma TranspositionCostsTwo(p: string, x: char, y: char, q: string)
    requires x != y
    ensures Distance(p + [x, y] + q, p + [y, x] + q) == 2
  {
    hide Distance, OneEdit;
    var s, t, m := p + [x, y] + q, p + [y, x] + q, p + [y, y] + q;
    EditAt(p, [x], [y], [y] + q);
    EditAt(p + [y], [y], [x], q);
    assert s == p + [x] + ([y] + q) && m == p + [y] + ([y] + q) && m == p + [y] + [y] + q && t == p + [y] + [x] + q;
    assert EditPath([s, m, t]);
    PathBound([s, m, t]);
    assert s[|p|] == x && t[|p|] == y;
    ZeroIffEqual(s, t);
    if Distance(s, t) == 1 {
      var path := ShortestPath(s, t);
      assert path == [path[0], path[1]];
      assert OneEdit(s, t);
      SwapIsNotOneEdit(p, x, y, q);
    }
  }

  /** Strings of one length that one edit separates agree everywhere but at one place. */
  lemma OneEditSameLength(s: string, t: string) returns (k: nat)
    requires |s| == |t| && OneEdit(s, t)
    ensures forall i | 0 <= i < |s| && i != k :: s[i] == t[i]
  {
    var p, q, x, y :| |x| <= 1 && |y| <= 1 && |x| + |y| >= 1 && s == p + x + q && t == p + y + q;
    k := |p|;
  }

  lemma SwapIsNotOneEdit(p: string, x: char, y: char, q: string)
    requires x != y
    ensures !OneEdit(p + [x, y] + q, p + [y, x] + q)
  {
    hide OneEdit;
    var s, t := p + [x, y] + q, p + [y, x] + q;
    assert s[|p|] == x && t[|p|] == y && s[|p| + 1] == y && t[|p| + 1] == x;
    if OneEdit(s, t) {
      var k := OneEditSameLength(s, t);
    }
  }

  // ---------------------------------------------------------------- fuzzy matches

  /** The vocabulary within `distance` of a term. */
  function Matching(vocabulary: set<string>, term: string, distance: nat): set<string> {
    set w | w in vocabulary && Distance(term, w) <= distance
  }

  /** Match sets nest, grow by at most the distance between terms, and at distance 0 hold the term alone. */
  lemma MatchesNest(vocabulary: set<string>, term: string, other: string, d: nat, e: nat)
    ensures d <= e ==> Matching(vocabulary, term, d) <= Matching(vocabulary, term, e)
    ensures Matching(vocabulary, term, d) <= Matching(vocabulary, other, d + Distance(other, term))
    ensures Matching(vocabulary, term, 0) == vocabulary * {term}
  {
    hide Distance;
    forall w | w in Matching(vocabulary, term, d) ensures w in Matching(vocabulary, other, d + Distance(other, term)) {
      Triangle(other, term, w);
    }
    forall w ensures w in Matching(vocabulary, term, 0) <==> w in vocabulary * {term} {
      ZeroIffEqual(term, w);
    }
  }

  /** A sequence of at most `n` single edits from one string to another. */
  ghost predicate ReachesWithin(path: seq<string>, a: string, b: string, n: nat) {
    EditPath(path) && path[0] == a && path[|path| - 1] == b && |path| - 1 <= n
  }

  /** A term matches exactly the words of the vocabulary that at most `distance` single-character edits reach. */
  lemma MatchingIs(vocabulary: set<string>, term: string, distance: nat, w: string)
    ensures w in Matching(vocabulary, term, distance) <==>
            w in vocabulary && exists path :: ReachesWithin(path, term, w, distance)
  {
    hide Distance, EditPath;
    if w in Matching(vocabulary, term, distance) {
      var path := ShortestPath(term, w);
      assert ReachesWithin(path, term, w, distance);
    }
    if path :| ReachesWithin(path, term, w, distance) {
      DistanceIsShortest(term, w);
    }
  }
}
