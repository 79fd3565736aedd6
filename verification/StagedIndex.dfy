/**
  The two models the dense index's fixtures are minted and checked with: committed rows under a
  pending overlay, and a working copy beside a committed copy.  They show the same rows, hence the
  same ranking, after every script.
  */
module StagedIndex {
  import opened Common
  import opened Sorting
  import Rerank

  datatype Op<V> = Add(id: int, vector: V) | Delete(ids: seq<int>) | Commit | Reopen

  /** Committed rows, and what the next commit does to them: `None` deletes. */
  datatype Overlay<V> = Overlay(live: map<int, V>, pending: map<int, Option<V>>)

  /** A working copy, and the rows as last committed. */
  datatype Working<V> = Working(live: map<int, V>, committed: map<int, V>)

  /** Exactly the known ids of `ids` are pending as deleted; an unknown id is not staged, any other entry stays. */
  function Marked<V>(live: map<int, V>, pending: map<int, Option<V>>, ids: seq<int>): map<int, Option<V>> {
    var gone := Elements(ids) * (live.Keys + pending.Keys);
    map i | i in pending.Keys + gone :: if i in gone then None else pending[i]
  }

  /** The rows once everything pending is applied. */
  function Merged<V>(live: map<int, V>, pending: map<int, Option<V>>): map<int, V> {
    map i | i in live.Keys + pending.Keys && (i in pending ==> pending[i].Some?) ::
      if i in pending then pending[i].value else live[i]
  }

  /** The pending entries that are not still to do. */
  function Applied<V>(pending: map<int, Option<V>>, todo: set<int>): map<int, Option<V>> {
    map i | i in pending && i !in todo :: pending[i]
  }

  lemma Inhabited(s: set<int>)
    ensures s == {} || exists i :: i in s
  {
    if forall i :: i !in s {
      assert s == {};
    }
  }

  lemma NothingApplied<V>(live: map<int, V>, pending: map<int, Option<V>>)
    ensures Merged(live, Applied(pending, pending.Keys)) == live
  {
    assert Applied(pending, pending.Keys) == map[];
  }

  lemma ApplyOne<V>(live: map<int, V>, pending: map<int, Option<V>>, todo: set<int>, i: int)
    requires i in todo && todo <= pending.Keys
    ensures var before := Merged(live, Applied(pending, todo));
            Merged(live, Applied(pending, todo - {i})) ==
              if pending[i].Some? then before[i := pending[i].value] else before - {i}
  {
    assert Applied(pending, todo - {i}) == Applied(pending, todo)[i := pending[i]];
    SetOne(live, Applied(pending, todo), i, pending[i]);
  }

  lemma SetOne<V>(live: map<int, V>, pending: map<int, Option<V>>, i: int, entry: Option<V>)
    ensures Merged(live, pending[i := entry]) ==
              if entry.Some? then Merged(live, pending)[i := entry.value] else Merged(live, pending) - {i}
  {
  }

  function StepOverlay<V>(s: Overlay<V>, op: Op<V>): Overlay<V> {
    match op
    case Add(i, v) => s.(pending := s.pending[i := Some(v)])
    case Delete(ids) => s.(pending := Marked(s.live, s.pending, ids))
    case Commit => Overlay(Merged(s.live, s.pending), map[])
    case Reopen => s.(pending := map[])
  }

  /** Exactly the rows of the other ids. */
  function Removed<V>(live: map<int, V>, ids: seq<int>): map<int, V> {
    map i | i in live && i !in ids :: live[i]
  }

  lemma MarkOne<V>(live: map<int, V>, pending: map<int, Option<V>>, ids: seq<int>, k: nat)
    requires k < |ids|
    ensures var before, id := Marked(live, pending, ids[..k]), ids[k];
            Marked(live, pending, ids[..k + 1]) == if id in live || id in before then before[id := None] else before
  {
    assert ids[..k + 1] == ids[..k] + [ids[k]];
  }

  lemma MarkNone<V>(live: map<int, V>, pending: map<int, Option<V>>)
    ensures Marked(live, pending, []) == pending
  {
  }

  lemma RemoveOne<V>(live: map<int, V>, ids: seq<int>, k: nat)
    requires k < |ids|
    ensures Removed(live, ids[..k + 1]) == Removed(live, ids[..k]) - {ids[k]}
  {
    assert ids[..k + 1] == ids[..k] + [ids[k]];
  }

  lemma RemoveNone<V>(live: map<int, V>)
    ensures Removed(live, []) == live
  {
  }

  function StepWorking<V>(s: Working<V>, op: Op<V>): Working<V> {
    match op
    case Add(i, v) => s.(live := s.live[i := v])
    case Delete(ids) => s.(live := Removed(s.live, ids))
    case Commit => s.(committed := s.live)
    case Reopen => s.(live := s.committed)
  }

  // ---------------------------------------------------------------- the scripts' state

  class OverlayIndex<V(==)> {
    var live: map<int, V>
    var pending: map<int, Option<V>>

    ghost function View(): Overlay<V>
      reads this
    {
      Overlay(live, pending)
    }

    constructor ()
      ensures View() == Overlay(map[], map[])
    {
      live, pending := map[], map[];
    }

    method Add(i: int, v: V)
      modifies this
      ensures View() == StepOverlay(old(View()), Op.Add(i, v))
    {
      pending := pending[i := Some(v)];
    }

    method Delete(ids: seq<int>)
      modifies this
      ensures View() == StepOverlay(old(View()), Op.Delete(ids))
    {
      hide Marked;
      MarkNone(live, pending);
      assert ids[..0] == [];
      for k := 0 to |ids|
        invariant live == old(live) && pending == Marked(live, old(pending), ids[..k])
      {
        MarkOne(live, old(pending), ids, k);
        if ids[k] in live || ids[k] in pending {
          pending := pending[ids[k] := None];
        }
      }
      assert ids[..|ids|] == ids;
    }

    /** Applies the pending entries one by one, in whatever order the dictionary gives them. */
    method Commit()
      modifies this
      ensures View() == StepOverlay(old(View()), Op.Commit)
    {
      hide Merged;
      var todo: set<int> := pending.Keys;
      NothingApplied(live, pending);
      while todo != {}
        invariant pending == old(pending) && todo <= pending.Keys
        invariant live == Merged(old(live), Applied(pending, todo))
        decreases |todo|
      {
        Inhabited(todo);
        var i :| i in todo;
        ApplyOne(old(live), pending, todo, i);
        match pending[i] {
          case None => live := live - {i};
          case Some(v) => live := live[i := v];
        }
        todo := todo - {i};
      }
      assert Applied(pending, {}) == pending;
      pending := map[];
    }

    method Reopen()
      modifies this
      ensures View() == StepOverlay(old(View()), Op.Reopen)
    {
      pending := map[];
    }
  }

  class WorkingIndex<V(==)> {
    var live: map<int, V>
    var committed: map<int, V>

    ghost function View(): Working<V>
      reads this
    {
      Working(live, committed)
    }

    constructor ()
      ensures View() == Working(map[], map[])
    {
      live, committed := map[], map[];
    }

    method Add(i: int, v: V)
      modifies this
      ensures View() == StepWorking(old(View()), Op.Add(i, v))
    {
      live := live[i := v];
    }

    method Delete(ids: seq<int>)
      modifies this
      ensures View() == StepWorking(old(View()), Op.Delete(ids))
    {
      hide Removed;
      RemoveNone(live);
      assert ids[..0] == [];
      for k := 0 to |ids|
        invariant committed == old(committed) && live == Removed(old(live), ids[..k])
      {
        RemoveOne(old(live), ids, k);
        live := live - {ids[k]};
      }
      assert ids[..|ids|] == ids;
    }

    method Commit()
      modifies this
      ensures View() == StepWorking(old(View()), Op.Commit)
    {
      committed := live;
    }

    method Reopen()
      modifies this
      ensures View() == StepWorking(old(View()), Op.Reopen)
    {
      live := committed;
    }
  }

  // ---------------------------------------------------------------- the two models agree

  /** The same rows are visible, and the same rows would be after a commit. */
  ghost predicate Agree<V>(o: Overlay<V>, w: Working<V>) {
    o.live == w.committed && Merged(o.live, o.pending) == w.live
  }

  function RunOverlay<V>(s: Overlay<V>, ops: seq<Op<V>>): Overlay<V> {
    if ops == [] then s else StepOverlay(RunOverlay(s, ops[..|ops| - 1]), ops[|ops| - 1])
  }

  function RunWorking<V>(s: Working<V>, ops: seq<Op<V>>): Working<V> {
    if ops == [] then s else StepWorking(RunWorking(s, ops[..|ops| - 1]), ops[|ops| - 1])
  }

  lemma DeleteAgrees<V>(live: map<int, V>, pending: map<int, Option<V>>, ids: seq<int>)
    ensures Merged(live, Marked(live, pending, ids)) == Removed(Merged(live, pending), ids)
  {
    var marked, rows := Marked(live, pending, ids), Removed(Merged(live, pending), ids);
    forall i ensures i in Merged(live, marked) <==> i in rows {
      assert i in Elements(ids) <==> i in ids;
    }
    forall i | i in rows ensures Merged(live, marked)[i] == rows[i] {
    }
    assert Merged(live, marked) == rows;
  }

  lemma NothingPending<V>(live: map<int, V>)
    ensures Merged(live, map[]) == live
  {
  }

  lemma StepAgrees<V>(o: Overlay<V>, w: Working<V>, op: Op<V>)
    requires Agree(o, w)
    ensures Agree(StepOverlay(o, op), StepWorking(w, op))
  {
    match op
    case Add(i, v) =>
      assert Merged(o.live, o.pending[i := Some(v)]) == Merged(o.live, o.pending)[i := v];
    case Delete(ids) => DeleteAgrees(o.live, o.pending, ids);
    case Commit => NothingPending(Merged(o.live, o.pending));
    case Reopen => NothingPending(o.live);
  }

  /** Over every script the two models expose the same committed rows. */
  lemma {:induction false} ScriptsAgree<V>(ops: seq<Op<V>>)
    ensures Agree(RunOverlay(Overlay(map[], map[]), ops), RunWorking(Working(map[], map[]), ops))
    decreases |ops|
  {
    if ops != [] {
      ScriptsAgree(ops[..|ops| - 1]);
      var init := ops[..|ops| - 1];
      StepAgrees(RunOverlay(Overlay(map[], map[]), init), RunWorking(Working(map[], map[]), init), ops[|ops| - 1]);
    }
  }

  predicate Staging<V>(op: Op<V>) {
    op.Add? || op.Delete?
  }

  lemma {:induction false} StagedIsInvisible<V>(s: Overlay<V>, ops: seq<Op<V>>)
    requires forall i | 0 <= i < |ops| :: Staging(ops[i])
    ensures RunOverlay(s, ops).live == s.live
    decreases |ops|
  {
    if ops != [] {
      StagedIsInvisible(s, ops[..|ops| - 1]);
      assert Staging(ops[|ops| - 1]);
    }
  }

  lemma {:induction false} RunConcat<V>(s: Overlay<V>, a: seq<Op<V>>, b: seq<Op<V>>)
    ensures RunOverlay(s, a + b) == RunOverlay(RunOverlay(s, a), b)
    decreases |b|
  {
    if b == [] {
      assert a + b == a;
    } else {
      assert (a + b)[..|a + b| - 1] == a + b[..|b| - 1];
      RunConcat(s, a, b[..|b| - 1]);
    }
  }

  /** What is staged shows only after a commit, and a reopen forgets it as if it had not been staged. */
  lemma ReopenForgets<V>(s: Overlay<V>, ops: seq<Op<V>>, later: seq<Op<V>>)
    requires forall i | 0 <= i < |ops| :: Staging(ops[i])
    ensures RunOverlay(s, ops).live == s.live
    ensures RunOverlay(s, ops + [Reopen] + later) == RunOverlay(s, [Reopen] + later)
  {
    StagedIsInvisible(s, ops);
    RunConcat(s, ops + [Reopen], later);
    RunConcat(s, ops, [Reopen]);
    RunConcat(s, [Reopen], later);
    var t := RunOverlay(s, ops);
    OneStep(t, Reopen);
    OneStep(s, Reopen);
  }

  lemma OneStep<V>(s: Overlay<V>, op: Op<V>)
    ensures RunOverlay(s, [op]) == StepOverlay(s, op)
  {
    assert [op][..0] == [];
  }

  /** Deleting ids that no row has and nothing staged adds stages nothing. */
  lemma UnknownDeletesDoNothing<V>(s: Overlay<V>, ids: seq<int>)
    requires forall i | 0 <= i < |ids| :: ids[i] !in Merged(s.live, s.pending)
    ensures StepOverlay(s, Delete(ids)) == s
  {
    var marked := Marked(s.live, s.pending, ids);
    forall i | i in marked ensures i in s.pending && marked[i] == s.pending[i] {
      if k :| 0 <= k < |ids| && ids[k] == i {
        assert ids[k] !in Merged(s.live, s.pending);
      }
    }
    assert marked == s.pending;
  }

  // ---------------------------------------------------------------- the ranking

  datatype Scored = Scored(id: int, score: real)

  predicate Better(a: Scored, b: Scored) {
    a.score > b.score || (a.score == b.score && a.id <= b.id)
  }

  /** An enumeration of rows. */
  ghost predicate Known<V>(order: seq<int>, rows: map<int, V>) {
    forall k | 0 <= k < |order| :: order[k] in rows
  }

  ghost function Items<V>(order: seq<int>, rows: map<int, V>, score: V -> real): (r: seq<Scored>)
    requires Known(order, rows)
    ensures |r| == |order| && forall k | 0 <= k < |r| :: r[k] == Scored(order[k], score(rows[order[k]]))
  {
    seq(|order|, k requires 0 <= k < |order| && order[k] in rows => Scored(order[k], score(rows[order[k]])))
  }

  /** `(score DESC, id ASC)` over the rows, enumerated in some order. */
  ghost function Ranking<V>(order: seq<int>, rows: map<int, V>, score: V -> real): seq<Scored>
    requires Known(order, rows)
  {
    Sort(Items(order, rows, score), Better)
  }

  /** The order in which a dictionary lists its rows does not show in the ranking. */
  lemma RankingIgnoresEnumeration<V>(a: seq<int>, b: seq<int>, rows: map<int, V>, score: V -> real)
    requires multiset(a) == multiset(b) && Known(a, rows) && Known(b, rows)
    ensures Ranking(a, rows, score) == Ranking(b, rows, score)
  {
    hide Sort;
    ElementsOfPermutation(a, b);
    var f := (i: int) => if i in rows then Scored(i, score(rows[i])) else Scored(i, 0.0);
    assert Items(a, rows, score) == Map(f, a) && Items(b, rows, score) == Map(f, b);
    MapPermutation(f, a, b);
    assert TotalPreorder(Better);
    SortSorted(Map(f, a), Better);
    SortSorted(Map(f, b), Better);
    SortedUnique(Sort(Map(f, a), Better), Sort(Map(f, b), Better), Better);
  }

  /** After every script both models rank the same: any enumerations, any score, any cut. */
  lemma ScriptsRankAlike<V>(ops: seq<Op<V>>, a: seq<int>, b: seq<int>, score: V -> real)
    requires var o, w := RunOverlay(Overlay(map[], map[]), ops), RunWorking(Working(map[], map[]), ops);
             Known(a, o.live) && Known(b, w.committed)
    requires multiset(a) == multiset(b)
    ensures var o, w := RunOverlay(Overlay(map[], map[]), ops), RunWorking(Working(map[], map[]), ops);
            Ranking(a, o.live, score) == Ranking(b, w.committed, score)
  {
    hide Sort, RunOverlay, RunWorking, Items;
    ScriptsAgree(ops);
    RankingIgnoresEnumeration(a, b, RunOverlay(Overlay(map[], map[]), ops).live, score);
  }

  /** The ranking holds each listed row once, with its score: the highest first, and the lower id first among equals. */
  lemma RankingIs<V>(order: seq<int>, rows: map<int, V>, score: V -> real)
    requires Distinct(order) && Known(order, rows)
    ensures var r := Ranking(order, rows, score);
            |r| == |order| &&
            (forall i | 0 <= i < |r| :: r[i].id in rows && r[i].id in order && r[i].score == score(rows[r[i].id])) &&
            (forall id | id in order :: exists i :: 0 <= i < |r| && r[i].id == id) &&
            (forall i, j | 0 <= i < j < |r| ::
               r[i].score > r[j].score || (r[i].score == r[j].score && r[i].id < r[j].id))
  {
    hide Sort, Ranking, Distinct, Known;
    var items, r := Items(order, rows, score), Ranking(order, rows, score);
    assert r == Sort(items, Better) by { RankingSorts(order, rows, score); }
    assert TotalPreorder(Better);
    SortSorted(items, Better);
    ElementsOfPermutation(r, items);
    forall i | 0 <= i < |r| ensures r[i].id in rows && r[i].id in order && r[i].score == score(rows[r[i].id]) {
      assert r[i] in items;
      var k :| 0 <= k < |items| && items[k] == r[i];
      RowListed(order, rows, k);
    }
    forall id | id in order ensures exists i :: 0 <= i < |r| && r[i].id == id {
      var k :| 0 <= k < |order| && order[k] == id;
      assert items[k] in r;
      var i :| 0 <= i < |r| && r[i] == items[k];
      assert r[i].id == id;
    }
    ItemsDiffer(order, rows, score, r);
    forall i, j | 0 <= i < j < |r|
      ensures r[i].score > r[j].score || (r[i].score == r[j].score && r[i].id < r[j].id)
    {
      assert Better(r[i], r[j]) && r[i].id != r[j].id;
    }
  }

  lemma RankingSorts<V>(order: seq<int>, rows: map<int, V>, score: V -> real)
    requires Known(order, rows)
    ensures Ranking(order, rows, score) == Sort(Items(order, rows, score), Better)
  {
  }

  lemma RowListed<V>(order: seq<int>, rows: map<int, V>, k: nat)
    requires Known(order, rows) && k < |order|
    ensures order[k] in rows && order[k] in order
  {
  }

  /** No id stands twice in a rearrangement of the items of distinct ids. */
  lemma ItemsDiffer<V>(order: seq<int>, rows: map<int, V>, score: V -> real, r: seq<Scored>)
    requires Distinct(order) && Known(order, rows) && multiset(r) == multiset(Items(order, rows, score))
    ensures forall i, j | 0 <= i < j < |r| :: r[i].id != r[j].id
  {
    var ids := Map((x: Scored) => x.id, r);
    MapPermutation((x: Scored) => x.id, r, Items(order, rows, score));
    assert Map((x: Scored) => x.id, Items(order, rows, score)) == order;
    Rerank.PermutationDistinct(order, ids);
    forall i, j | 0 <= i < j < |r| ensures r[i].id != r[j].id {
      assert ids[i] == r[i].id && ids[j] == r[j].id;
    }
  }

  // ---------------------------------------------------------------- what a commit shows

  predicate Mentions<V>(op: Op<V>, id: int) {
    (op.Add? && op.id == id) || (op.Delete? && id in op.ids)
  }

  /** The last operation that mentions the id. */
  ghost predicate LastMention<V>(ops: seq<Op<V>>, j: nat, id: int) {
    j < |ops| && Mentions(ops[j], id) && forall k | j < k < |ops| :: !Mentions(ops[k], id)
  }

  /** The rows that would show after a commit. */
  function Shown<V>(s: Overlay<V>): map<int, V> {
    Merged(s.live, s.pending)
  }

  lemma ShownStep<V>(s: Overlay<V>, op: Op<V>, id: int)
    requires Staging(op)
    ensures var rows, before := Shown(StepOverlay(s, op)), Shown(s);
            if !Mentions(op, id) then (id in rows <==> id in before) && (id in rows ==> rows[id] == before[id])
            else if op.Add? then id in rows && rows[id] == op.vector
            else id !in rows
  {
    match op {
      case Add(i, v) => SetOne(s.live, s.pending, i, Some(v));
      case Delete(ids) => DeleteAgrees(s.live, s.pending, ids);
    }
  }

  lemma {:induction false} ShownAfter<V>(s: Overlay<V>, ops: seq<Op<V>>, id: int)
    requires forall i | 0 <= i < |ops| :: Staging(ops[i])
    ensures var rows, before := Shown(RunOverlay(s, ops)), Shown(s);
            ((forall j | 0 <= j < |ops| :: !Mentions(ops[j], id)) ==>
               (id in rows <==> id in before) && (id in rows ==> rows[id] == before[id])) &&
            (forall j: nat | LastMention(ops, j, id) ::
               if ops[j].Add? then id in rows && rows[id] == ops[j].vector else id !in rows)
    decreases |ops|
  {
    hide Shown, StepOverlay, Mentions;
    if ops != [] {
      var n := |ops| - 1;
      var init, op := ops[..n], ops[n];
      ShownAfter(s, init, id);
      assert Staging(op);
      ShownStep(RunOverlay(s, init), op, id);
      forall j: nat | LastMention(ops, j, id) && j < n ensures LastMention(init, j, id) {
      }
    }
  }

  /**
    What a commit shows, in either model: for each id what the last staged operation that mentions it says, a vector or
    its absence; and for an id no staged operation mentions what was there.
    */
  lemma CommitShows<V>(s: Overlay<V>, ops: seq<Op<V>>, id: int)
    requires s.pending == map[] && forall i | 0 <= i < |ops| :: Staging(ops[i])
    ensures var rows := RunOverlay(s, ops + [Op.Commit]).live;
            ((forall j | 0 <= j < |ops| :: !Mentions(ops[j], id)) ==>
               (id in rows <==> id in s.live) && (id in rows ==> rows[id] == s.live[id])) &&
            (forall j: nat | LastMention(ops, j, id) ::
               if ops[j].Add? then id in rows && rows[id] == ops[j].vector else id !in rows)
    ensures RunOverlay(s, ops + [Op.Commit]).pending == map[]
  {
    hide Merged, RunOverlay, Mentions;
    ShownAfter(s, ops, id);
    NothingPending(s.live);
    RunConcat(s, ops, [Op.Commit]);
    OneStep(RunOverlay(s, ops), Op.Commit);
  }
}
