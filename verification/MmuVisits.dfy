/**
 The two walks of lib/mem-mmu/src/table.rs:259-354 for any visitor at all: a visitor is a state and three
 callbacks, and a walk is the state it ends in. For a single page the shortcut calls the same callbacks
 with the same arguments in the same order as the general walk.
 */
module Visits {
  import opened Pagings
  import opened EntryRanges
  import opened Filling

  /** What going down an entry answers. */
  datatype Reply = Fail | Stop | Child(table: nat)

  /** Callbacks take the visitor's state and return it, with whether the walk goes on. */
  datatype Callbacks<!S> = Callbacks(
    descend: (S, nat, nat) -> (S, Reply),
    ascend: (S, nat, nat, nat) -> (S, bool),
    fill: (S, nat, nat, nat, nat) -> (S, bool))

  /** `visit_leaf`: table, then index and address of the single page. */
  function VisitLeaf<S>(p: Paging, k: nat, s: nat, v: Callbacks<S>, st: S, table: nat, va: nat): (S, bool)
    requires s <= k < |p.entries|
    decreases k
  {
    var i := IndexOf(p, k, va);
    if k == s then v.fill(st, table, i, 1, va)
    else
      match v.descend(st, table, i)
      case (st1, Fail) => (st1, false)
      case (st1, Stop) => (st1, true)
      case (st1, Child(c)) =>
        var (st2, ok) := VisitLeaf(p, k - 1, s, v, st1, c, va);
        if !ok then (st2, false) else v.ascend(st2, table, i, c)
  }

  /** Each part lies in the table below its entry. */
  ghost predicate InTables(p: Paging, k: nat, parts: seq<Part>)
    requires 0 < k < |p.entries|
  {
    forall i | 0 <= i < |parts| :: InOneTable(p, k - 1, parts[i].lo, parts[i].hi)
  }

  lemma {:induction false} PartsInTables(p: Paging, k: nat, start: nat, end: nat)
    requires 0 < k < |p.entries| && InOneTable(p, k, start, end)
    ensures InTables(p, k, Parts(p, k, start, end))
    decreases end - start
  {
    hide Size, PageNo, IndexOf, PartEnd;
    CutFirst(p, k, start, end);
    Unfold(p, k, start, end);
    Unfold(p, k, end, end);
    var hi := PartEnd(p, k, start, end);
    if hi < end {
      PartsInTables(p, k, hi, end);
    }
  }

  /** `visit_range`. */
  function VisitRange<S>(p: Paging, k: nat, s: nat, v: Callbacks<S>, st: S, table: nat, start: nat, end: nat): (S, bool)
    requires s <= k < |p.entries| && InOneTable(p, k, start, end)
    decreases k, 1, 0
  {
    if k == s then
      var first, last := IndexOf(p, k, start), IndexOf(p, k, end - 1);
      FirstToLast(p, k, start, end);
      v.fill(st, table, first, last - first + 1, start)
    else
      PartsInTables(p, k, start, end);
      VisitParts(p, k, s, v, st, table, Parts(p, k, start, end))
  }

  lemma {:induction false} FirstToLast(p: Paging, k: nat, start: nat, end: nat)
    requires k < |p.entries| && InOneTable(p, k, start, end)
    ensures IndexOf(p, k, start) <= IndexOf(p, k, end - 1)
  {
    hide PageNo, IndexOf;
    PageMonotone(p, k, start, end - 1);
    SameIndex(p, k, start, end - 1);
  }

  /** The loop over the entries of one table. */
  function VisitParts<S>(p: Paging, k: nat, s: nat, v: Callbacks<S>, st: S, table: nat, parts: seq<Part>): (S, bool)
    requires s < k < |p.entries| && InTables(p, k, parts)
    decreases k, 0, |parts|
  {
    if parts == [] then (st, true)
    else
      var part := parts[0];
      match v.descend(st, table, part.index)
      case (st1, Fail) => (st1, false)
      case (st1, Stop) => VisitParts(p, k, s, v, st1, table, parts[1..])
      case (st1, Child(c)) =>
        var (st2, ok) := VisitRange(p, k - 1, s, v, st1, c, part.lo, part.hi);
        if !ok then (st2, false)
        else
          var (st3, ok3) := v.ascend(st2, table, part.index, c);
          if !ok3 then (st3, false) else VisitParts(p, k, s, v, st3, table, parts[1..])
  }

  /** Every table spans whole pages, so a single page is one part of every table on the way to it. */
  lemma {:induction false} OnePart(p: Paging, k: nat, s: nat, va: nat)
    requires s <= k < |p.entries| && Aligned(p, s, va)
    ensures var end := va + Size(p, s);
      && InOneTable(p, k, va, end) && IndexOf(p, k, va) == IndexOf(p, k, end - 1)
      && (s < k ==> Parts(p, k, va, end) == [Part(IndexOf(p, k, va), va, end)])
  {
    hide Size, PageNo, IndexOf, PartEnd;
    var end := va + Size(p, s);
    OnePage(p, s, k, va);
    SamePageUp(p, k, va, end - 1);
    Unfold(p, k, va, end);
    Unfold(p, k, end, end);
    CutFirst(p, k, va, end);
  }

  /** For a single page both walks end in the same state with the same answer, whatever the visitor does. */
  lemma {:induction false} LeafIsRange<S>(p: Paging, k: nat, s: nat, v: Callbacks<S>, st: S, table: nat, va: nat)
    requires s <= k < |p.entries| && Aligned(p, s, va)
    ensures InOneTable(p, k, va, va + Size(p, s))
    ensures VisitRange(p, k, s, v, st, table, va, va + Size(p, s)) == VisitLeaf(p, k, s, v, st, table, va)
    decreases k
  {
    hide Size, PageNo, IndexOf, Parts;
    OnePart(p, k, s, va);
    if s < k {
      var i, end := IndexOf(p, k, va), va + Size(p, s);
      var parts := [Part(i, va, end)];
      PartsInTables(p, k, va, end);
      assert parts[1..] == [];
      assert VisitRange(p, k, s, v, st, table, va, end) == VisitParts(p, k, s, v, st, table, parts);
      var (st1, reply) := v.descend(st, table, i);
      if reply.Child? {
        LeafIsRange(p, k - 1, s, v, st1, reply.table, va);
        var (st2, ok) := VisitLeaf(p, k - 1, s, v, st1, reply.table, va);
        var (st3, ok3) := v.ascend(st2, table, i, reply.table);
        assert VisitParts(p, k, s, v, st3, table, parts[1..]) == (st3, true);
      } else {
        assert VisitParts(p, k, s, v, st1, table, parts[1..]) == (st1, true);
      }
    }
  }

  /** In a leaf table one run of entries, as long as the range, is filled. */
  lemma {:induction false} RangeIsRun<S>(p: Paging, s: nat, v: Callbacks<S>, st: S, table: nat, start: nat, end: nat)
    requires s < |p.entries| && InOneTable(p, s, start, end) && Aligned(p, s, start) && Aligned(p, s, end)
    ensures VisitRange(p, s, s, v, st, table, start, end) ==
      v.fill(st, table, IndexOf(p, s, start), (end - start) / Size(p, s), start)
  {
    hide Size, PageNo, IndexOf, Aligned;
    var first, last := IndexOf(p, s, start), IndexOf(p, s, end - 1);
    FirstToLast(p, s, start, end);
    RunLength(p, s, start, end, first, last - first + 1);
    Multiple(last - first + 1, Size(p, s));
  }

  /** In other tables the parts are walked one after the other, for as long as the callbacks go on. */
  lemma {:induction false} PartsInTurn<S>(p: Paging, k: nat, s: nat, v: Callbacks<S>, st: S, table: nat, a: seq<Part>,
                                          b: seq<Part>)
    requires s < k < |p.entries| && InTables(p, k, a + b)
    ensures InTables(p, k, a) && InTables(p, k, b)
    ensures VisitParts(p, k, s, v, st, table, a + b) ==
      var (st', ok) := VisitParts(p, k, s, v, st, table, a);
      if ok then VisitParts(p, k, s, v, st', table, b) else (st', false)
    decreases |a|
  {
    hide InOneTable, VisitRange;
    assert forall i | 0 <= i < |a| :: (a + b)[i] == a[i];
    assert forall i | 0 <= i < |b| :: (a + b)[|a| + i] == b[i];
    if a == [] {
      assert a + b == b;
    } else {
      assert (a + b)[1..] == a[1..] + b;
      var (st1, reply) := v.descend(st, table, a[0].index);
      if reply.Stop? {
        PartsInTurn(p, k, s, v, st1, table, a[1..], b);
      } else if reply.Child? {
        var (st2, ok) := VisitRange(p, k - 1, s, v, st1, reply.table, a[0].lo, a[0].hi);
        if ok {
          var (st3, ok3) := v.ascend(st2, table, a[0].index, reply.table);
          PartsInTurn(p, k, s, v, st3, table, a[1..], b);
        }
      }
    }
  }

  /** One part: down, the range below, and up; a callback that does not go on ends the walk. */
  lemma {:induction false} OnePartWalk<S>(p: Paging, k: nat, s: nat, v: Callbacks<S>, st: S, table: nat, part: Part)
    requires s < k < |p.entries| && InTables(p, k, [part])
    ensures InOneTable(p, k - 1, part.lo, part.hi)
    ensures var (st1, reply) := v.descend(st, table, part.index);
      VisitParts(p, k, s, v, st, table, [part]) ==
        if !reply.Child? then (st1, reply.Stop?)
        else
          var (st2, ok) := VisitRange(p, k - 1, s, v, st1, reply.table, part.lo, part.hi);
          if ok then v.ascend(st2, table, part.index, reply.table) else (st2, false)
  {
    hide VisitRange;
    assert InOneTable(p, k - 1, [part][0].lo, [part][0].hi);
    assert [part][1..] == [];
    var (st1, reply) := v.descend(st, table, part.index);
    NoParts(p, k, s, v, st1, table);
    if reply.Child? {
      var (st2, ok) := VisitRange(p, k - 1, s, v, st1, reply.table, part.lo, part.hi);
      NoParts(p, k, s, v, v.ascend(st2, table, part.index, reply.table).0, table);
    }
  }

  lemma {:induction false} NoParts<S>(p: Paging, k: nat, s: nat, v: Callbacks<S>, st: S, table: nat)
    requires s < k < |p.entries|
    ensures VisitParts(p, k, s, v, st, table, []) == (st, true)
  {
  }
}
