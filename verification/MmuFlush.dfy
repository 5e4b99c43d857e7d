/**
 The record of what must be flushed from the translation caches (lib/mem-mmu/src/flush.rs), and what walks do to it.
 */
module Flushes {
  import opened Pagings
  import opened Tables
  import opened Effects

  /** How many ranges are remembered one by one. */
  const CAP := 16

  datatype Record = Ranges(ranges: seq<(nat, nat)>) | All {
    ghost predicate Covers(va: nat) {
      All? || exists i :: 0 <= i < |ranges| && ranges[i].0 <= va < ranges[i].1
    }
  }

  /** Nothing that had to be flushed is forgotten. */
  ghost predicate Remembers(r: Record, r': Record) {
    forall va: nat | r.Covers(va) :: r'.Covers(va)
  }

  /** Unless everything will be flushed, no table was added or removed. */
  ghost predicate Structural(r: Record, r': Record, t: Node, t': Node) {
    (r.All? ==> r'.All?) && (r'.All? || SameTables(t, t'))
  }

  lemma {:induction false} StructuralTrans(r: Record, r1: Record, r2: Record, t: Node, t1: Node, t2: Node)
    requires Structural(r, r1, t, t1) && Structural(r1, r2, t1, t2)
    ensures Structural(r, r2, t, t2)
  {
    hide SameTables;
    if !r2.All? {
      SameTablesTrans(t, t1, t2);
    }
  }

  lemma {:induction false} StructuralRefl(r: Record, t: Node)
    ensures Structural(r, r, t, t)
  {
    hide Within;
    WithinRefl(t);
  }

  lemma {:induction false} StructuralAll(r: Record, t: Node, t': Node)
    ensures Structural(r, All, t, t')
  {
  }

  /** What holds of the table in an entry holds of the whole tree. */
  lemma {:induction false} StructuralSub(r: Record, r': Record, t: Node, i: nat, u: Node)
    requires i < |t.slots| && t.slots[i].Sub? && Structural(r, r', t.slots[i].node, u)
    ensures Structural(r, r', t, With(t, i, Sub(u)))
  {
    hide SameTables;
    if !r'.All? {
      SameTablesSub(t, i, u);
    }
  }

  /** Every translation of `lo..hi` that the operation touches will be flushed. */
  ghost predicate Recorded(kind: Kind, p: Paging, k: nat, t: Node, lo: nat, hi: nat, r: Record)
    requires WF(p, k, t)
  {
    forall x: nat | lo <= x < hi && (kind.Unmap? ==> Find(p, k, t, x).Some?) :: r.Covers(x)
  }

  class Flush {
    var record: Record

    constructor ()
      ensures record == Ranges([])
    {
      record := Ranges([]);
    }

    /** Coarsens to everything once the ranges no longer fit. */
    method Invalidate(lo: nat, hi: nat)
      modifies this
      ensures Remembers(old(record), record) && forall va: nat | lo <= va < hi :: record.Covers(va)
      ensures record ==
        if old(record).Ranges? && |old(record).ranges| < CAP then Ranges(old(record).ranges + [(lo, hi)]) else All
    {
      if record.Ranges? {
        if |record.ranges| < CAP {
          ghost var before := record.ranges;
          record := Ranges(record.ranges + [(lo, hi)]);
          assert record.ranges[|before|] == (lo, hi);
          assert forall i | 0 <= i < |before| :: record.ranges[i] == before[i];
        } else {
          record := All;
        }
      }
    }

    method InvalidateAll()
      modifies this
      ensures record == All && Remembers(old(record), record)
    {
      record := All;
    }
  }

  lemma {:induction false} RemembersRefl(r: Record)
    ensures Remembers(r, r)
  {
  }

  lemma {:induction false} RemembersTrans(a: Record, b: Record, c: Record)
    requires Remembers(a, b) && Remembers(b, c)
    ensures Remembers(a, c)
  {
  }

  // ---- Nothing more than needed ----

  /** How many tables at level `s` a range goes through. */
  function Spans(p: Paging, s: nat, lo: nat, hi: nat): nat
    requires s < |p.entries|
  {
    if lo < hi
      && PageNo(p, s + 1, lo) <= PageNo(p, s + 1, hi - 1) then PageNo(p, s + 1, hi - 1) - PageNo(p, s + 1, lo) + 1
    else 0
  }

  lemma {:induction false} SpansSplit(p: Paging, s: nat, lo: nat, mid: nat, hi: nat)
    requires s < |p.entries| && lo <= mid <= hi && (mid == lo || mid == hi || Aligned(p, s + 1, mid))
    ensures Spans(p, s, lo, hi) == Spans(p, s, lo, mid) + Spans(p, s, mid, hi)
  {
    hide PageNo, Size;
    if lo < mid < hi {
      PageMonotone(p, s + 1, lo, mid - 1);
      PageMonotone(p, s + 1, mid, hi - 1);
      PageMonotone(p, s + 1, lo, hi - 1);
      var b, n := Size(p, s + 1), PageNo(p, s + 1, mid);
      PageSpan(p, s + 1, mid, n);
      assert (n - 1) * b == n * b - b;
      PageSpan(p, s + 1, mid - 1, n - 1);
    }
  }

  lemma {:induction false} SpansOne(p: Paging, s: nat, lo: nat, hi: nat)
    requires s < |p.entries| && lo < hi && PageNo(p, s + 1, lo) == PageNo(p, s + 1, hi - 1)
    ensures Spans(p, s, lo, hi) == 1
  {
  }

  /** At most `n` ranges were added, all within `lo..hi`; everything will be flushed only if these would not fit or a
      table came or went. */
  ghost predicate Frugal(r: Record, r': Record, t: Node, t': Node, lo: nat, hi: nat, n: nat) {
    r.Ranges? ==>
      if r'.Ranges? then
        && r.ranges <= r'.ranges && |r'.ranges| <= |r.ranges| + n
        && forall i | |r.ranges| <= i < |r'.ranges| :: lo <= r'.ranges[i].0 && r'.ranges[i].1 <= hi
      else SameTables(t, t') ==> |r.ranges| + n > CAP
  }

  lemma {:induction false} FrugalRefl(r: Record, t: Node, lo: nat, hi: nat, n: nat)
    ensures Frugal(r, r, t, t, lo, hi, n)
  {
  }

  lemma {:induction false} FrugalMore(r: Record, r': Record, t: Node, t': Node, lo: nat, hi: nat, n: nat, hi': nat,
                                      n': nat)
    requires Frugal(r, r', t, t', lo, hi, n) && hi <= hi' && n <= n'
    ensures Frugal(r, r', t, t', lo, hi', n')
  {
    hide SameTables;
  }

  lemma {:induction false} SameInBetween(kind: Kind, t: Node, t1: Node, t2: Node)
    requires Ordered(kind, t, t1) && Ordered(kind, t1, t2) && SameTables(t, t2)
    ensures SameTables(t, t1) && SameTables(t1, t2)
  {
    hide Within;
    if !kind.Unmap? {
      WithinTrans(t1, t2, t);
      WithinTrans(t2, t, t1);
    } else {
      WithinTrans(t, t2, t1);
      WithinTrans(t1, t, t2);
    }
  }

  lemma {:induction false} FrugalTrans(kind: Kind, r: Record, r1: Record, r2: Record, t: Node, t1: Node, t2: Node,
                                       lo: nat, mid: nat, hi: nat, n: nat, m: nat)
    requires Ordered(kind, t, t1) && Ordered(kind, t1, t2) && lo <= mid <= hi && (r1.All? ==> r2.All?)
    requires Frugal(r, r1, t, t1, lo, mid, n) && Frugal(r1, r2, t1, t2, mid, hi, m)
    ensures Frugal(r, r2, t, t2, lo, hi, n + m)
  {
    hide Ordered, SameTables;
    if SameTables(t, t2) {
      SameInBetween(kind, t, t1, t2);
    }
    if r.Ranges? && r1.Ranges? && r2.Ranges? {
      assert forall i | |r.ranges| <= i < |r1.ranges| :: r2.ranges[i] == r1.ranges[i];
    }
  }

  /** Writing one run. */
  lemma {:induction false} FrugalRun(r: Record, r': Record, t: Node, t': Node, lo: nat, hi: nat)
    requires r' == if r.Ranges? && |r.ranges| < CAP then Ranges(r.ranges + [(lo, hi)]) else All
    ensures Frugal(r, r', t, t', lo, hi, 1)
  {
    hide SameTables;
  }

  /** Down through entry `i`, which may need a new table, along the part below it, and up, which may take one out. */
  lemma {:induction false} FrugalPart(kind: Kind, r: Record, r1: Record, r2: Record, r3: Record, t: Node, t1: Node,
                                      t2: Node, t3: Node, i: nat, u: Node, u': Node, lo: nat, hi: nat, n: nat)
    requires i < |t.slots| && |t1.slots| == |t.slots| && t1.slots[i] == Sub(u) && lo <= hi
    requires (t1 == t && r1 == r) || (kind.Map? && t.slots[i].Hole? && t1 == With(t, i, Sub(u)) && r1 == All)
    requires Frugal(r1, r2, u, u', lo, hi, n) && Ordered(kind, u, u') && t2 == With(t1, i, Sub(u'))
    requires Structural(r1, r2, u, u')
    requires (t3 == t2 && r3 == r2) || (kind.Unmap? && t3 == With(t2, i, Hole) && r3 == All)
    ensures Frugal(r, r3, t, t3, lo, hi, n) && Ordered(kind, t, t3)
  {
    hide Within;
    WithinRefl(t);
    WithinRefl(t1);
    WithinRefl(t2);
    assert With(t, i, t.slots[i]) == t && With(t1, i, Sub(u)) == t1 && With(t2, i, Sub(u')) == t2;
    assert Ordered(kind, t, t1) by {
      if t1 != t {
        WithinWith(t, t, i, Hole, Sub(u));
      }
    }
    OrderedSub(kind, t1, i, u');
    assert Ordered(kind, t2, t3) by {
      if t3 != t2 {
        WithinWith(t2, t2, i, Hole, Sub(u'));
      }
    }
    FrugalStep(r, r1, t, t1, lo, i);
    FrugalSub(r1, r2, t1, i, u', lo, hi, n);
    FrugalStep(r2, r3, t2, t3, hi, i);
    FrugalTrans(kind, r, r1, r2, t, t1, t2, lo, lo, hi, 0, n);
    OrderedTrans(kind, t, t1, t2);
    FrugalTrans(kind, r, r2, r3, t, t2, t3, lo, hi, hi, n, 0);
    OrderedTrans(kind, t, t2, t3);
  }

  /** A table that comes or goes makes everything flushed. */
  lemma {:induction false} FrugalStep(r: Record, r': Record, t: Node, t': Node, at: nat, i: nat)
    requires i < |t.slots| == |t'.slots|
    requires (t' == t && r' == r) || (t.slots[i].Sub? != t'.slots[i].Sub? && r' == All)
    ensures Frugal(r, r', t, t', at, at, 0)
  {
  }

  lemma {:induction false} FrugalSub(r: Record, r': Record, t: Node, i: nat, u: Node, lo: nat, hi: nat, n: nat)
    requires i < |t.slots| && t.slots[i].Sub? && Frugal(r, r', t.slots[i].node, u, lo, hi, n)
    ensures Frugal(r, r', t, With(t, i, Sub(u)), lo, hi, n)
  {
    var t' := With(t, i, Sub(u));
    assert t'.slots[i] == Sub(u);
  }
}
