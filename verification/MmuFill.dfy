/**
 Writing a run of leaf entries in one table (the `fill` of each visitor in lib/mem-mmu/src/address_space.rs:585-804).
 */
module Filling {
  import opened Pagings
  import opened EntryRanges
  import opened Tables
  import opened Effects

  /** The new value of a leaf entry. */
  function NewPte(kind: Kind, old_: Pte, phys: nat): Pte {
    match kind
    case Map(attrs) => Leaf(phys, attrs)
    case Remap => Leaf(phys, if old_.Leaf? then old_.attrs else 0)
    case SetAttributes(attrs) => Leaf(if old_.Leaf? then old_.phys else 0, attrs)
    case Unmap => Vacant
  }

  function NewSlot(kind: Kind, old_: Slot, phys: nat): Slot {
    match kind
    case Map(attrs) => Page(phys, attrs)
    case Remap => Page(phys, if old_.Page? then old_.attrs else 0)
    case SetAttributes(attrs) => Page(if old_.Page? then old_.phys else 0, attrs)
    case Unmap => Hole
  }

  /** The physical address for entry `i` of a run that starts at `first`. */
  function RunPhys(p: Paging, s: nat, first: nat, i: nat, phys: nat): nat
    requires s < |p.entries| && first <= i
  {
    phys + (i - first) * Size(p, s)
  }

  function Filled(kind: Kind, p: Paging, s: nat, t: Node, first: nat, count: nat, phys: nat): (r: Node)
    requires s < |p.entries|
    ensures |r.slots| == |t.slots| && r.frame == t.frame
    ensures forall i | 0 <= i < |t.slots| ::
      r.slots[i] == if first <= i < first + count then NewSlot(kind, t.slots[i], RunPhys(p, s, first, i, phys))
        else t.slots[i]
  {
    Node(t.frame, seq(|t.slots|, i requires 0 <= i < |t.slots| =>
      if first <= i < first + count then NewSlot(kind, t.slots[i], RunPhys(p, s, first, i, phys)) else t.slots[i]))
  }

  /** The run that an aligned range makes up. */
  ghost predicate IsRun(p: Paging, s: nat, start: nat, end: nat, first: nat, count: nat) {
    && s < |p.entries| && InOneTable(p, s, start, end) && Aligned(p, s, start) && Aligned(p, s, end)
    && first == IndexOf(p, s, start) && first + count == IndexOf(p, s, end - 1) + 1
  }

  /** Which entry of the run, if any, translates an address of the table. */
  lemma {:induction false} RunIndex(p: Paging, s: nat, start: nat, end: nat, first: nat, count: nat, va: nat)
    requires IsRun(p, s, start, end, first, count) && PageNo(p, s + 1, va) == PageNo(p, s + 1, start)
    ensures first <= IndexOf(p, s, va) < first + count <==> start <= va < end
    ensures start <= va < end ==> (IndexOf(p, s, va) - first) * Size(p, s) + va % Size(p, s) == va - start
  {
    hide PageNo, IndexOf, Size;
    var n, a, z, b := PageNo(p, s, va), PageNo(p, s, start), PageNo(p, s, end - 1), Size(p, s);
    SameIndex(p, s, start, va);
    SameIndex(p, s, va, end - 1);
    PageSpan(p, s, va, n);
    PageSpan(p, s, start, a);
    RunEnd(p, s, end);
    PageSpan(p, s, end - 1, z);
    if start <= va < end {
      PageMonotone(p, s, start, va);
      PageMonotone(p, s, va, end - 1);
      assert (n - a) * b == n * b - a * b;
    } else if va < start {
      if a <= n {
        Scale(a, n, b);
      }
    } else {
      if n <= z {
        Scale(n + 1, z + 1, b);
      }
    }
  }

  lemma {:induction false} RunEnd(p: Paging, s: nat, end: nat)
    requires s <= |p.entries| && end > 0 && Aligned(p, s, end)
    ensures end == (PageNo(p, s, end - 1) + 1) * Size(p, s)
  {
    hide Size;
    var b := Size(p, s);
    DivSpan(end, b, end / b);
    var m := end / b;
    assert end == m * b && m > 0;
    assert (m - 1) * b == m * b - b;
    DivSpan(end - 1, b, m - 1);
  }

  /** A run is as long as its range, and lies in its table. */
  lemma {:induction false} RunLength(p: Paging, s: nat, start: nat, end: nat, first: nat, count: nat)
    requires IsRun(p, s, start, end, first, count)
    ensures 0 < count && first + count <= p.entries[s] && count * Size(p, s) == end - start
  {
    hide PageNo, IndexOf, Size;
    var a, z, b := PageNo(p, s, start), PageNo(p, s, end - 1), Size(p, s);
    SameIndex(p, s, start, end - 1);
    PageMonotone(p, s, start, end - 1);
    IndexInTable(p, s, end - 1);
    RunEnd(p, s, end);
    PageSpan(p, s, start, a);
    assert (z + 1 - a) * b == (z + 1) * b - a * b;
  }

  lemma {:induction false} AlignedPlus(p: Paging, s: nat, phys: nat, n: nat)
    requires s <= |p.entries| && Aligned(p, s, phys)
    ensures Aligned(p, s, phys + n * Size(p, s))
  {
    hide Size;
    var b := Size(p, s);
    DivSpan(phys, b, phys / b);
    assert phys + n * b == (phys / b + n) * b;
    Multiple(phys / b + n, b);
  }

  ghost predicate NoTables(t: Node, first: nat, count: nat) {
    forall i | 0 <= i < |t.slots| && first <= i < first + count :: !t.slots[i].Sub?
  }

  lemma {:induction false} FilledWF(kind: Kind, p: Paging, s: nat, t: Node, first: nat, count: nat, phys: nat)
    requires WF(p, s, t) && (kind.TakesPhys() ==> Aligned(p, s, phys))
    ensures WF(p, s, Filled(kind, p, s, t, first, count, phys))
  {
    hide Aligned, Size;
    var r := Filled(kind, p, s, t, first, count, phys);
    forall i | 0 <= i < |r.slots| ensures SlotWF(p, s, r.slots[i]) {
      assert SlotWF(p, s, t.slots[i]);
      ZeroAligned(p, s);
      if first <= i && kind.TakesPhys() {
        AlignedPlus(p, s, phys, i - first);
      }
    }
  }

  lemma {:induction false} ZeroAligned(p: Paging, s: nat)
    requires s <= |p.entries|
    ensures Aligned(p, s, 0)
  {
  }

  lemma {:induction false} FilledOwns(kind: Kind, p: Paging, s: nat, t: Node, first: nat, count: nat, phys: nat, f: nat)
    requires s < |p.entries| && NoTables(t, first, count)
    ensures Owns(Filled(kind, p, s, t, first, count, phys), f) <==> Owns(t, f)
  {
    var r := Filled(kind, p, s, t, first, count, phys);
    if Owns(t, f) && f != t.frame {
      var i :| 0 <= i < |t.slots| && t.slots[i].Sub? && Owns(t.slots[i].node, f);
      assert r.slots[i] == t.slots[i];
    }
    if Owns(r, f) && f != t.frame {
      var i :| 0 <= i < |r.slots| && r.slots[i].Sub? && Owns(r.slots[i].node, f);
      assert r.slots[i] == t.slots[i];
    }
  }

  lemma {:induction false} FilledApart(kind: Kind, p: Paging, s: nat, t: Node, first: nat, count: nat, phys: nat)
    requires s < |p.entries| && NoTables(t, first, count) && Apart(t)
    ensures Apart(Filled(kind, p, s, t, first, count, phys))
  {
    var r := Filled(kind, p, s, t, first, count, phys);
    assert forall i | 0 <= i < |r.slots| && r.slots[i].Sub? :: r.slots[i] == t.slots[i];
  }

  lemma {:induction false} FilledRep(kind: Kind, p: Paging, s: nat, t: Node, first: nat, count: nat, phys: nat,
                                     mem: Memory, mem': Memory)
    requires s < |p.entries| && NoTables(t, first, count) && Rep(mem, t) && Apart(t)
    requires t.frame in mem' && |mem'[t.frame]| == |t.slots| && t.frame in mem && |mem[t.frame]| == |t.slots|
    requires forall i | 0 <= i < |t.slots| ::
      mem'[t.frame][i] == if first <= i < first + count then
        NewPte(kind, mem[t.frame][i], RunPhys(p, s, first, i, phys)) else mem[t.frame][i]
    requires forall f | f in mem && f != t.frame :: f in mem' && mem'[f] == mem[f]
    ensures Rep(mem', Filled(kind, p, s, t, first, count, phys))
  {
    var r := Filled(kind, p, s, t, first, count, phys);
    forall i | 0 <= i < |r.slots| && r.slots[i].Sub? ensures Rep(mem', r.slots[i].node) {
      assert r.slots[i] == t.slots[i];
      forall f | Owns(t.slots[i].node, f) ensures f in mem' && f in mem && mem'[f] == mem[f] {
        RepOwned(mem, t.slots[i].node, f);
      }
      RepFrame(mem, mem', t.slots[i].node);
    }
  }

  lemma {:induction false} FilledWithin(kind: Kind, p: Paging, s: nat, t: Node, first: nat, count: nat, phys: nat)
    requires s < |p.entries| && NoTables(t, first, count)
    ensures SameTables(t, Filled(kind, p, s, t, first, count, phys))
    ensures Ordered(kind, t, Filled(kind, p, s, t, first, count, phys))
  {
    var r := Filled(kind, p, s, t, first, count, phys);
    WithinRefl(t);
    assert forall i | 0 <= i < |r.slots| && (r.slots[i].Sub? || t.slots[i].Sub?) :: r.slots[i] == t.slots[i];
  }

  /** Filling the run of an aligned range has exactly the operation's effect on that range. */
  lemma {:induction false} FilledEffect(kind: Kind, p: Paging, s: nat, t: Node, start: nat, end: nat, first: nat,
                                        count: nat, phys: nat)
    requires WF(p, s, t) && IsRun(p, s, start, end, first, count) && NoTables(t, first, count)
    requires kind.TakesPhys() ==> Aligned(p, s, phys)
    requires forall va: nat | start <= va < end :: Allowed(kind, s, Find(p, s, t, va))
    ensures WF(p, s, Filled(kind, p, s, t, first, count, phys))
    ensures Effect(kind, p, s, s, PageNo(p, s + 1, start), t, Filled(kind, p, s, t, first, count, phys), start, end,
      phys)
  {
    hide PageNo, IndexOf, Size, Aligned;
    FilledWF(kind, p, s, t, first, count, phys);
    var r := Filled(kind, p, s, t, first, count, phys);
    forall va: nat | PageNo(p, s + 1, va) == PageNo(p, s + 1, start)
      ensures Find(p, s, r, va) == if start <= va < end then After(kind, s, Find(p, s, t, va), phys + (va - start))
        else Find(p, s, t, va)
    {
      RunIndex(p, s, start, end, first, count, va);
      IndexInTable(p, s, va);
    }
  }

  /** A table in the run would be a path that is not ready. */
  lemma {:induction false} ReadyNoTables(p: Paging, s: nat, t: Node, start: nat, end: nat, first: nat, count: nat)
    requires WF(p, s, t) && IsRun(p, s, start, end, first, count) && Ready(p, s, s, t, start, end)
    ensures NoTables(t, first, count)
  {
    hide PageNo, IndexOf, Size, Aligned;
    RunLength(p, s, start, end, first, count);
    forall i | 0 <= i < |t.slots| && first <= i < first + count ensures !t.slots[i].Sub? {
      var va := start + (i - first) * Size(p, s);
      RunAddress(p, s, start, end, first, count, i);
      assert ReadyAt(p, s, s, t, va);
    }
  }

  /** Every entry of the run translates an address of the range. */
  lemma {:induction false} RunAddress(p: Paging, s: nat, start: nat, end: nat, first: nat, count: nat, i: nat)
    requires IsRun(p, s, start, end, first, count) && first <= i < first + count
    ensures var va := start + (i - first) * Size(p, s); start <= va < end && IndexOf(p, s, va) == i
  {
    hide IndexOf, Size, PageNo;
    var b, d := Size(p, s), i - first;
    var va := start + d * b;
    RunLength(p, s, start, end, first, count);
    assert (d + 1) * b == d * b + b;
    Scale(d + 1, count, b);
    PageMonotone(p, s + 1, start, va);
    PageMonotone(p, s + 1, va, end - 1);
    SameIndex(p, s, start, va);
    var a := PageNo(p, s, start);
    PageSpan(p, s, start, a);
    assert a * b + d * b == (a + d) * b;
    assert (a + d + 1) * b == (a + d) * b + b;
    PageSpan(p, s, va, a + d);
  }

  lemma {:induction false} FilledReady(kind: Kind, p: Paging, s: nat, q: nat, t: Node, first: nat, count: nat,
                                       phys: nat)
    requires WF(p, s, t) && WF(p, s, Filled(kind, p, s, t, first, count, phys))
    ensures ReadyKept(p, s, s, q, t, Filled(kind, p, s, t, first, count, phys))
  {
    hide PageNo, IndexOf, Size;
    forall va: nat ensures IndexOf(p, s, va) < |t.slots| {
      IndexInTable(p, s, va);
    }
  }

  /** The tables of level `s` have no table below the run, and below other entries nothing changes. */
  lemma {:induction false} FilledTrims(kind: Kind, p: Paging, s: nat, t: Node, start: nat, end: nat, first: nat,
                                       count: nat, phys: nat)
    requires WF(p, s, t) && IsRun(p, s, start, end, first, count) && WF(p, s, Filled(kind, p, s, t, first, count, phys))
    ensures Trims(p, s, PageNo(p, s + 1, start), t, Filled(kind, p, s, t, first, count, phys), start, end, end)
    ensures !kind.Unmap? ==> !Hollow(Filled(kind, p, s, t, first, count, phys))
  {
    hide PageNo, IndexOf, Size, Aligned;
    var r, q := Filled(kind, p, s, t, first, count, phys), PageNo(p, s + 1, start);
    RunLength(p, s, start, end, first, count);
    assert !kind.Unmap? ==> !r.slots[first].Hole?;
    forall va: nat, j: nat | PageNo(p, s + 1, va) == q && j < s && EmptyAt(p, s, r, va, j)
      ensures EmptyAt(p, s, t, va, j) && !Touches(p, j + 1, va, start, end)
    {
      IndexInTable(p, s, va);
      RunIndex(p, s, start, end, first, count, va);
      if Touches(p, j + 1, va, start, end) {
        OnRun(p, s, start, end, first, count, va, j);
      }
    }
  }

  /** A small page that touches the range is below an entry of the run. */
  lemma {:induction false} OnRun(p: Paging, s: nat, start: nat, end: nat, first: nat, count: nat, va: nat, j: nat)
    requires IsRun(p, s, start, end, first, count) && PageNo(p, s + 1, va) == PageNo(p, s + 1, start)
    requires j < s && Touches(p, j + 1, va, start, end)
    ensures first <= IndexOf(p, s, va) < first + count
  {
    hide PageNo, IndexOf, Size, Aligned;
    TouchesUp(p, j + 1, s, va, start, end);
    var y: nat :| start <= y < end && PageNo(p, j + 1, y) == PageNo(p, j + 1, va)
      && PageNo(p, s, y) == PageNo(p, s, va);
    SamePageUp(p, s, y, va);
    RunIndex(p, s, start, end, first, count, y);
  }
}
