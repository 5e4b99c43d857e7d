/**
 The walk over the page tables (lib/mem-mmu/src/table.rs:236-354), the visitors that map, remap, change
 attributes and unmap on the way (lib/mem-mmu/src/address_space.rs:536-804).
 */
module Walks {
  import opened Options
  import opened Pagings
  import opened EntryRanges
  import opened Tables
  import opened Effects
  import opened Filling
  import opened Steps
  import opened Flushes

  /** The allocator's answers from request `a` up to request `b`, which left it with the frames `free`: nothing was
      refused, or the last request was, as it must be when there is no frame. */
  ghost predicate Answered(refuses: nat -> bool, a: nat, b: nat, free: set<nat>, granted: bool) {
    && a <= b && (forall i | a <= i < b && (granted || i + 1 < b) :: !refuses(i))
    && (!granted ==> a < b && (free == {} || refuses(b - 1)))
  }

  lemma {:induction false} AnsweredTrans(refuses: nat -> bool, a: nat, b: nat, c: nat, f: set<nat>, free: set<nat>,
                                         granted: bool)
    requires Answered(refuses, a, b, f, true) && Answered(refuses, b, c, free, granted)
    ensures Answered(refuses, a, c, free, granted)
  {
  }

  lemma {:induction false} AnsweredNone(refuses: nat -> bool, a: nat, free: set<nat>)
    ensures Answered(refuses, a, a, free, true)
  {
  }

  /** As long as nothing is refused it does not matter which frames are left. */
  lemma {:induction false} AnsweredFreed(refuses: nat -> bool, a: nat, b: nat, f: set<nat>, free: set<nat>)
    requires Answered(refuses, a, b, f, true)
    ensures Answered(refuses, a, b, free, true)
  {
  }

  /** Physical memory, as far as it holds page tables, and the frames that may become one. The allocator may refuse any
      request: `refuses` says which. */
  class Machine {
    const p: Paging
    const refuses: nat -> bool
    var mem: Memory
    var free: set<nat>
    var asked: nat

    constructor (p': Paging, frames: set<nat>, refuses': nat -> bool)
      ensures p == p' && refuses == refuses' && mem == map[] && free == frames && asked == 0
    {
      p, refuses, mem, free, asked := p', refuses', map[], frames, 0;
    }

    /** A zeroed frame for a table at level `k`, unless there is none or the allocator refuses. */
    method AllocateZeroed(k: nat) returns (frame: Option<nat>)
      requires k < |p.entries|
      modifies this
      ensures asked == old(asked) + 1 && (frame.None? <==> old(free) == {} || refuses(old(asked)))
      ensures frame.None? ==> mem == old(mem) && free == old(free)
      ensures frame.Some? ==> frame.value in old(free) && free == old(free) - {frame.value}
                              && mem == old(mem)[frame.value := seq(p.entries[k], _ => Vacant)]
    {
      asked := asked + 1;
      if free == {} || refuses(asked - 1) {
        return None;
      }
      var f :| f in free;
      free := free - {f};
      mem := mem[f := seq(p.entries[k], _ => Vacant)];
      frame := Some(f);
    }

    method Deallocate(frame: nat)
      modifies this`free
      ensures free == old(free) + {frame}
    {
      free := free + {frame};
    }

    method Set(table: nat, i: nat, pte: Pte)
      requires table in mem && i < |mem[table]|
      modifies this`mem
      ensures mem == old(mem)[table := old(mem)[table][i := pte]]
    {
      mem := mem[table := mem[table][i := pte]];
    }

    method IsEmpty(table: nat) returns (empty: bool)
      requires table in mem
      ensures empty <==> forall i | 0 <= i < |mem[table]| :: mem[table][i].Vacant?
    {
      for i := 0 to |mem[table]|
        invariant forall j | 0 <= j < i :: mem[table][j].Vacant?
      {
        if !mem[table][i].Vacant? {
          return false;
        }
      }
      empty := true;
    }
  }

  class Visitor {
    const machine: Machine
    const flush: Flush
    const kind: Kind
    const s: nat
    var phys: nat

    constructor (m: Machine, f: Flush, kind': Kind, s': nat, phys': nat)
      ensures machine == m && flush == f && kind == kind' && s == s' && phys == phys'
    {
      machine, flush, kind, s, phys := m, f, kind', s', phys';
    }

    /** The table to go down to: the one that is there, or for mapping a new one. */
    method Descend(k: nat, table: nat, i: nat, ghost t: Node) returns (ok: bool, child: Option<nat>, ghost t': Node)
      requires Good(machine.p, k, machine.mem, machine.free, t) && table == t.frame && k > 0
      requires i < |t.slots| && !t.slots[i].Page?
      modifies machine, flush
      ensures Good(machine.p, k, machine.mem, machine.free, t') && t'.frame == table
      ensures Kept(t, old(machine.mem), old(machine.free), t', machine.mem, machine.free)
      ensures t.slots[i].Sub? ==> ok && child == Some(t.slots[i].node.frame) && t' == t
      ensures t.slots[i].Hole? && !kind.Map? ==> ok && child == None && t' == t
      ensures t.slots[i].Hole? && kind.Map? && !ok ==> t' == t
      ensures Answered(machine.refuses, old(machine.asked), machine.asked, machine.free, ok)
      ensures !kind.Map? ==> machine.asked == old(machine.asked)
      ensures t.slots[i].Hole? && kind.Map? && ok ==>
        child.Some? && t' == With(t, i, Sub(Blank(machine.p, k - 1, child.value)))
      ensures Remembers(old(flush.record), flush.record) && flush.record == if t' == t then old(flush.record) else All
    {
      hide Owns, Apart, Remembers, Kept;
      TableEntry(machine.p, k, machine.mem, t, i);
      KeptRefl(t, machine.mem, machine.free);
      RemembersRefl(flush.record);
      t' := t;
      var entry := machine.mem[table][i];
      if entry.Table? {
        return true, Some(entry.frame), t;
      }
      if !kind.Map? {
        return true, None, t;
      }
      ghost var mem, free := machine.mem, machine.free;
      var frame := machine.AllocateZeroed(k - 1);
      if frame.None? {
        return false, None, t;
      }
      NotFree(machine.p, k, mem, free, t, frame.value);
      machine.Set(table, i, Table(frame.value));
      flush.InvalidateAll();
      Grown(machine.p, k, mem, free, t, i, frame.value, machine.mem);
      ok, child, t' := true, frame, With(t, i, Sub(Blank(machine.p, k - 1, frame.value)));
    }

    /** On the way up, unmapping takes out a table that has no entries left. */
    method Ascend(k: nat, table: nat, i: nat, child: nat, ghost t: Node) returns (ghost t': Node)
      requires Good(machine.p, k, machine.mem, machine.free, t) && table == t.frame && k > 0
      requires i < |t.slots| && t.slots[i].Sub? && t.slots[i].node.frame == child
      modifies machine, flush
      ensures Good(machine.p, k, machine.mem, machine.free, t') && t'.frame == table
      ensures Kept(t, old(machine.mem), old(machine.free), t', machine.mem, machine.free)
      ensures t' == if kind.Unmap? && Hollow(t.slots[i].node) then With(t, i, Hole) else t
      ensures machine.asked == old(machine.asked)
      ensures Remembers(old(flush.record), flush.record) && flush.record == if t' == t then old(flush.record) else All
    {
      hide Owns, Apart, Remembers, Kept;
      RemembersRefl(flush.record);
      KeptRefl(t, machine.mem, machine.free);
      t' := t;
      if kind.Unmap? {
        TableEntry(machine.p, k, machine.mem, t, i);
        HollowTest(machine.mem, t.slots[i].node);
        var empty := machine.IsEmpty(child);
        if empty {
          ghost var mem, free := machine.mem, machine.free;
          machine.Set(table, i, Vacant);
          machine.Deallocate(child);
          flush.InvalidateAll();
          Pruned(machine.p, k, mem, free, t, i, machine.mem);
          t' := With(t, i, Hole);
        }
      }
    }

    /** Writes the leaf entries of a run, one after the other. */
    method WriteRun(table: nat, first: nat, count: nat)
      requires s < |machine.p.entries| && table in machine.mem && first + count <= |machine.mem[table]|
      modifies this, machine`mem
      ensures phys == old(phys) + if kind.TakesPhys() then count * Size(machine.p, s) else 0
      ensures table in machine.mem && |machine.mem[table]| == |old(machine.mem)[table]|
      ensures forall i | 0 <= i < |machine.mem[table]| ::
        machine.mem[table][i] == if first <= i < first + count then
          NewPte(kind, old(machine.mem)[table][i], RunPhys(machine.p, s, first, i, old(phys)))
                                 else old(machine.mem)[table][i]
      ensures forall f | f in old(machine.mem) && f != table ::
        f in machine.mem && machine.mem[f] == old(machine.mem)[f]
    {
      hide Size;
      var p := machine.p;
      ghost var mem, phys0, n := machine.mem, phys, |machine.mem[table]|;
      var size := Size(p, s);
      for j := 0 to count
        invariant table in machine.mem && |machine.mem[table]| == n
        invariant phys == phys0 + if kind.TakesPhys() then j * size else 0
        invariant forall i | 0 <= i < n ::
          machine.mem[table][i] == if first <= i < first + j then
            NewPte(kind, mem[table][i], RunPhys(p, s, first, i, phys0)) else mem[table][i]
        invariant forall f | f in mem && f != table :: f in machine.mem && machine.mem[f] == mem[f]
      {
        var entry := machine.mem[table][first + j];
        SamePte(kind, p, s, entry, phys, first, first + j, phys0);
        machine.Set(table, first + j, NewPte(kind, entry, phys));
        NextPhys(j, size);
        if kind.TakesPhys() {
          phys := phys + size;
        }
      }
    }

    method Fill(table: nat, first: nat, count: nat, va: nat, ghost t: Node, ghost end: nat) returns (ghost t': Node)
      requires Good(machine.p, s, machine.mem, machine.free, t) && table == t.frame
      requires IsRun(machine.p, s, va, end, first, count) && Entering(kind, machine.p, s, s, t, va, end)
      requires kind.TakesPhys() ==> Aligned(machine.p, s, phys)
      modifies this, machine, flush
      ensures Good(machine.p, s, machine.mem, machine.free, t') && t'.frame == table
      ensures Kept(t, old(machine.mem), old(machine.free), t', machine.mem, machine.free)
      ensures Leaving(kind, machine.p, s, s, t, t', va, end, end, true, old(phys))
      ensures machine.asked == old(machine.asked)
      ensures phys == old(phys) + if kind.TakesPhys() then end - va else 0
      ensures Remembers(old(flush.record), flush.record) && Recorded(kind, machine.p, s, t, va, end, flush.record)
      ensures Structural(old(flush.record), flush.record, t, t')
      ensures Frugal(old(flush.record), flush.record, t, t', va, end, Spans(machine.p, s, va, end))
    {
      hide Owns, Apart, Remembers, Kept, Leaving, IsRun, Aligned, WF, PageNo, IndexOf, NewPte, Rep, Ready, ReadyKept;
      hide Trims, AllowedIn, Size, Find;
      var p := machine.p;
      ghost var mem, phys0, record := machine.mem, phys, flush.record;
      RunLength(p, s, va, end, first, count);
      TableSize(p, s, mem, t);
      WriteRun(table, first, count);
      flush.Invalidate(va, va + count * Size(p, s));
      t' := Filled(kind, p, s, t, first, count, phys0);
      RunSpans(p, s, va, end, first, count);
      FrugalRun(record, flush.record, t, t', va, end);
      FillStructure(kind, p, s, t, va, end, first, count, phys0);
      FillDone(kind, p, s, t, va, end, first, count, phys0, mem, machine.mem, machine.free);
    }

    /** The general walk: one run in a leaf table, or one part after the other in the tables below. */
    method VisitRange(k: nat, table: nat, start: nat, end: nat, ghost t: Node)
      returns (ok: bool, ghost t': Node, ghost upto: nat)
      requires Good(machine.p, k, machine.mem, machine.free, t) && table == t.frame
      requires Entering(kind, machine.p, k, s, t, start, end)
      requires kind.TakesPhys() ==> Aligned(machine.p, s, phys)
      modifies this, machine, flush
      ensures Good(machine.p, k, machine.mem, machine.free, t') && t'.frame == table
      ensures Kept(t, old(machine.mem), old(machine.free), t', machine.mem, machine.free)
      ensures Leaving(kind, machine.p, k, s, t, t', start, end, upto, ok, old(phys))
      ensures Answered(machine.refuses, old(machine.asked), machine.asked, machine.free, ok)
      ensures !kind.Map? ==> machine.asked == old(machine.asked)
      ensures phys == old(phys) + if kind.TakesPhys() then upto - start else 0
      ensures Remembers(old(flush.record), flush.record) && Recorded(kind, machine.p, k, t, start, upto, flush.record)
      ensures Structural(old(flush.record), flush.record, t, t')
      ensures Frugal(old(flush.record), flush.record, t, t', start, end, Spans(machine.p, s, start, end))
      decreases k, 1
    {
      hide Owns, Apart, Remembers, Kept, Leaving, Entering, Walking, IsRun, IsPart, Aligned, WF, PageNo, IndexOf, Size;
      hide PartEnd, Good, Recorded, Structural, Frugal, Ordered, Spans;
      var p := machine.p;
      EnteringFacts(kind, p, k, s, t, start, end);
      if k == s {
        var first, last := IndexOf(p, k, start), IndexOf(p, k, end - 1);
        t' := Fill(table, first, last - first + 1, start, t, end);
        return true, t', end;
      }
      ghost var mem, free, record, phys0, asked := machine.mem, machine.free, flush.record, phys, machine.asked;
      ghost var cur, pos := t, start;
      WalkingStart(kind, p, k, s, t, start, end, phys);
      KeptRefl(t, mem, free);
      RemembersRefl(record);
      NothingRecorded(kind, p, k, t, start, record);
      StructuralRefl(record, t);
      FrugalRefl(record, t, start, start, Spans(p, s, start, start));
      var entries := new PageTableEntries(p, k, start, end);
      var part := entries.Next();
      while part.Some?
        invariant entries.Valid() && entries.p == p && entries.k == k && entries.max == end && fresh(entries)
        invariant pos <= end
        invariant (part.Some? ==> pos < end && part.value == Part(IndexOf(p, k, pos), pos, PartEnd(p, k, pos, end)))
        invariant if part.Some? then entries.pageStart == part.value.hi else pos == end
        invariant Good(p, k, machine.mem, machine.free, cur) && Kept(t, mem, free, cur, machine.mem, machine.free)
        invariant Walking(kind, p, k, s, t, cur, start, pos, end, phys0)
        invariant start <= pos && phys == phys0 + if kind.TakesPhys() then pos - start else 0
        invariant kind.TakesPhys() ==> Aligned(p, s, phys)
        invariant Remembers(record, flush.record) && Recorded(kind, p, k, t, start, pos, flush.record)
        invariant cur.frame == table
        invariant Structural(record, flush.record, t, cur)
        invariant Frugal(record, flush.record, t, cur, start, pos, Spans(p, s, start, pos))
        invariant Answered(machine.refuses, asked, machine.asked, machine.free, true)
        invariant !kind.Map? ==> machine.asked == asked
        decreases end - pos
      {
        var index, lo, hi := part.value.index, part.value.lo, part.value.hi;
        ghost var r, prev, a, f := flush.record, cur, machine.asked, machine.free;
        NextPart(kind, p, k, s, t, cur, start, pos, end, phys0);
        ok, cur, upto := VisitPart(k, table, index, lo, hi, t, cur, start, end, mem, free, phys0);
        RemembersTrans(record, r, flush.record);
        MoreRecorded(kind, p, k, s, t, prev, start, pos, end, phys0, upto, r, flush.record);
        StructuralTrans(record, r, flush.record, t, prev, cur);
        AnsweredTrans(machine.refuses, asked, a, machine.asked, f, machine.free, ok);
        FrugalWalk(kind, p, k, s, t, prev, cur, start, pos, hi, end, phys0, record, r, flush.record);
        if !ok {
          return false, cur, upto;
        }
        pos := hi;
        part := entries.Next();
      }
      WalkingEnd(kind, p, k, s, t, cur, start, end, phys0);
      ok, t', upto := true, cur, end;
    }

    /** One part of the range: down into its table, which is made if missing, and up again. */
    method VisitPart(k: nat, table: nat, i: nat, lo: nat, hi: nat, ghost t: Node, ghost cur: Node, ghost start: nat,
                     ghost end: nat, ghost mem: Memory, ghost free: set<nat>, ghost phys0: nat)
      returns (ok: bool, ghost cur': Node, ghost upto: nat)
      requires Good(machine.p, k, machine.mem, machine.free, cur) && table == cur.frame && k < |machine.p.entries|
      requires s < |machine.p.entries|
      requires Kept(t, mem, free, cur, machine.mem, machine.free)
      requires Walking(kind, machine.p, k, s, t, cur, start, lo, end, phys0) && IsPart(machine.p, k, start, lo, hi, end)
      requires Aligned(machine.p, s, hi) && i == IndexOf(machine.p, k, lo) < |cur.slots|
      requires start <= lo && phys == phys0 + if kind.TakesPhys() then lo - start else 0
      requires kind.TakesPhys() ==> Aligned(machine.p, s, phys)
      modifies this, machine, flush
      ensures Good(machine.p, k, machine.mem, machine.free, cur') && cur'.frame == table
      ensures Kept(t, mem, free, cur', machine.mem, machine.free)
      ensures lo <= upto <= hi && phys == phys0 + if kind.TakesPhys() then upto - start else 0
      ensures if ok then upto == hi && Walking(kind, machine.p, k, s, t, cur', start, hi, end, phys0)
              else Leaving(kind, machine.p, k, s, t, cur', start, end, upto, false, phys0)
      ensures Answered(machine.refuses, old(machine.asked), machine.asked, machine.free, ok)
      ensures !kind.Map? ==> machine.asked == old(machine.asked)
      ensures ok && kind.TakesPhys() ==> Aligned(machine.p, s, phys)
      ensures Remembers(old(flush.record), flush.record) && Recorded(kind, machine.p, k, cur, lo, upto, flush.record)
      ensures Structural(old(flush.record), flush.record, cur, cur') && Ordered(kind, cur, cur')
      ensures Frugal(old(flush.record), flush.record, cur, cur', lo, hi, Spans(machine.p, s, lo, hi))
      decreases k, 0
    {
      hide Owns, Apart, Remembers, Kept, Leaving, Entering, Walking, IsPart, Aligned, WF, PageNo, IndexOf, Size, Good;
      hide Hollow, Recorded, Frugal, Ordered, Spans, Structural, Answered;
      var p := machine.p;
      ghost var m0, f0, r0, a0 := machine.mem, machine.free, flush.record, machine.asked;
      PartFacts(kind, p, k, s, t, cur, start, lo, hi, end, phys0, i);
      var child;
      ghost var cur1;
      ok, child, cur1 := Descend(k, table, i, cur);
      KeptTrans(t, mem, free, cur, m0, f0, cur1, machine.mem, machine.free);
      NothingRecorded(kind, p, k, cur, lo, flush.record);
      StructuralRefl(r0, cur);
      StructuralAll(r0, cur, cur1);
      FrugalRefl(r0, cur, lo, hi, Spans(p, s, lo, hi));
      OrderedRefl(kind, cur);
      if !ok {
        AbortHere(kind, p, k, s, t, cur, start, lo, end, phys0, i);
        return false, cur1, lo;
      }
      if child.None? {
        HoleRecorded(kind, p, k, s, t, cur, start, lo, hi, end, phys0, i, flush.record);
        SkipPart(kind, p, k, s, t, cur, start, lo, hi, end, phys0, i);
        return true, cur1, hi;
      }
      DescendedFacts(kind, p, k, s, t, cur, cur1, start, lo, hi, end, phys0, i, child.value);
      GoodSub(p, k, machine.mem, machine.free, cur1, i);
      ghost var m1, f1, r1, u, ph, a1 := machine.mem, machine.free, flush.record, cur1.slots[i].node, phys,
        machine.asked;
      ghost var u';
      ok, u', upto := VisitRange(k - 1, child.value, lo, hi, u);
      AnsweredTrans(machine.refuses, a0, a1, machine.asked, f1, machine.free, ok);
      RemembersTrans(r0, r1, flush.record);
      LeavingFacts(kind, p, k - 1, s, u, u', lo, hi, upto, ok, ph);
      SubRecorded(kind, p, k, s, cur, cur1, i, start, lo, hi, end, upto, flush.record);
      SubChanged(p, k, m1, f1, cur1, i, machine.mem, machine.free, u');
      cur' := With(cur1, i, Sub(u'));
      StructuralSub(r1, flush.record, cur1, i, u');
      StructuralTrans(r0, r1, flush.record, cur, cur1, cur');
      KeptTrans(t, mem, free, cur1, m1, f1, cur', machine.mem, machine.free);
      FrugalPart(kind, r0, r1, flush.record, flush.record, cur, cur1, cur', cur', i, u, u', lo, hi,
                 Spans(p, s, lo, hi));
      if !ok {
        AbortPart(kind, p, k, s, t, cur1, start, lo, hi, end, phys0, ph, i, u', upto);
        return;
      }
      ghost var m2, f2, r2, cur2 := machine.mem, machine.free, flush.record, cur';
      cur' := Ascend(k, table, i, child.value, cur2);
      AnsweredFreed(machine.refuses, a0, machine.asked, f2, machine.free);
      RemembersTrans(r0, r2, flush.record);
      StillRecorded(kind, p, k, cur, lo, hi, r2, flush.record);
      StructuralRefl(r2, cur2);
      StructuralAll(r2, cur2, cur');
      StructuralTrans(r0, r2, flush.record, cur, cur2, cur');
      KeptTrans(t, mem, free, cur2, m2, f2, cur', machine.mem, machine.free);
      FrugalPart(kind, r0, r1, r2, flush.record, cur, cur1, cur2, cur', i, u, u', lo, hi, Spans(p, s, lo, hi));
      if kind.Unmap? && Hollow(u') {
        PrunePart(kind, p, k, s, t, cur1, start, lo, hi, end, phys0, ph, i, u', upto);
        assert With(cur2, i, Hole) == With(cur1, i, Hole);
      } else {
        KeepPart(kind, p, k, s, t, cur1, start, lo, hi, end, phys0, ph, i, u', upto);
      }
      AlignedOn(kind, p, s, ph, lo, hi);
    }

    /** The shortcut for a single page: straight down to its entry. */
    method VisitLeaf(k: nat, table: nat, va: nat, ghost t: Node) returns (ok: bool, ghost t': Node, ghost upto: nat)
      requires Good(machine.p, k, machine.mem, machine.free, t) && table == t.frame && s < |machine.p.entries|
      requires Entering(kind, machine.p, k, s, t, va, va + Size(machine.p, s))
      requires kind.TakesPhys() ==> Aligned(machine.p, s, phys)
      modifies this, machine, flush
      ensures Good(machine.p, k, machine.mem, machine.free, t') && t'.frame == table
      ensures Kept(t, old(machine.mem), old(machine.free), t', machine.mem, machine.free)
      ensures Leaving(kind, machine.p, k, s, t, t', va, va + Size(machine.p, s), upto, ok, old(phys))
      ensures Answered(machine.refuses, old(machine.asked), machine.asked, machine.free, ok)
      ensures !kind.Map? ==> machine.asked == old(machine.asked)
      ensures phys == old(phys) + if kind.TakesPhys() then upto - va else 0
      ensures Remembers(old(flush.record), flush.record) && Recorded(kind, machine.p, k, t, va, upto, flush.record)
      ensures Structural(old(flush.record), flush.record, t, t')
      ensures Frugal(old(flush.record), flush.record, t, t', va, va + Size(machine.p, s),
        Spans(machine.p, s, va, va + Size(machine.p, s)))
      decreases k
    {
      hide Owns, Apart, Remembers, Kept, Leaving, Entering, Walking, IsRun, IsPart, Aligned, WF, PageNo, IndexOf, Size;
      hide Good, Hollow, Recorded, Frugal, Ordered, Spans, Structural, Answered;
      var p := machine.p;
      ghost var end, m0, f0, r0, ph, a0 := va + Size(p, s), machine.mem, machine.free, flush.record, phys,
        machine.asked;
      EnteringFacts(kind, p, k, s, t, va, end);
      SinglePage(kind, p, k, s, t, va, end, ph);
      var i := IndexOf(p, k, va);
      if k == s {
        t' := Fill(table, i, 1, va, t, end);
        AnsweredNone(machine.refuses, a0, machine.free);
        return true, t', end;
      }
      PartFacts(kind, p, k, s, t, t, va, va, end, end, ph, i);
      var child;
      ghost var cur1;
      ok, child, cur1 := Descend(k, table, i, t);
      NothingRecorded(kind, p, k, t, va, flush.record);
      StructuralRefl(r0, t);
      StructuralAll(r0, t, cur1);
      FrugalRefl(r0, t, va, end, Spans(p, s, va, end));
      if !ok {
        AbortHere(kind, p, k, s, t, t, va, va, end, ph, i);
        return false, cur1, va;
      }
      if child.None? {
        HoleRecorded(kind, p, k, s, t, t, va, va, end, end, ph, i, flush.record);
        SkipPart(kind, p, k, s, t, t, va, va, end, end, ph, i);
        WalkingEnd(kind, p, k, s, t, t, va, end, ph);
        return true, cur1, end;
      }
      DescendedFacts(kind, p, k, s, t, t, cur1, va, va, end, end, ph, i, child.value);
      GoodSub(p, k, machine.mem, machine.free, cur1, i);
      ghost var m1, f1, r1, u, a1 := machine.mem, machine.free, flush.record, cur1.slots[i].node, machine.asked;
      ghost var u';
      ok, u', upto := VisitLeaf(k - 1, child.value, va, u);
      AnsweredTrans(machine.refuses, a0, a1, machine.asked, f1, machine.free, ok);
      RemembersTrans(r0, r1, flush.record);
      LeavingFacts(kind, p, k - 1, s, u, u', va, end, upto, ok, ph);
      SubRecorded(kind, p, k, s, t, cur1, i, va, va, end, end, upto, flush.record);
      SubChanged(p, k, m1, f1, cur1, i, machine.mem, machine.free, u');
      t' := With(cur1, i, Sub(u'));
      StructuralSub(r1, flush.record, cur1, i, u');
      StructuralTrans(r0, r1, flush.record, t, cur1, t');
      KeptTrans(t, m0, f0, cur1, m1, f1, t', machine.mem, machine.free);
      FrugalPart(kind, r0, r1, flush.record, flush.record, t, cur1, t', t', i, u, u', va, end, Spans(p, s, va, end));
      if !ok {
        AbortPart(kind, p, k, s, t, cur1, va, va, end, end, ph, ph, i, u', upto);
        return;
      }
      ghost var m2, f2, r2, cur2 := machine.mem, machine.free, flush.record, t';
      t' := Ascend(k, table, i, child.value, cur2);
      AnsweredFreed(machine.refuses, a0, machine.asked, f2, machine.free);
      RemembersTrans(r0, r2, flush.record);
      StillRecorded(kind, p, k, t, va, end, r2, flush.record);
      StructuralRefl(r2, cur2);
      StructuralAll(r2, cur2, t');
      StructuralTrans(r0, r2, flush.record, t, cur2, t');
      KeptTrans(t, m0, f0, cur2, m2, f2, t', machine.mem, machine.free);
      FrugalPart(kind, r0, r1, r2, flush.record, t, cur1, cur2, t', i, u, u', va, end, Spans(p, s, va, end));
      if kind.Unmap? && Hollow(u') {
        PrunePart(kind, p, k, s, t, cur1, va, va, end, end, ph, ph, i, u', upto);
        assert With(cur2, i, Hole) == With(cur1, i, Hole);
      } else {
        KeepPart(kind, p, k, s, t, cur1, va, va, end, end, ph, ph, i, u', upto);
      }
      WalkingEnd(kind, p, k, s, t, t', va, end, ph);
    }

    /** Single pages take the shortcut. */
    method Visit(k: nat, table: nat, start: nat, end: nat, ghost t: Node)
      returns (ok: bool, ghost t': Node, ghost upto: nat)
      requires Good(machine.p, k, machine.mem, machine.free, t) && table == t.frame && s < |machine.p.entries|
      requires Entering(kind, machine.p, k, s, t, start, end)
      requires kind.TakesPhys() ==> Aligned(machine.p, s, phys)
      modifies this, machine, flush
      ensures Good(machine.p, k, machine.mem, machine.free, t') && t'.frame == table
      ensures Kept(t, old(machine.mem), old(machine.free), t', machine.mem, machine.free)
      ensures Leaving(kind, machine.p, k, s, t, t', start, end, upto, ok, old(phys))
      ensures Answered(machine.refuses, old(machine.asked), machine.asked, machine.free, ok)
      ensures !kind.Map? ==> machine.asked == old(machine.asked)
      ensures phys == old(phys) + if kind.TakesPhys() then upto - start else 0
      ensures Remembers(old(flush.record), flush.record) && Recorded(kind, machine.p, k, t, start, upto, flush.record)
      ensures Structural(old(flush.record), flush.record, t, t')
      ensures Frugal(old(flush.record), flush.record, t, t', start, end, Spans(machine.p, s, start, end))
    {
      hide *;
      if end == start + Size(machine.p, s) {
        ok, t', upto := VisitLeaf(k, table, start, t);
      } else {
        ok, t', upto := VisitRange(k, table, start, end, t);
      }
    }
  }

  // ---- What the steps rely on ----

  lemma {:induction false} OrderedRefl(kind: Kind, t: Node)
    ensures Ordered(kind, t, t)
  {
    hide Within;
    WithinRefl(t);
  }

  lemma {:induction false} RunSpans(p: Paging, s: nat, start: nat, end: nat, first: nat, count: nat)
    requires IsRun(p, s, start, end, first, count)
    ensures Spans(p, s, start, end) == 1
  {
    hide PageNo, IndexOf;
    SpansOne(p, s, start, end);
  }

  /** The walk has been frugal up to the end of the part, and so up to the end of the range. */
  lemma {:induction false} FrugalWalk(kind: Kind, p: Paging, k: nat, s: nat, t: Node, prev: Node, cur: Node, start: nat,
                                      pos: nat, hi: nat, end: nat, phys: nat, r: Record, r1: Record, r2: Record)
    requires Walking(kind, p, k, s, t, prev, start, pos, end, phys) && IsPart(p, k, start, pos, hi, end)
    requires s < |p.entries| && Ordered(kind, prev, cur) && Structural(r1, r2, prev, cur)
    requires Frugal(r, r1, t, prev, start, pos, Spans(p, s, start, pos))
    requires Frugal(r1, r2, prev, cur, pos, hi, Spans(p, s, pos, hi))
    ensures Frugal(r, r2, t, cur, start, hi, Spans(p, s, start, hi))
    ensures Frugal(r, r2, t, cur, start, end, Spans(p, s, start, end))
  {
    hide WF, Effect, Ready, ReadyKept, Trims, AllowedIn, Ordered, Frugal, Spans, Size, PageNo;
    PartAligned(p, k, start, pos, hi, end);
    if pos != start {
      AlignedFiner(p, s + 1, k, pos);
    }
    if hi != end {
      AlignedFiner(p, s + 1, k, hi);
    }
    SpansSplit(p, s, start, pos, hi);
    SpansSplit(p, s, start, hi, end);
    FrugalTrans(kind, r, r1, r2, t, prev, cur, start, pos, hi, Spans(p, s, start, pos), Spans(p, s, pos, hi));
    FrugalMore(r, r2, t, cur, start, hi, Spans(p, s, start, hi), end, Spans(p, s, start, end));
  }

  lemma {:induction false} AlignedFiner(p: Paging, s: nat, k: nat, va: nat)
    requires s <= k <= |p.entries| && Aligned(p, k, va)
    ensures Aligned(p, s, va)
  {
    PageSpan(p, k, va, PageNo(p, k, va));
    AlignedDown(p, s, k, PageNo(p, k, va));
  }

  lemma {:induction false} NothingRecorded(kind: Kind, p: Paging, k: nat, t: Node, lo: nat, r: Record)
    requires WF(p, k, t)
    ensures Recorded(kind, p, k, t, lo, lo, r)
  {
  }

  lemma {:induction false} StillRecorded(kind: Kind, p: Paging, k: nat, t: Node, lo: nat, hi: nat, r: Record,
                                         r': Record)
    requires WF(p, k, t) && Recorded(kind, p, k, t, lo, hi, r) && Remembers(r, r')
    ensures Recorded(kind, p, k, t, lo, hi, r')
  {
    hide Find;
  }

  /** Where nothing is mapped there is nothing to flush. */
  lemma {:induction false} HoleRecorded(kind: Kind, p: Paging, k: nat, s: nat, t: Node, cur: Node, start: nat, pos: nat,
                                        hi: nat, end: nat, phys: nat, i: nat, r: Record)
    requires Walking(kind, p, k, s, t, cur, start, pos, end, phys) && IsPart(p, k, start, pos, hi, end)
    requires Aligned(p, s, hi) && kind.Unmap?
    requires WF(p, k, cur) && i == IndexOf(p, k, pos) < |cur.slots| && cur.slots[i].Hole?
    ensures Recorded(kind, p, k, cur, pos, hi, r)
  {
    hide WF, Effect, Ready, ReadyKept, Trims, AllowedIn, Ordered, PageNo, IndexOf, Aligned, Find;
    EnterPart(kind, p, k, s, t, cur, start, pos, hi, end, phys, i);
  }

  /** What is recorded below an entry is recorded for the part. */
  lemma {:induction false} SubRecorded(kind: Kind, p: Paging, k: nat, s: nat, cur: Node, cur1: Node, i: nat, start: nat,
                                       lo: nat, hi: nat, end: nat, upto: nat, r: Record)
    requires WF(p, k, cur) && WF(p, k, cur1) && k > 0 && IsPart(p, k, start, lo, hi, end) && upto <= hi
    requires i == IndexOf(p, k, lo) < |cur1.slots| && cur1.slots[i].Sub? && WF(p, k - 1, cur1.slots[i].node)
    requires kind.Unmap? ==> cur1 == cur
    requires Recorded(kind, p, k - 1, cur1.slots[i].node, lo, upto, r)
    ensures Recorded(kind, p, k, cur, lo, upto, r)
  {
    hide WF, PageNo, IndexOf, Find;
    var u := cur1.slots[i].node;
    forall x: nat | lo <= x < upto && (kind.Unmap? ==> Find(p, k, cur, x).Some?) ensures r.Covers(x) {
      PartIndex(p, k, lo, hi, x);
      FindWith(p, k, cur1, i, Sub(u), x);
      assert With(cur1, i, Sub(u)) == cur1;
      assert Find(p, k, cur1, x) == Find(p, k - 1, u, x);
    }
  }

  lemma {:induction false} MoreRecorded(kind: Kind, p: Paging, k: nat, s: nat, t: Node, cur: Node, start: nat, pos: nat,
                                        end: nat, phys: nat, upto: nat, r: Record, r': Record)
    requires WF(p, k, t) && WF(p, k, cur) && Walking(kind, p, k, s, t, cur, start, pos, end, phys) && pos <= upto <= end
    requires Recorded(kind, p, k, t, start, pos, r) && Remembers(r, r') && Recorded(kind, p, k, cur, pos, upto, r')
    ensures Recorded(kind, p, k, t, start, upto, r')
  {
    hide WF, PageNo, IndexOf, Find, Ready, ReadyKept, Trims, AllowedIn, Ordered, Aligned;
    forall x: nat | start <= x < upto && (kind.Unmap? ==> Find(p, k, t, x).Some?) ensures r'.Covers(x) {
      if x >= pos {
        InTable(p, k, start, end, x);
        assert Find(p, k, cur, x) == Find(p, k, t, x);
      } else {
        assert r.Covers(x);
      }
    }
  }

  lemma {:induction false} TableEntry(p: Paging, k: nat, mem: Memory, t: Node, i: nat)
    requires WF(p, k, t) && Rep(mem, t) && i < |t.slots|
    ensures t.frame in mem && |mem[t.frame]| == |t.slots| && mem[t.frame][i] == PteOf(t.slots[i])
    ensures t.slots[i].Sub? ==> Rep(mem, t.slots[i].node) && t.slots[i].node.frame in mem
  {
  }

  lemma {:induction false} TableSize(p: Paging, k: nat, mem: Memory, t: Node)
    requires WF(p, k, t) && Rep(mem, t)
    ensures t.frame in mem && |mem[t.frame]| == |t.slots| == p.entries[k]
  {
  }

  lemma {:induction false} NotFree(p: Paging, k: nat, mem: Memory, free: set<nat>, t: Node, frame: nat)
    requires Good(p, k, mem, free, t) && frame in free
    ensures frame != t.frame
  {
    assert Owns(t, t.frame);
  }

  lemma {:induction false} HollowTest(mem: Memory, u: Node)
    requires Rep(mem, u)
    ensures u.frame in mem && (Hollow(u) <==> forall i | 0 <= i < |mem[u.frame]| :: mem[u.frame][i].Vacant?)
  {
    forall i | 0 <= i < |u.slots| ensures u.slots[i].Hole? <==> mem[u.frame][i].Vacant? {
      assert mem[u.frame][i] == PteOf(u.slots[i]);
    }
  }

  lemma {:induction false} SamePte(kind: Kind, p: Paging, s: nat, entry: Pte, phys: nat, first: nat, i: nat, phys0: nat)
    requires s < |p.entries| && first <= i && (kind.TakesPhys() ==> phys == phys0 + (i - first) * Size(p, s))
    ensures NewPte(kind, entry, phys) == NewPte(kind, entry, RunPhys(p, s, first, i, phys0))
  {
  }

  lemma {:induction false} NextPhys(j: nat, size: nat)
    ensures (j + 1) * size == j * size + size
  {
  }

  /** A filled run is a finished walk. */
  lemma {:induction false} FillDone(kind: Kind, p: Paging, s: nat, t: Node, start: nat, end: nat, first: nat,
                                    count: nat, phys: nat, mem: Memory, mem': Memory, free: set<nat>)
    requires Good(p, s, mem, free, t) && IsRun(p, s, start, end, first, count) && Entering(kind, p, s, s, t, start, end)
    requires kind.TakesPhys() ==> Aligned(p, s, phys)
    requires t.frame in mem' && |mem'[t.frame]| == |t.slots| && t.frame in mem && |mem[t.frame]| == |t.slots|
    requires forall i | 0 <= i < |t.slots| ::
      mem'[t.frame][i] == if first <= i < first + count then
        NewPte(kind, mem[t.frame][i], RunPhys(p, s, first, i, phys)) else mem[t.frame][i]
    requires forall f | f in mem && f != t.frame :: f in mem' && mem'[f] == mem[f]
    ensures var t' := Filled(kind, p, s, t, first, count, phys);
      Good(p, s, mem', free, t') && Kept(t, mem, free, t', mem', free)
        && Leaving(kind, p, s, s, t, t', start, end, end, true, phys)
  {
    hide Owns, Apart, Rep, WF, PageNo, IndexOf, Aligned, Filled, Effect, Ready, ReadyKept, Trims, Ordered, NoTables;
    hide NewPte, IsRun, Hollow;
    var t' := Filled(kind, p, s, t, first, count, phys);
    ReadyNoTables(p, s, t, start, end, first, count);
    FilledEffect(kind, p, s, t, start, end, first, count, phys);
    FilledReady(kind, p, s, PageNo(p, s + 1, start), t, first, count, phys);
    FilledTrims(kind, p, s, t, start, end, first, count, phys);
    FilledWithin(kind, p, s, t, first, count, phys);
    FilledApart(kind, p, s, t, first, count, phys);
    FilledRep(kind, p, s, t, first, count, phys, mem, mem');
    forall f ensures Owns(t', f) <==> Owns(t, f) {
      FilledOwns(kind, p, s, t, first, count, phys, f);
    }
    OwnsSelf(t);
  }

  lemma {:induction false} FillStructure(kind: Kind, p: Paging, s: nat, t: Node, start: nat, end: nat, first: nat,
                                         count: nat, phys: nat)
    requires IsRun(p, s, start, end, first, count) && Entering(kind, p, s, s, t, start, end)
    ensures SameTables(t, Filled(kind, p, s, t, first, count, phys))
  {
    hide WF, Ready, ReadyKept, Trims, AllowedIn, IsRun, SameTables;
    ReadyNoTables(p, s, t, start, end, first, count);
    FilledWithin(kind, p, s, t, first, count, phys);
  }

  lemma {:induction false} OwnsSelf(t: Node)
    ensures Owns(t, t.frame)
  {
  }

  lemma {:induction false} EnteringFacts(kind: Kind, p: Paging, k: nat, s: nat, t: Node, start: nat, end: nat)
    requires Entering(kind, p, k, s, t, start, end)
    ensures WF(p, k, t) && s <= k < |p.entries| && InOneTable(p, k, start, end)
    ensures IndexOf(p, k, start) <= IndexOf(p, k, end - 1)
    ensures k == s ==> IsRun(p, k, start, end, IndexOf(p, k, start), IndexOf(p, k, end - 1) - IndexOf(p, k, start) + 1)
  {
    hide WF, Ready, ReadyKept, Trims, AllowedIn, PageNo, IndexOf, Aligned;
    SameIndex(p, k, start, end - 1);
    PageMonotone(p, k, start, end - 1);
  }

  lemma {:induction false} LeavingFacts(kind: Kind, p: Paging, k: nat, s: nat, t: Node, t': Node, start: nat, end: nat,
                                        upto: nat, ok: bool, phys: nat)
    requires Leaving(kind, p, k, s, t, t', start, end, upto, ok, phys)
    ensures start <= upto <= end && (ok ==> upto == end) && (ok && !kind.Unmap? ==> !Hollow(t')) && t'.frame == t.frame
    ensures Ordered(kind, t, t')
  {
    hide WF, Effect, Ready, ReadyKept, Trims;
  }

  lemma {:induction false} PartFacts(kind: Kind, p: Paging, k: nat, s: nat, t: Node, cur: Node, start: nat, pos: nat,
                                     hi: nat, end: nat, phys: nat, i: nat)
    requires Walking(kind, p, k, s, t, cur, start, pos, end, phys) && IsPart(p, k, start, pos, hi, end)
    requires Aligned(p, s, hi)
    requires k < |p.entries| && i == IndexOf(p, k, pos) < |cur.slots|
    ensures WF(p, k, cur) && 0 < k && s < k && pos < hi <= end && !cur.slots[i].Page? && Aligned(p, s, pos)
    ensures cur.slots[i].Hole? ==> kind.Map? || kind.Unmap?
  {
    hide WF, Effect, Ready, ReadyKept, Trims, AllowedIn, Ordered, PageNo, IndexOf, Aligned;
    EnterPart(kind, p, k, s, t, cur, start, pos, hi, end, phys, i);
  }

  /** After going down one entry, new or not, the part can be walked below it. */
  lemma {:induction false} DescendedFacts(kind: Kind, p: Paging, k: nat, s: nat, t: Node, cur: Node, cur1: Node,
                                          start: nat, pos: nat, hi: nat, end: nat, phys: nat, i: nat, child: nat)
    requires Walking(kind, p, k, s, t, cur, start, pos, end, phys) && IsPart(p, k, start, pos, hi, end)
    requires Aligned(p, s, hi)
    requires k < |p.entries| && 0 < k && i == IndexOf(p, k, pos) < |cur.slots|
    requires if cur.slots[i].Sub? then cur1 == cur && child == cur.slots[i].node.frame
             else cur.slots[i].Hole? && kind.Map? && cur1 == With(cur, i, Sub(Blank(p, k - 1, child)))
    ensures Walking(kind, p, k, s, t, cur1, start, pos, end, phys)
    ensures i < |cur1.slots| && cur1.slots[i].Sub? && cur1.slots[i].node.frame == child && cur1.frame == cur.frame
    ensures WF(p, k, cur1) && WF(p, k - 1, cur1.slots[i].node)
    ensures Entering(kind, p, k - 1, s, cur1.slots[i].node, pos, hi)
  {
    hide WF, Effect, Ready, ReadyKept, Trims, AllowedIn, Ordered, PageNo, IndexOf, Aligned, IsPart, Hollow;
    if cur.slots[i].Hole? {
      WalkingGrown(kind, p, k, s, t, cur, start, pos, hi, end, phys, i, Blank(p, k - 1, child));
    }
    EnterPart(kind, p, k, s, t, cur1, start, pos, hi, end, phys, i);
  }

  lemma {:induction false} AlignedOn(kind: Kind, p: Paging, s: nat, phys: nat, lo: nat, hi: nat)
    requires s <= |p.entries| && lo <= hi && Aligned(p, s, lo) && Aligned(p, s, hi)
    requires (kind.TakesPhys() ==> Aligned(p, s, phys))
    ensures kind.TakesPhys() ==> Aligned(p, s, phys + (hi - lo))
  {
    if kind.TakesPhys() {
      var b := Size(p, s);
      DivSpan(lo, b, 0);
      DivSpan(hi, b, 0);
      DivMonotone(lo, hi, b);
      assert hi - lo == (hi / b - lo / b) * b;
      AlignedPlus(p, s, phys, hi / b - lo / b);
    }
  }

  /** A range of one page is a single part of every table on the way. */
  lemma {:induction false} SinglePage(kind: Kind, p: Paging, k: nat, s: nat, t: Node, va: nat, end: nat, phys: nat)
    requires s < |p.entries| && end == va + Size(p, s) && Entering(kind, p, k, s, t, va, end)
    ensures k == s ==> IsRun(p, k, va, end, IndexOf(p, k, va), 1)
    ensures s < k ==>
      Walking(kind, p, k, s, t, t, va, va, end, phys) && IsPart(p, k, va, va, end, end) && Aligned(p, s, end)
      && IndexOf(p, k, va) < |t.slots|
  {
    hide WF, Ready, ReadyKept, Trims, AllowedIn, PageNo, IndexOf, Aligned;
    if s < k {
      WalkingStart(kind, p, k, s, t, va, end, phys);
      IndexInTable(p, k, va);
      OnePage(p, s, k, va);
    } else {
      RunOfOne(p, s, va);
    }
  }

  lemma {:induction false} RunOfOne(p: Paging, s: nat, va: nat)
    requires s < |p.entries| && Aligned(p, s, va)
    ensures IndexOf(p, s, va) == IndexOf(p, s, va + Size(p, s) - 1)
  {
    OnePage(p, s, s, va);
  }
}
