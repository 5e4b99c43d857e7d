/**
 One round of the recursive walk (lib/mem-mmu/src/table.rs:313-354) as facts about the tree of tables:
 entering a sub-table, leaving it, and what holds in between.
 */
module Steps {
  import opened Options
  import opened Pagings
  import opened EntryRanges
  import opened Tables
  import opened Effects

  ghost predicate AllowedIn(kind: Kind, p: Paging, k: nat, s: nat, t: Node, lo: nat, hi: nat)
    requires WF(p, k, t)
  {
    forall va: nat | lo <= va < hi :: Allowed(kind, s, Find(p, k, t, va))
  }

  /** The range to walk, below the table `t` at level `k`, for pages of level `s`. */
  ghost predicate Entering(kind: Kind, p: Paging, k: nat, s: nat, t: Node, start: nat, end: nat) {
    && WF(p, k, t) && s <= k && InOneTable(p, k, start, end) && Aligned(p, s, start) && Aligned(p, s, end)
    && Ready(p, k, s, t, start, end) && AllowedIn(kind, p, k, s, t, start, end)
  }

  /** The walk got to `upto` and left `t` as `t'`; only mapping can stop early. */
  ghost predicate Leaving(kind: Kind, p: Paging, k: nat, s: nat, t: Node, t': Node, start: nat, end: nat, upto: nat,
                          ok: bool, phys: nat) {
    && WF(p, k, t) && WF(p, k, t') && s <= k && start <= upto <= end && (ok ==> upto == end) && (!kind.Map? ==> ok)
    && Effect(kind, p, k, s, PageNo(p, k + 1, start), t, t', start, upto, phys)
    && ReadyKept(p, k, s, PageNo(p, k + 1, start), t, t') && Ordered(kind, t, t')
    && Trims(p, k, PageNo(p, k + 1, start), t, t', start, if ok then end else start, end)
    && (ok && !kind.Unmap? ==> !Hollow(t')) && (!ok ==> upto < end && MissingAt(p, k, s, t', upto))
  }

  /** Between two parts: done up to `pos`, the rest as it was. */
  ghost predicate Walking(kind: Kind, p: Paging, k: nat, s: nat, t: Node, cur: Node, start: nat, pos: nat, end: nat,
                          phys: nat) {
    && WF(p, k, t) && WF(p, k, cur) && s < k && start <= pos <= end && InOneTable(p, k, start, end)
    && Aligned(p, s, pos) && Aligned(p, s, end) && (pos == start || pos == end || Aligned(p, k, pos))
    && Effect(kind, p, k, s, PageNo(p, k + 1, start), t, cur, start, pos, phys)
    && Ready(p, k, s, cur, start, end) && ReadyKept(p, k, s, PageNo(p, k + 1, start), t, cur)
    && AllowedIn(kind, p, k, s, cur, pos, end) && Ordered(kind, t, cur)
    && Trims(p, k, PageNo(p, k + 1, start), t, cur, start, pos, end)
    && (pos > start && !kind.Unmap? ==> !Hollow(cur))
  }

  lemma {:induction false} WalkingStart(kind: Kind, p: Paging, k: nat, s: nat, t: Node, start: nat, end: nat, phys: nat)
    requires Entering(kind, p, k, s, t, start, end) && s < k
    ensures Walking(kind, p, k, s, t, t, start, start, end, phys)
  {
    hide WF, Find, Ready, ReadyAt, Trims, AllowedIn, Within;
    WithinRefl(t);
    TrimsRefl(p, k, PageNo(p, k + 1, start), t, start, end);
    EffectNone(kind, p, k, s, PageNo(p, k + 1, start), t, t, start, phys);
  }

  lemma {:induction false} WalkingEnd(kind: Kind, p: Paging, k: nat, s: nat, t: Node, cur: Node, start: nat, end: nat,
                                      phys: nat)
    requires Walking(kind, p, k, s, t, cur, start, end, end, phys)
    ensures Leaving(kind, p, k, s, t, cur, start, end, end, true, phys)
  {
    hide WF, Effect, Ready, ReadyKept, Trims, Ordered, AllowedIn;
  }

  /** Where the next part is: one page of the level below. */
  ghost predicate IsPart(p: Paging, k: nat, start: nat, pos: nat, hi: nat, end: nat) {
    && k < |p.entries| && pos < hi <= end && PageNo(p, k, pos) == PageNo(p, k, hi - 1)
    && PageNo(p, k + 1, pos) == PageNo(p, k + 1, start)
    && (hi < end ==> hi == (PageNo(p, k, pos) + 1) * Size(p, k))
  }

  lemma {:induction false} NextPart(kind: Kind, p: Paging, k: nat, s: nat, t: Node, cur: Node, start: nat, pos: nat,
                                    end: nat, phys: nat)
    requires Walking(kind, p, k, s, t, cur, start, pos, end, phys) && pos < end
    ensures InOneTable(p, k, pos, end) && IsPart(p, k, start, pos, PartEnd(p, k, pos, end), end)
    ensures Aligned(p, s, PartEnd(p, k, pos, end))
    ensures WF(p, k, cur) && IndexOf(p, k, pos) < |cur.slots|
  {
    hide WF, Effect, Ready, ReadyKept, Trims, Ordered, AllowedIn, PageNo, Size, IndexOf, PartEnd, Aligned;
    InTable(p, k, start, end, pos);
    CutFirst(p, k, pos, end);
    IndexInTable(p, k, pos);
    if PartEnd(p, k, pos, end) < end {
      AlignedDown(p, s, k, PageNo(p, k, pos) + 1);
    }
  }

  lemma {:induction false} InTable(p: Paging, k: nat, start: nat, end: nat, va: nat)
    requires k < |p.entries| && InOneTable(p, k, start, end) && start <= va < end
    ensures PageNo(p, k + 1, va) == PageNo(p, k + 1, start)
  {
    hide PageNo;
    PageMonotone(p, k + 1, start, va);
    PageMonotone(p, k + 1, va, end - 1);
  }

  lemma {:induction false} PartAligned(p: Paging, k: nat, start: nat, pos: nat, hi: nat, end: nat)
    requires IsPart(p, k, start, pos, hi, end)
    ensures hi == end || Aligned(p, k, hi)
  {
    Multiple(PageNo(p, k, pos) + 1, Size(p, k));
  }

  /** The part can be walked in the table that its entry refers to. */
  lemma {:induction false} EnterPart(kind: Kind, p: Paging, k: nat, s: nat, t: Node, cur: Node, start: nat, pos: nat,
                                     hi: nat, end: nat, phys: nat, i: nat)
    requires Walking(kind, p, k, s, t, cur, start, pos, end, phys) && IsPart(p, k, start, pos, hi, end)
    requires Aligned(p, s, hi)
    requires i == IndexOf(p, k, pos) < |cur.slots|
    ensures !cur.slots[i].Page?
    ensures cur.slots[i].Sub? ==> Entering(kind, p, k - 1, s, cur.slots[i].node, pos, hi)
    ensures cur.slots[i].Hole? ==> forall va: nat | pos <= va < hi :: Find(p, k, cur, va) == None
    ensures cur.slots[i].Hole? ==> kind.Map? || kind.Unmap?
  {
    hide PageNo, Size, IndexOf, Effect, Ordered, Aligned, Find, Trims, ReadyKept;
    assert ReadyAt(p, k, s, cur, pos);
    assert SlotWF(p, k, cur.slots[i]);
    forall va: nat ensures pos <= va < hi ==> IndexOf(p, k, va) == i {
      PartIndex(p, k, pos, hi, va);
    }
    if cur.slots[i].Hole? {
      forall va: nat | pos <= va < hi ensures Find(p, k, cur, va) == None {
        FindWith(p, k, cur, i, Hole, va);
        assert With(cur, i, Hole) == cur;
      }
      assert Allowed(kind, s, Find(p, k, cur, pos));
    } else {
      var u, j := cur.slots[i].node, k - 1;
      forall va: nat | pos <= va < hi ensures ReadyAt(p, j, s, u, va) && Allowed(kind, s, Find(p, j, u, va)) {
        assert ReadyAt(p, k, s, cur, va);
        FindWith(p, k, cur, i, Sub(u), va);
        assert With(cur, i, Sub(u)) == cur;
      }
    }
  }

  /** A new table below an empty entry that the rest of the range needs changes nothing yet. */
  lemma {:induction false} WalkingGrown(kind: Kind, p: Paging, k: nat, s: nat, t: Node, cur: Node, start: nat, pos: nat,
                                        hi: nat, end: nat, phys: nat, i: nat, u: Node)
    requires Walking(kind, p, k, s, t, cur, start, pos, end, phys) && IsPart(p, k, start, pos, hi, end) && kind.Map?
    requires i == IndexOf(p, k, pos) < |cur.slots| && cur.slots[i].Hole? && WF(p, k - 1, u) && Hollow(u)
    ensures Walking(kind, p, k, s, t, With(cur, i, Sub(u)), start, pos, end, phys)
  {
    hide PageNo, Size, IndexOf, Find, WF, Within, Aligned, Hollow, ReadyAt, EmptyAt;
    var cur', q := With(cur, i, Sub(u)), PageNo(p, k + 1, start);
    WFWith(p, k, cur, i, Sub(u));
    forall va: nat ensures Find(p, k, cur', va) == Find(p, k, cur, va) {
      SwapHollow(p, k, cur, i, u, va);
      assert With(cur, i, Hole) == cur;
    }
    EffectNone(kind, p, k, s, q, cur, cur', pos, phys + (pos - start));
    EffectTrans(kind, p, k, s, q, t, cur, cur', start, pos, pos, phys, phys + (pos - start));
    forall va: nat | ReadyAt(p, k, s, cur, va) ensures ReadyAt(p, k, s, cur', va) {
      ReadyWith(p, k, s, cur, i, Sub(u), va);
      HollowReady(p, k - 1, s, u, va);
    }
    forall va: nat, j: nat | PageNo(p, k + 1, va) == q && j < k && EmptyAt(p, k, cur', va, j)
      ensures Touches(p, j + 1, va, pos, end) || EmptyAt(p, k, cur, va, j)
    {
      EmptyWith(p, k, cur, i, Sub(u), va, j);
      PartIndex(p, k, pos, hi, va);
      if j < k - 1 {
        HollowHasNone(p, k - 1, u, va, j);
      }
    }
    OrderedGrown(kind, cur, i, u);
    OrderedTrans(kind, t, cur, cur');
    NotHollow(cur', i);
  }

  lemma {:induction false} OrderedGrown(kind: Kind, cur: Node, i: nat, u: Node)
    requires kind.Map? && i < |cur.slots| && cur.slots[i].Hole?
    ensures Ordered(kind, cur, With(cur, i, Sub(u)))
  {
    hide Within;
    WithinRefl(cur);
    assert With(cur, i, Hole) == cur;
    WithinWith(cur, cur, i, Hole, Sub(u));
  }

  lemma {:induction false} NotHollow(t: Node, i: nat)
    requires i < |t.slots| && !t.slots[i].Hole?
    ensures !Hollow(t)
  {
  }

  /** Nothing is mapped in the part: unmapping skips it. */
  lemma {:induction false} SkipPart(kind: Kind, p: Paging, k: nat, s: nat, t: Node, cur: Node, start: nat, pos: nat,
                                    hi: nat, end: nat, phys: nat, i: nat)
    requires Walking(kind, p, k, s, t, cur, start, pos, end, phys) && IsPart(p, k, start, pos, hi, end) && kind.Unmap?
    requires Aligned(p, s, hi)
    requires i == IndexOf(p, k, pos) < |cur.slots| && cur.slots[i].Hole?
    ensures Walking(kind, p, k, s, t, cur, start, hi, end, phys)
  {
    hide PageNo, Size, IndexOf, Find, WF, Within, Aligned, Hollow, Ready, ReadyKept, Trims;
    var q := PageNo(p, k + 1, start);
    EnterPart(kind, p, k, s, t, cur, start, pos, hi, end, phys, i);
    assert Effect(kind, p, k, s, q, cur, cur, pos, hi, phys);
    PartAligned(p, k, start, pos, hi, end);
    EffectTrans(kind, p, k, s, q, t, cur, cur, start, pos, hi, phys, phys);
    TrimsPast(p, k, t, cur, start, pos, hi, end, i, Hole);
    assert With(cur, i, Hole) == cur;
  }

  /** Past a part, its range no longer excuses tables without entries; below other entries nothing changes. */
  lemma {:induction false} TrimsPast(p: Paging, k: nat, t: Node, cur: Node, start: nat, pos: nat, hi: nat, end: nat,
                                     i: nat, x: Slot)
    requires WF(p, k, t) && WF(p, k, cur) && start <= pos && IsPart(p, k, start, pos, hi, end)
    requires Trims(p, k, PageNo(p, k + 1, start), t, cur, start, pos, end)
    requires i == IndexOf(p, k, pos) < |cur.slots| && SlotWF(p, k, x)
    requires x.Sub? ==> cur.slots[i].Sub? && WF(p, k - 1, cur.slots[i].node) && !Hollow(x.node)
                        && Trims(p, k - 1, PageNo(p, k, pos), cur.slots[i].node, x.node, pos, hi, hi)
    ensures WF(p, k, With(cur, i, x)) && Trims(p, k, PageNo(p, k + 1, start), t, With(cur, i, x), start, hi, end)
  {
    hide PageNo, Size, IndexOf, WF, Hollow, EmptyAt, IsPart, Touches;
    var cur' := With(cur, i, x);
    WFWith(p, k, cur, i, x);
    forall va: nat, j: nat | PageNo(p, k + 1, va) == PageNo(p, k + 1, start) && j < k && EmptyAt(p, k, cur', va, j)
      ensures Touches(p, j + 1, va, hi, end) || (EmptyAt(p, k, t, va, j) && !Touches(p, j + 1, va, start, hi))
    {
      EmptyPast(p, k, cur, start, pos, hi, end, i, x, va, j);
      TouchesSplit(p, j + 1, va, start, pos, hi);
      TouchesSplit(p, j + 1, va, pos, hi, end);
    }
  }

  /** A table that is still without entries was so before the part, and is not on the way to it. */
  lemma {:induction false} EmptyPast(p: Paging, k: nat, cur: Node, start: nat, pos: nat, hi: nat, end: nat, i: nat,
                                     x: Slot, va: nat, j: nat)
    requires WF(p, k, cur) && IsPart(p, k, start, pos, hi, end) && PageNo(p, k + 1, va) == PageNo(p, k + 1, start)
    requires j < k
    requires i == IndexOf(p, k, pos) < |cur.slots| && SlotWF(p, k, x) && WF(p, k, With(cur, i, x))
    requires x.Sub? ==> cur.slots[i].Sub? && WF(p, k - 1, cur.slots[i].node) && !Hollow(x.node)
                        && Trims(p, k - 1, PageNo(p, k, pos), cur.slots[i].node, x.node, pos, hi, hi)
    requires EmptyAt(p, k, With(cur, i, x), va, j)
    ensures pos < hi <= end && EmptyAt(p, k, cur, va, j) && !Touches(p, j + 1, va, pos, hi)
  {
    hide PageNo, Size, IndexOf, WF, Hollow, EmptyAt;
    PartIndex(p, k, pos, hi, va);
    EmptyWith(p, k, cur, i, x, va, j);
    if x.Sub? {
      EmptyWith(p, k, cur, i, cur.slots[i], va, j);
      assert With(cur, i, cur.slots[i]) == cur;
    }
    if IndexOf(p, k, va) != i && Touches(p, j + 1, va, pos, hi) {
      TouchesUp(p, j + 1, k, va, pos, hi);
      var y: nat :| pos <= y < hi && PageNo(p, j + 1, y) == PageNo(p, j + 1, va) && PageNo(p, k, y) == PageNo(p, k, va);
      PartIndex(p, k, pos, hi, y);
      SamePageUp(p, k, y, va);
      assert false;
    }
  }

  /** The part was walked below its entry; the entry may then be pruned. */
  lemma {:induction false} LeavePart(kind: Kind, p: Paging, k: nat, s: nat, t: Node, cur: Node, start: nat, pos: nat,
                                     hi: nat, end: nat, phys: nat, phys': nat, i: nat, u: Node, ok: bool, upto: nat)
    requires Walking(kind, p, k, s, t, cur, start, pos, end, phys) && IsPart(p, k, start, pos, hi, end)
    requires Aligned(p, s, hi)
    requires i == IndexOf(p, k, pos) < |cur.slots| && cur.slots[i].Sub? && WF(p, k - 1, cur.slots[i].node)
    requires kind.TakesPhys() ==> phys' == phys + (pos - start)
    requires Leaving(kind, p, k - 1, s, cur.slots[i].node, u, pos, hi, upto, ok, phys')
    ensures var cur' := With(cur, i, Sub(u));
      && WF(p, k, cur')
      && Effect(kind, p, k, s, PageNo(p, k + 1, start), t, cur', start, upto, phys)
      && Ready(p, k, s, cur', start, end) && ReadyKept(p, k, s, PageNo(p, k + 1, start), t, cur')
      && AllowedIn(kind, p, k, s, cur', hi, end) && Ordered(kind, t, cur') && !Hollow(cur')
  {
    hide PageNo, Size, IndexOf, Find, WF, Within, Aligned, Hollow, Trims, ReadyAt;
    var cur', q, o := With(cur, i, Sub(u)), PageNo(p, k + 1, start), cur.slots[i].node;
    EffectSub(kind, p, k, s, cur, i, u, pos, hi, upto, phys');
    EffectTrans(kind, p, k, s, q, t, cur, cur', start, pos, upto, phys, phys');
    forall va: nat | PageNo(p, k + 1, va) == q && ReadyAt(p, k, s, cur, va) ensures ReadyAt(p, k, s, cur', va) {
      ReadyWith(p, k, s, cur, i, Sub(u), va);
      ReadyWith(p, k, s, cur, i, Sub(o), va);
      assert With(cur, i, Sub(o)) == cur;
      PartIndex(p, k, pos, hi, va);
    }
    forall va: nat | start <= va < end ensures ReadyAt(p, k, s, cur', va) {
      InTable(p, k, start, end, va);
      assert ReadyAt(p, k, s, cur, va);
    }
    forall va: nat | hi <= va < end ensures Allowed(kind, s, Find(p, k, cur', va)) {
      InTable(p, k, start, end, va);
      assert Allowed(kind, s, Find(p, k, cur, va));
    }
    OrderedSub(kind, cur, i, u);
    OrderedTrans(kind, t, cur, cur');
    NotHollow(cur', i);
  }

  /** After a part whose table still has entries. */
  lemma {:induction false} KeepPart(kind: Kind, p: Paging, k: nat, s: nat, t: Node, cur: Node, start: nat, pos: nat,
                                    hi: nat, end: nat, phys: nat, phys': nat, i: nat, u: Node, upto: nat)
    requires Walking(kind, p, k, s, t, cur, start, pos, end, phys) && IsPart(p, k, start, pos, hi, end)
    requires Aligned(p, s, hi)
    requires i == IndexOf(p, k, pos) < |cur.slots| && cur.slots[i].Sub? && WF(p, k - 1, cur.slots[i].node)
    requires kind.TakesPhys() ==> phys' == phys + (pos - start)
    requires Leaving(kind, p, k - 1, s, cur.slots[i].node, u, pos, hi, upto, true, phys') && !Hollow(u)
    ensures Walking(kind, p, k, s, t, With(cur, i, Sub(u)), start, hi, end, phys)
  {
    hide PageNo, Size, IndexOf, Find, WF, Within, Aligned, Hollow, Trims, Effect, Ready, ReadyKept, AllowedIn, Ordered;
    LeavePart(kind, p, k, s, t, cur, start, pos, hi, end, phys, phys', i, u, true, upto);
    TrimsPast(p, k, t, cur, start, pos, hi, end, i, Sub(u));
    PartAligned(p, k, start, pos, hi, end);
  }

  /** After a part whose table has no entries left and was taken out. */
  lemma {:induction false} PrunePart(kind: Kind, p: Paging, k: nat, s: nat, t: Node, cur: Node, start: nat, pos: nat,
                                     hi: nat, end: nat, phys: nat, phys': nat, i: nat, u: Node, upto: nat)
    requires Walking(kind, p, k, s, t, cur, start, pos, end, phys) && IsPart(p, k, start, pos, hi, end)
    requires Aligned(p, s, hi)
    requires i == IndexOf(p, k, pos) < |cur.slots| && cur.slots[i].Sub? && WF(p, k - 1, cur.slots[i].node)
    requires kind.Unmap?
    requires Leaving(kind, p, k - 1, s, cur.slots[i].node, u, pos, hi, upto, true, phys') && Hollow(u)
    ensures Walking(kind, p, k, s, t, With(cur, i, Hole), start, hi, end, phys)
  {
    hide PageNo, Size, IndexOf, Find, WF, Within, Aligned, Hollow, Trims, ReadyAt;
    var kept, gone, q := With(cur, i, Sub(u)), With(cur, i, Hole), PageNo(p, k + 1, start);
    LeavePart(kind, p, k, s, t, cur, start, pos, hi, end, phys, phys', i, u, true, upto);
    TrimsPast(p, k, t, cur, start, pos, hi, end, i, Hole);
    PartAligned(p, k, start, pos, hi, end);
    forall va: nat ensures Find(p, k, gone, va) == Find(p, k, kept, va) {
      SwapHollow(p, k, cur, i, u, va);
    }
    forall va: nat | ReadyAt(p, k, s, kept, va) ensures ReadyAt(p, k, s, gone, va) {
      ReadyWith(p, k, s, cur, i, Hole, va);
      ReadyWith(p, k, s, cur, i, Sub(u), va);
    }
    WithinRefl(kept);
    assert With(kept, i, Hole) == gone && With(kept, i, Sub(u)) == kept;
    WithinWith(kept, kept, i, Hole, Sub(u));
    OrderedTrans(kind, t, kept, gone);
  }

  /** Mapping stopped in the part for want of a frame. */
  lemma {:induction false} AbortPart(kind: Kind, p: Paging, k: nat, s: nat, t: Node, cur: Node, start: nat, pos: nat,
                                     hi: nat, end: nat, phys: nat, phys': nat, i: nat, u: Node, upto: nat)
    requires Walking(kind, p, k, s, t, cur, start, pos, end, phys) && IsPart(p, k, start, pos, hi, end)
    requires Aligned(p, s, hi)
    requires i == IndexOf(p, k, pos) < |cur.slots| && cur.slots[i].Sub? && WF(p, k - 1, cur.slots[i].node)
    requires kind.TakesPhys() ==> phys' == phys + (pos - start)
    requires Leaving(kind, p, k - 1, s, cur.slots[i].node, u, pos, hi, upto, false, phys')
    ensures Leaving(kind, p, k, s, t, With(cur, i, Sub(u)), start, end, upto, false, phys)
  {
    hide PageNo, Size, IndexOf, Find, WF, Within, Aligned, Hollow, Effect, Ready, ReadyKept, AllowedIn, Ordered;
    hide EmptyAt, MissingAt;
    var cur', q, o := With(cur, i, Sub(u)), PageNo(p, k + 1, start), cur.slots[i].node;
    LeavePart(kind, p, k, s, t, cur, start, pos, hi, end, phys, phys', i, u, false, upto);
    PartIndex(p, k, pos, hi, upto);
    MissingWith(p, k, s, cur, i, Sub(u), upto);
    forall va: nat, j: nat | PageNo(p, k + 1, va) == q && j < k && EmptyAt(p, k, cur', va, j)
      ensures Touches(p, j + 1, va, start, end) || EmptyAt(p, k, t, va, j)
    {
      EmptyWith(p, k, cur, i, Sub(u), va, j);
      EmptyWith(p, k, cur, i, Sub(o), va, j);
      assert With(cur, i, Sub(o)) == cur;
      PartIndex(p, k, pos, hi, va);
      assert IndexOf(p, k, va) == i && j == k - 1 ==> Touches(p, j + 1, va, pos, hi);
    }
  }

  /** Mapping stopped before a part for want of a frame. */
  lemma {:induction false} AbortHere(kind: Kind, p: Paging, k: nat, s: nat, t: Node, cur: Node, start: nat, pos: nat,
                                     end: nat, phys: nat, i: nat)
    requires Walking(kind, p, k, s, t, cur, start, pos, end, phys) && kind.Map? && pos < end
    requires k < |p.entries| && i == IndexOf(p, k, pos) < |cur.slots| && cur.slots[i].Hole?
    ensures Leaving(kind, p, k, s, t, cur, start, end, pos, false, phys)
  {
    hide PageNo, Size, IndexOf, Find, WF, Within, Aligned, Hollow, Effect, Ready, ReadyKept, AllowedIn, Ordered, Trims;
    hide MissingAt;
    TrimsLess(p, k, PageNo(p, k + 1, start), t, cur, start, pos, end);
    MissingWith(p, k, s, cur, i, Hole, pos);
    assert With(cur, i, Hole) == cur;
  }
}
