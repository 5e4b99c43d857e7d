/**
 Splitting a range inside one table into the parts that its entries cover (lib/mem-mmu/src/utils.rs:14-81).
 */
module EntryRanges {
  import opened Options
  import opened Pagings

  /** The part `lo..hi` of a range that the entry `index` covers. */
  datatype Part = Part(index: nat, lo: nat, hi: nat)

  /** The range lies in a single table at level `k`. */
  ghost predicate InOneTable(p: Paging, k: nat, start: nat, end: nat)
    requires k < |p.entries|
  {
    start < end && PageNo(p, k + 1, start) == PageNo(p, k + 1, end - 1)
  }

  /** The end of the page that holds `va`. */
  function SlotEnd(p: Paging, k: nat, va: nat): nat
    requires k <= |p.entries|
  {
    va - va % Size(p, k) + Size(p, k)
  }

  function PartEnd(p: Paging, k: nat, start: nat, end: nat): nat
    requires k <= |p.entries|
  {
    if SlotEnd(p, k, start) < end then SlotEnd(p, k, start) else end
  }

  /** What cutting off the first part leaves. */
  lemma {:induction false} CutFirst(p: Paging, k: nat, start: nat, end: nat)
    requires k < |p.entries| && InOneTable(p, k, start, end)
    ensures var hi := PartEnd(p, k, start, end);
      && start < hi <= end && PageNo(p, k, hi - 1) == PageNo(p, k, start)
      && (hi < end ==> InOneTable(p, k, hi, end) && hi == (PageNo(p, k, start) + 1) * Size(p, k)
                       && PageNo(p, k, hi) == PageNo(p, k, start) + 1
                       && IndexOf(p, k, hi) == IndexOf(p, k, start) + 1 <= IndexOf(p, k, end - 1))
      && (hi == end ==> IndexOf(p, k, start) == IndexOf(p, k, end - 1))
      && PageNo(p, k + 1, hi - 1) == PageNo(p, k + 1, start)
  {
    hide Size, PageNo, IndexOf;
    var n, b, hi := PageNo(p, k, start), Size(p, k), PartEnd(p, k, start, end);
    PageSpan(p, k, start, n);
    assert (n + 1) * b == n * b + b && (n + 2) * b == n * b + b + b;
    assert SlotEnd(p, k, start) == (n + 1) * b;
    PageSpan(p, k, hi - 1, n);
    SamePageUp(p, k, start, hi - 1);
    if hi < end {
      PageSpan(p, k, hi, n + 1);
      PageMonotone(p, k + 1, start, hi);
      PageMonotone(p, k + 1, hi, end - 1);
      PageMonotone(p, k, hi, end - 1);
      SameIndex(p, k, start, hi);
      SameIndex(p, k, hi, end - 1);
    }
  }

  /** All parts, in order. */
  function Parts(p: Paging, k: nat, start: nat, end: nat): seq<Part>
    requires k < |p.entries| && (start < end ==> InOneTable(p, k, start, end))
    decreases end - start
  {
    if start >= end then []
    else
      CutFirst(p, k, start, end);
      var hi := PartEnd(p, k, start, end);
      [Part(IndexOf(p, k, start), start, hi)] + Parts(p, k, hi, end)
  }

  /**
   The parts are non-empty, follow each other without gap or overlap from `start` to `end`, belong to
   consecutive entries, and every address in a part is translated by that part's entry.
   */
  lemma {:induction false} PartsTile(p: Paging, k: nat, start: nat, end: nat)
    requires k < |p.entries| && InOneTable(p, k, start, end)
    ensures var parts := Parts(p, k, start, end);
      && parts != [] && parts[0].lo == start && parts[|parts| - 1].hi == end
      && (forall i | 0 <= i < |parts| ::
         parts[i].lo < parts[i].hi && parts[i].index == IndexOf(p, k, start) + i < p.entries[k])
      && (forall i, j | 0 <= i < |parts| && j == i + 1 && j < |parts| :: parts[i].hi == parts[j].lo)
      && (forall i, va | 0 <= i < |parts| && parts[i].lo <= va < parts[i].hi :: IndexOf(p, k, va) == parts[i].index)
    decreases end - start
  {
    hide Size, PageNo, IndexOf;
    CutFirst(p, k, start, end);
    var hi := PartEnd(p, k, start, end);
    IndexInTable(p, k, start);
    forall va | start <= va < hi ensures IndexOf(p, k, va) == IndexOf(p, k, start) {
      PageMonotone(p, k, start, va);
      PageMonotone(p, k, va, hi - 1);
      SamePageUp(p, k, start, va);
    }
    if hi < end {
      PartsTile(p, k, hi, end);
    }
  }

  /** Yields the parts one by one. */
  class PageTableEntries {
    const p: Paging
    const k: nat
    const max: nat
    const last: nat
    var next: nat
    var pageStart: nat

    ghost predicate Valid()
      reads this
      ensures Valid() ==> k < |p.entries|
    {
      && k < |p.entries| && pageStart <= max
      && (pageStart < max ==>
         InOneTable(p, k, pageStart, max) && next == IndexOf(p, k, pageStart) && last == IndexOf(p, k, max - 1))
      && (pageStart == max ==> next == last + 1)
    }

    constructor (p': Paging, k': nat, start: nat, end: nat)
      requires k' < |p'.entries| && InOneTable(p', k', start, end)
      ensures Valid() && p == p' && k == k' && pageStart == start && max == end
    {
      p, k, max, pageStart := p', k', end, start;
      next, last := IndexOf(p', k', start), IndexOf(p', k', end - 1);
    }

    /** The next part, or nothing, again and again, once the whole range is covered. */
    method Next() returns (part: Option<Part>)
      requires Valid()
      modifies this
      ensures Valid()
      ensures old(pageStart) == max ==> part == None && pageStart == max
      ensures old(pageStart) < max ==>
        var hi := PartEnd(p, k, old(pageStart), max);
        part == Some(Part(IndexOf(p, k, old(pageStart)), old(pageStart), hi)) && pageStart == hi > old(pageStart)
    {
      hide Size, PageNo, IndexOf;
      if pageStart < max {
        CutFirst(p, k, pageStart, max);
        SameIndex(p, k, pageStart, max - 1);
        PageMonotone(p, k, pageStart, max - 1);
      }
      if next > last {
        return None;
      }
      var index := next;
      next := next + 1;
      var slotEnd := SlotEnd(p, k, pageStart);
      var hi := if slotEnd < max then slotEnd else max;
      if hi <= pageStart {
        return None;
      }
      part := Some(Part(index, pageStart, hi));
      pageStart := hi;
    }

    /** What is left to yield: `part`, if there is one, and everything after it. */
    ghost predicate Yielding(part: Option<Part>, start: nat)
      reads this
    {
      && Valid() && start <= max && (start < max ==> InOneTable(p, k, start, max))
      && (part == None ==> start == max)
      && (part.Some? ==>
         start < max && part.value == Part(IndexOf(p, k, start), start, pageStart)
         && pageStart == PartEnd(p, k, start, max))
    }

    method Collect() returns (parts: seq<Part>)
      requires Valid()
      modifies this
      ensures Valid() && (old(pageStart) < max ==> InOneTable(p, k, old(pageStart), max))
      ensures parts == Parts(p, k, old(pageStart), max)
    {
      hide Size, PageNo, IndexOf, Parts, PartEnd, InOneTable;
      parts := [];
      ghost var start, all := pageStart, Parts(p, k, pageStart, max);
      var part := Next();
      while part.Some?
        invariant Yielding(part, start) && all == parts + Parts(p, k, start, max)
        decreases max - start
      {
        Unfold(p, k, start, max);
        Assoc(parts, part.value, Parts(p, k, pageStart, max));
        parts := parts + [part.value];
        start := pageStart;
        part := Next();
      }
      Unfold(p, k, start, max);
    }
  }

  lemma {:induction false} Assoc(a: seq<Part>, x: Part, b: seq<Part>)
    ensures a + ([x] + b) == (a + [x]) + b
  {
  }

  lemma {:induction false} Unfold(p: Paging, k: nat, start: nat, end: nat)
    requires k < |p.entries| && (start < end ==> InOneTable(p, k, start, end))
    ensures start >= end ==> Parts(p, k, start, end) == []
    ensures start < end ==>
      var hi := PartEnd(p, k, start, end);
      && start < hi <= end && (hi < end ==> InOneTable(p, k, hi, end))
      && Parts(p, k, start, end) == [Part(IndexOf(p, k, start), start, hi)] + Parts(p, k, hi, end)
  {
    if start < end {
      CutFirst(p, k, start, end);
    }
  }
}
