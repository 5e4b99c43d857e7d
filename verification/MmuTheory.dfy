/**
 What translations determine: in a tree of tables without empty ones, the translations say which tables
 exist, so a tree is known from its translations and the frames its tables may use.
 */
module Theory {
  import opened Options
  import opened Pagings
  import opened Tables
  import opened Effects

  /** The first address that entry `j` of table number `q` translates. */
  function FirstOf(p: Paging, k: nat, q: nat, j: nat): nat
    requires k < |p.entries|
  {
    (q * p.entries[k] + j) * Size(p, k)
  }

  lemma {:induction false} FirstOfFacts(p: Paging, k: nat, q: nat, j: nat)
    requires k < |p.entries| && j < p.entries[k]
    ensures var va := FirstOf(p, k, q, j);
      PageNo(p, k, va) == q * p.entries[k] + j && PageNo(p, k + 1, va) == q && IndexOf(p, k, va) == j
  {
    hide Size;
    var va, n, e := FirstOf(p, k, q, j), q * p.entries[k] + j, p.entries[k];
    Multiple(n, Size(p, k));
    PageUp(p, k, va);
    assert (q + 1) * e == q * e + e;
    DivSpan(n, e, q);
  }

  lemma {:induction false} FindLevel(p: Paging, k: nat, t: Node, va: nat)
    requires WF(p, k, t)
    ensures Find(p, k, t, va).Some? ==> Find(p, k, t, va).value.level <= k
    decreases t
  {
    IndexInTable(p, k, va);
    var x := t.slots[IndexOf(p, k, va)];
    if x.Sub? {
      assert SlotWF(p, k, x);
      FindLevel(p, k - 1, x.node, va);
    }
  }

  /** What the translations of one page of the table tell about its entry. */
  lemma {:induction false} FindSlot(p: Paging, k: nat, t: Node, va: nat, j: nat)
    requires WF(p, k, t) && IndexOf(p, k, va) == j < |t.slots|
    ensures SlotWF(p, k, t.slots[j]) && Find(p, k, t, va) == FindIn(p, k, t.slots[j], va)
  {
  }

  lemma {:induction false} SolidSub(p: Paging, k: nat, q: nat, t: Node, j: nat)
    requires WF(p, k, t) && Solid(p, k, q, t) && j < |t.slots| && t.slots[j].Sub?
    ensures k > 0 && WF(p, k - 1, t.slots[j].node) && !Hollow(t.slots[j].node)
    ensures Solid(p, k - 1, q * p.entries[k] + j, t.slots[j].node)
  {
    hide PageNo, IndexOf, Size;
    var u, n, m := t.slots[j].node, q * p.entries[k] + j, k - 1;
    assert SlotWF(p, k, t.slots[j]);
    FirstOfFacts(p, k, q, j);
    assert !EmptyAt(p, k, t, FirstOf(p, k, q, j), k - 1);
    forall va: nat, l: nat | PageNo(p, k, va) == n && l < m ensures !EmptyAt(p, m, u, va, l) {
      SamePageUp(p, k, va, FirstOf(p, k, q, j));
      assert !EmptyAt(p, k, t, va, l);
    }
  }

  /** A table with entries translates something. */
  lemma {:induction false} SolidFinds(p: Paging, k: nat, q: nat, t: Node) returns (va: nat)
    requires WF(p, k, t) && Solid(p, k, q, t) && !Hollow(t)
    ensures PageNo(p, k + 1, va) == q && Find(p, k, t, va).Some?
    decreases t
  {
    hide PageNo, IndexOf, Size, WF;
    var j :| 0 <= j < |t.slots| && !t.slots[j].Hole?;
    FirstOfFacts(p, k, q, j);
    va := FirstOf(p, k, q, j);
    FindSlot(p, k, t, va, j);
    if t.slots[j].Sub? {
      SolidSub(p, k, q, t, j);
      var x := SolidFinds(p, k - 1, q * p.entries[k] + j, t.slots[j].node);
      SamePageUp(p, k, x, va);
      FindSlot(p, k, t, x, j);
      va := x;
    }
  }

  /** Equal translations, tables from a common stock of frames, none without entries: the same tree. */
  lemma {:induction false} SameTree(p: Paging, k: nat, q: nat, a: Node, b: Node, c: Node)
    requires WF(p, k, a) && WF(p, k, b) && Within(a, c) && Within(b, c)
    requires Solid(p, k, q, a) && Solid(p, k, q, b)
    requires SameFinds(p, k, q, a, b)
    ensures a == b
    decreases a
  {
    hide PageNo, IndexOf, Size, WF, Find, Solid, Hollow, SameFinds;
    forall j | 0 <= j < |a.slots| ensures a.slots[j] == b.slots[j] {
      SameKind(p, k, q, a, b, j);
      if a.slots[j].Sub? {
        SolidSub(p, k, q, a, j);
        SolidSub(p, k, q, b, j);
        SameFindsBelow(p, k, q, a, b, j);
        SameTree(p, k - 1, q * p.entries[k] + j, a.slots[j].node, b.slots[j].node, c.slots[j].node);
      }
    }
    assert a.slots == b.slots;
  }

  ghost predicate SameFinds(p: Paging, k: nat, q: nat, a: Node, b: Node)
    requires WF(p, k, a) && WF(p, k, b)
  {
    forall va: nat | PageNo(p, k + 1, va) == q :: Find(p, k, a, va) == Find(p, k, b, va)
  }

  lemma {:induction false} SameFindsBelow(p: Paging, k: nat, q: nat, a: Node, b: Node, j: nat)
    requires WF(p, k, a) && WF(p, k, b) && SameFinds(p, k, q, a, b) && j < |a.slots| && a.slots[j].Sub?
    requires b.slots[j].Sub?
    requires k > 0 && WF(p, k - 1, a.slots[j].node) && WF(p, k - 1, b.slots[j].node)
    ensures SameFinds(p, k - 1, q * p.entries[k] + j, a.slots[j].node, b.slots[j].node)
  {
    hide PageNo, IndexOf, Size, WF, Find;
    var n, i := q * p.entries[k] + j, k - 1;
    FirstOfFacts(p, k, q, j);
    forall va: nat | PageNo(p, k, va) == n ensures Find(p, i, a.slots[j].node, va) == Find(p, i, b.slots[j].node, va) {
      SamePageUp(p, k, va, FirstOf(p, k, q, j));
      FindSlot(p, k, a, va, j);
      FindSlot(p, k, b, va, j);
    }
  }

  /** Entries with the same translations are of the same kind, and equal if they are not tables. */
  lemma {:induction false} SameKind(p: Paging, k: nat, q: nat, a: Node, b: Node, j: nat)
    requires WF(p, k, a) && WF(p, k, b) && SameFinds(p, k, q, a, b) && j < |a.slots|
    requires Solid(p, k, q, a) && Solid(p, k, q, b)
    ensures (a.slots[j].Sub? <==> b.slots[j].Sub?) && (!a.slots[j].Sub? ==> a.slots[j] == b.slots[j])
  {
    hide PageNo, IndexOf, Size, WF, Find, Solid, Hollow;
    FirstOfFacts(p, k, q, j);
    var va := FirstOf(p, k, q, j);
    FindSlot(p, k, a, va, j);
    FindSlot(p, k, b, va, j);
    assert Find(p, k, a, va) == Find(p, k, b, va);
    if a.slots[j].Sub? && !b.slots[j].Sub? {
      NotASub(p, k, q, b, a, j);
    }
    if b.slots[j].Sub? && !a.slots[j].Sub? {
      NotASub(p, k, q, a, b, j);
    }
  }

  /** A table below an entry translates something at a lower level, which neither a page nor a vacant entry does. */
  lemma {:induction false} NotASub(p: Paging, k: nat, q: nat, a: Node, b: Node, j: nat)
    requires WF(p, k, a) && WF(p, k, b) && SameFinds(p, k, q, a, b) && j < |a.slots|
    requires Solid(p, k, q, b) && b.slots[j].Sub?
    ensures a.slots[j].Sub?
  {
    hide PageNo, IndexOf, Size, WF, Find, Solid, Hollow;
    SolidSub(p, k, q, b, j);
    FirstOfFacts(p, k, q, j);
    var x := SolidFinds(p, k - 1, q * p.entries[k] + j, b.slots[j].node);
    SamePageUp(p, k, x, FirstOf(p, k, q, j));
    FindSlot(p, k, a, x, j);
    FindSlot(p, k, b, x, j);
    FindLevel(p, k - 1, b.slots[j].node, x);
    assert Find(p, k, a, x) == Find(p, k, b, x);
  }

  // ---- Frames ----

  lemma {:induction false} WithinOwns(a: Node, b: Node, f: nat)
    requires Within(a, b) && Owns(a, f)
    ensures Owns(b, f)
    decreases a
  {
    if f != a.frame {
      var i :| 0 <= i < |a.slots| && a.slots[i].Sub? && Owns(a.slots[i].node, f);
      WithinOwns(a.slots[i].node, b.slots[i].node, f);
    }
  }

  /** Frames that left the tree are free, and frames that came in were. */
  lemma {:induction false} FramesMoved(p: Paging, k: nat, t: Node, mem: Memory, free: set<nat>, t': Node, mem': Memory,
                                       free': set<nat>)
    requires Good(p, k, mem, free, t) && Good(p, k, mem', free', t') && Kept(t, mem, free, t', mem', free')
    ensures Within(t, t') ==> free' <= free
    ensures Within(t', t) ==> free <= free'
    ensures t' == t ==> free' == free
  {
    hide Owns, Within, Apart, Rep, WF;
    if Within(t, t') {
      forall f | f in free' ensures f in free {
        if Owns(t, f) {
          WithinOwns(t, t', f);
        }
      }
    }
    if Within(t', t) {
      forall f | f in free ensures f in free' {
        if Owns(t', f) {
          WithinOwns(t', t, f);
        }
      }
    }
    if t' == t {
      forall f ensures f in free' <==> f in free {
      }
    }
  }

  // ---- Which tables exist ----

  /** The frame of the table at level `j` on the way to `va`. */
  function TableAt(p: Paging, k: nat, t: Node, va: nat, j: nat): Option<nat>
    requires WF(p, k, t) && j < k
    decreases t
  {
    IndexInTable(p, k, va);
    var x := t.slots[IndexOf(p, k, va)];
    assert SlotWF(p, k, x);
    if !x.Sub? then None else if j == k - 1 then Some(x.node.frame) else TableAt(p, k - 1, x.node, va, j)
  }

  /** Of the tables there were, exactly those are left that still translate something. */
  lemma {:induction false} TablesLeft(p: Paging, k: nat, q: nat, t: Node, t': Node, va: nat, j: nat)
    requires WF(p, k, t) && WF(p, k, t') && Within(t', t) && Solid(p, k, q, t') && PageNo(p, k + 1, va) == q && j < k
    ensures TableAt(p, k, t', va, j).Some? ==> TableAt(p, k, t', va, j) == TableAt(p, k, t, va, j)
    ensures TableAt(p, k, t', va, j).Some? <==> Used(p, k, t', va, j)
    decreases t'
  {
    hide PageNo, IndexOf, Size, Find, Hollow, Solid;
    IndexInTable(p, k, va);
    var i := IndexOf(p, k, va);
    var x := t'.slots[i];
    assert SlotWF(p, k, x) && SlotWF(p, k, t.slots[i]);
    if x.Sub? {
      SolidSub(p, k, q, t', i);
      if j == k - 1 {
        var y := SolidFinds(p, k - 1, PageNo(p, k, va), x.node);
        SamePageUp(p, k, y, va);
        FindSlot(p, k, t', y, i);
        FindLevel(p, k - 1, x.node, y);
        assert Used(p, k, t', va, j);
      } else {
        TablesLeft(p, k - 1, PageNo(p, k, va), t.slots[i].node, x.node, va, j);
        UsedBelow(p, k, t', va, j, i);
      }
    } else {
      NotUsed(p, k, t', va, j, i);
    }
  }

  /** Some address of the page at level `j + 1` is translated at level `j` or below. */
  ghost predicate Used(p: Paging, k: nat, t: Node, va: nat, j: nat)
    requires WF(p, k, t) && j < k
  {
    exists y: nat ::
      Find(p, k, t, y).Some? && Find(p, k, t, y).value.level <= j && PageNo(p, j + 1, y) == PageNo(p, j + 1, va)
  }

  lemma {:induction false} UsedBelow(p: Paging, k: nat, t: Node, va: nat, j: nat, i: nat)
    requires WF(p, k, t) && j + 1 < k && i == IndexOf(p, k, va) < |t.slots| && t.slots[i].Sub?
    requires WF(p, k - 1, t.slots[i].node)
    ensures Used(p, k, t, va, j) <==> Used(p, k - 1, t.slots[i].node, va, j)
  {
    hide PageNo, IndexOf, Size, Find;
    var u := t.slots[i].node;
    if Used(p, k, t, va, j) {
      var y: nat :| Find(p, k, t, y).Some? && Find(p, k, t, y).value.level <= j
        && PageNo(p, j + 1, y) == PageNo(p, j + 1, va);
      UpFrom(p, j + 1, k, y, va);
      SamePageUp(p, k, y, va);
      FindSlot(p, k, t, y, i);
      assert Find(p, k - 1, u, y) == Find(p, k, t, y);
    }
    if Used(p, k - 1, u, va, j) {
      var y: nat :| Find(p, k - 1, u, y).Some? && Find(p, k - 1, u, y).value.level <= j
        && PageNo(p, j + 1, y) == PageNo(p, j + 1, va);
      UpFrom(p, j + 1, k, y, va);
      SamePageUp(p, k, y, va);
      FindSlot(p, k, t, y, i);
      assert Find(p, k - 1, u, y) == Find(p, k, t, y);
    }
  }

  lemma {:induction false} NotUsed(p: Paging, k: nat, t: Node, va: nat, j: nat, i: nat)
    requires WF(p, k, t) && j < k && i == IndexOf(p, k, va) < |t.slots| && !t.slots[i].Sub?
    ensures !Used(p, k, t, va, j)
  {
    hide PageNo, IndexOf, Size, Find;
    forall y: nat | Find(p, k, t, y).Some?
      && PageNo(p, j + 1, y) == PageNo(p, j + 1, va) ensures Find(p, k, t, y).value.level > j {
      UpFrom(p, j + 1, k, y, va);
      SamePageUp(p, k, y, va);
      FindSlot(p, k, t, y, i);
    }
  }

  // ---- Which paths a walk for pages of level `s` can follow ----

  predicate AtLevel(s: nat, r: Option<Translation>) {
    r.None? || r.value.level == s
  }

  /** No table below level `s` on the way to the part of the range in table `q` is without entries. */
  ghost predicate Furnished(p: Paging, k: nat, s: nat, q: nat, t: Node, start: nat, end: nat)
    requires WF(p, k, t) && s <= k
  {
    forall va: nat, j: nat | start <= va < end && PageNo(p, k + 1, va) == q && j < s :: !EmptyAt(p, k, t, va, j)
  }

  lemma {:induction false} FurnishedSub(p: Paging, k: nat, s: nat, q: nat, t: Node, start: nat, end: nat, va: nat,
                                        i: nat)
    requires WF(p, k, t) && s < k && Furnished(p, k, s, q, t, start, end) && PageNo(p, k + 1, va) == q
    requires i == IndexOf(p, k, va) < |t.slots| && t.slots[i].Sub? && WF(p, k - 1, t.slots[i].node)
    ensures Furnished(p, k - 1, s, PageNo(p, k, va), t.slots[i].node, start, end)
  {
    hide PageNo, IndexOf, Size, Hollow;
    var u, m := t.slots[i].node, k - 1;
    forall x: nat, j: nat | start <= x < end && PageNo(p, k, x) == PageNo(p, k, va) && j < s
      ensures !EmptyAt(p, m, u, x, j)
    {
      SamePageUp(p, k, x, va);
      assert !EmptyAt(p, k, t, x, j);
    }
  }

  /** A table below an entry of the range would be without entries, or translate something at a lower level. */
  lemma {:induction false} NoSubHere(p: Paging, s: nat, q: nat, t: Node, start: nat, end: nat, va: nat, i: nat)
    requires WF(p, s, t) && Furnished(p, s, s, q, t, start, end) && PageNo(p, s + 1, va) == q && start <= va < end
    requires Aligned(p, s, start) && Aligned(p, s, end) && i == IndexOf(p, s, va) < |t.slots|
    requires forall x: nat | start <= x < end && PageNo(p, s + 1, x) == q :: AtLevel(s, Find(p, s, t, x))
    ensures !t.slots[i].Sub?
  {
    hide PageNo, IndexOf, Size, Find, Hollow, Aligned;
    if t.slots[i].Sub? {
      FindSlot(p, s, t, va, i);
      var u, m, n := t.slots[i].node, s - 1, PageNo(p, s, va);
      assert !EmptyAt(p, s, t, va, m);
      forall y: nat, j: nat | PageNo(p, s, y) == n && j < m ensures !EmptyAt(p, m, u, y, j) {
        WholePage(p, s, start, end, va, y);
        SamePageUp(p, s, y, va);
        assert !EmptyAt(p, s, t, y, j);
      }
      var y := SolidFinds(p, m, n, u);
      FindLevel(p, m, u, y);
      WholePage(p, s, start, end, va, y);
      SamePageUp(p, s, y, va);
      FindSlot(p, s, t, y, i);
    }
  }

  /** Where whole pages of level `s` are mapped as such or not at all, and no table below that level is without entries,
      only tables and missing ones lead there. */
  lemma {:induction false} AtLevelReady(p: Paging, k: nat, s: nat, q: nat, t: Node, start: nat, end: nat, va: nat)
    requires WF(p, k, t) && s <= k && Furnished(p, k, s, q, t, start, end) && PageNo(p, k + 1, va) == q
    requires start <= va < end && Aligned(p, s, start) && Aligned(p, s, end)
    requires forall x: nat | start <= x < end && PageNo(p, k + 1, x) == q :: AtLevel(s, Find(p, k, t, x))
    ensures ReadyAt(p, k, s, t, va)
    decreases t
  {
    hide PageNo, IndexOf, Size, Find, Furnished, Aligned;
    IndexInTable(p, k, va);
    var i, n := IndexOf(p, k, va), PageNo(p, k, va);
    var x := t.slots[i];
    FindSlot(p, k, t, va, i);
    assert AtLevel(s, Find(p, k, t, va));
    if k == s {
      NoSubHere(p, s, q, t, start, end, va, i);
    } else if x.Sub? {
      var u, j := x.node, k - 1;
      forall y: nat | start <= y < end && PageNo(p, k, y) == n ensures AtLevel(s, Find(p, j, u, y)) {
        SamePageUp(p, k, y, va);
        FindSlot(p, k, t, y, i);
        assert AtLevel(s, Find(p, k, t, y));
      }
      FurnishedSub(p, k, s, q, t, start, end, va, i);
      AtLevelReady(p, k - 1, s, n, u, start, end, va);
    }
  }

  /** Conversely there is no table below level `s` at all. */
  lemma {:induction false} ReadyFurnished(p: Paging, k: nat, s: nat, t: Node, va: nat, j: nat)
    requires WF(p, k, t) && j < s <= k && ReadyAt(p, k, s, t, va)
    ensures !EmptyAt(p, k, t, va, j)
    decreases t
  {
    hide IndexOf, Size, Hollow;
    IndexInTable(p, k, va);
    var x := t.slots[IndexOf(p, k, va)];
    assert SlotWF(p, k, x);
    if s < k && x.Sub? {
      ReadyFurnished(p, k - 1, s, x.node, va, j);
    }
  }

  /** So they do where a page of level `s` is mapped. */
  lemma {:induction false} MappedReady(p: Paging, k: nat, s: nat, t: Node, va: nat)
    requires WF(p, k, t) && s <= k && Find(p, k, t, va).Some? && Find(p, k, t, va).value.level == s
    ensures ReadyAt(p, k, s, t, va)
    decreases t
  {
    hide IndexOf, Size;
    IndexInTable(p, k, va);
    var i := IndexOf(p, k, va);
    FindSlot(p, k, t, va, i);
    if t.slots[i].Sub? {
      FindLevel(p, k - 1, t.slots[i].node, va);
      MappedReady(p, k - 1, s, t.slots[i].node, va);
    }
  }

  /** An aligned range contains whole pages. */
  lemma {:induction false} WholePage(p: Paging, s: nat, start: nat, end: nat, va: nat, y: nat)
    requires s <= |p.entries| && Aligned(p, s, start) && Aligned(p, s, end) && start <= va < end
    requires PageNo(p, s, y) == PageNo(p, s, va)
    ensures start <= y < end
  {
    hide Size;
    var b, n := Size(p, s), PageNo(p, s, va);
    PageSpan(p, s, y, n);
    PageSpan(p, s, va, n);
    DivSpan(start, b, start / b);
    DivSpan(end, b, end / b);
    DivMonotone(start, va, b);
    Scale(start / b, n, b);
    if end / b <= n {
      Scale(end / b, n, b);
    }
    Scale(n + 1, end / b, b);
  }
}
