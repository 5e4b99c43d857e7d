/**
 What mapping, remapping, changing attributes and unmapping do to the tree of tables, address by address
 (lib/mem-mmu/src/address_space.rs:536-804), independent of how the walk reaches the entries.
 */
module Effects {
  import opened Options
  import opened Pagings
  import opened Tables

  datatype Kind = Map(attrs: Attrs) | Remap | SetAttributes(attrs: Attrs) | Unmap {
    predicate TakesPhys() { Map? || Remap? }
  }

  /** What the operation makes of a translation, `phys` being the new physical address for the same virtual one. */
  function After(kind: Kind, s: nat, old_: Option<Translation>, phys: nat): Option<Translation> {
    match kind
    case Map(attrs) => Some(Translation(phys, attrs, s))
    case Remap => if old_.Some? then Some(Translation(phys, old_.value.attrs, s)) else None
    case SetAttributes(attrs) => if old_.Some? then Some(Translation(old_.value.phys, attrs, s)) else None
    case Unmap => None
  }

  /** What callers must guarantee of every translation in the range. */
  predicate Allowed(kind: Kind, s: nat, old_: Option<Translation>) {
    match kind
    case Map(_) => old_ == None
    case Unmap => true
    case _ => old_.Some? && old_.value.level == s
  }

  /** Address by address: inside `lo..hi` the operation took effect, elsewhere in the table `q` nothing changed. */
  ghost predicate Effect(kind: Kind, p: Paging, k: nat, s: nat, q: nat, t: Node, t': Node, lo: nat, hi: nat, phys: nat)
    requires WF(p, k, t) && WF(p, k, t')
  {
    forall va: nat | PageNo(p, k + 1, va) == q ::
      Find(p, k, t', va) == if lo <= va < hi then After(kind, s, Find(p, k, t, va), phys + (va - lo))
        else Find(p, k, t, va)
  }

  lemma {:induction false} EffectNone(kind: Kind, p: Paging, k: nat, s: nat, q: nat, t: Node, t': Node, lo: nat,
                                      phys: nat)
    requires WF(p, k, t) && WF(p, k, t') && forall va: nat :: Find(p, k, t', va) == Find(p, k, t, va)
    ensures Effect(kind, p, k, s, q, t, t', lo, lo, phys)
  {
    hide Find;
  }

  /** The walk proceeds part by part. */
  lemma {:induction false} EffectTrans(kind: Kind, p: Paging, k: nat, s: nat, q: nat, t: Node, t1: Node, t2: Node,
                                       lo: nat, mid: nat, hi: nat, phys: nat, phys': nat)
    requires WF(p, k, t) && WF(p, k, t1) && WF(p, k, t2) && lo <= mid <= hi
    requires Effect(kind, p, k, s, q, t, t1, lo, mid, phys) && Effect(kind, p, k, s, q, t1, t2, mid, hi, phys')
    requires kind.TakesPhys() ==> phys' == phys + (mid - lo)
    ensures Effect(kind, p, k, s, q, t, t2, lo, hi, phys)
  {
    hide Find, PageNo;
  }

  /** The addresses of a part are those of its entry, among the addresses of the table. */
  lemma {:induction false} PartIndex(p: Paging, k: nat, lo: nat, hi: nat, va: nat)
    requires k < |p.entries| && lo < hi && PageNo(p, k, lo) == PageNo(p, k, hi - 1)
    ensures lo <= va < hi ==>
      PageNo(p, k, va) == PageNo(p, k, lo) && PageNo(p, k + 1, va) == PageNo(p, k + 1, lo)
      && IndexOf(p, k, va) == IndexOf(p, k, lo)
    ensures PageNo(p, k + 1, va) == PageNo(p, k + 1, lo) && IndexOf(p, k, va) == IndexOf(p, k, lo) ==>
      PageNo(p, k, va) == PageNo(p, k, lo)
  {
    hide PageNo, IndexOf;
    if lo <= va < hi {
      PageMonotone(p, k, lo, va);
      PageMonotone(p, k, va, hi - 1);
      SamePageUp(p, k, lo, va);
    }
    if PageNo(p, k + 1, va) == PageNo(p, k + 1, lo) {
      SameIndex(p, k, lo, va);
    }
  }

  /** An effect below one entry is an effect on the table. */
  lemma {:induction false} EffectSub(kind: Kind, p: Paging, k: nat, s: nat, t: Node, i: nat, u: Node, lo: nat, hi: nat,
                                     upto: nat, phys: nat)
    requires WF(p, k, t) && k > 0 && lo < hi && lo <= upto <= hi && PageNo(p, k, lo) == PageNo(p, k, hi - 1)
    requires i == IndexOf(p, k, lo) < |t.slots| && t.slots[i].Sub? && WF(p, k - 1, t.slots[i].node) && WF(p, k - 1, u)
    requires Effect(kind, p, k - 1, s, PageNo(p, k, lo), t.slots[i].node, u, lo, upto, phys)
    ensures WF(p, k, With(t, i, Sub(u)))
    ensures Effect(kind, p, k, s, PageNo(p, k + 1, lo), t, With(t, i, Sub(u)), lo, upto, phys)
  {
    hide Find, PageNo, IndexOf, WF;
    var t', o := With(t, i, Sub(u)), t.slots[i].node;
    WFWith(p, k, t, i, Sub(u));
    forall va: nat | PageNo(p, k + 1, va) == PageNo(p, k + 1, lo)
      ensures Find(p, k, t', va) == if lo <= va < upto then After(kind, s, Find(p, k, t, va), phys + (va - lo))
        else Find(p, k, t, va)
    {
      PartIndex(p, k, lo, hi, va);
      FindWith(p, k, t, i, Sub(u), va);
      FindWith(p, k, t, i, Sub(o), va);
      assert With(t, i, Sub(o)) == t;
    }
  }

  // ---- Where the walk can go ----

  /** On the way to `va` there are only tables down to level `s`, possibly missing ones, and no table at level `s`
      below. */
  ghost predicate ReadyAt(p: Paging, k: nat, s: nat, t: Node, va: nat)
    requires WF(p, k, t) && s <= k
    decreases t
  {
    IndexInTable(p, k, va);
    var x := t.slots[IndexOf(p, k, va)];
    assert SlotWF(p, k, x);
    if k == s then !x.Sub? else x.Hole? || (x.Sub? && ReadyAt(p, k - 1, s, x.node, va))
  }

  ghost predicate Ready(p: Paging, k: nat, s: nat, t: Node, lo: nat, hi: nat)
    requires WF(p, k, t) && s <= k
  {
    forall va: nat | lo <= va < hi :: ReadyAt(p, k, s, t, va)
  }

  /** On the way to `va` a table above level `s` is missing. */
  ghost predicate MissingAt(p: Paging, k: nat, s: nat, t: Node, va: nat)
    requires WF(p, k, t) && s <= k
    decreases t
  {
    IndexInTable(p, k, va);
    var x := t.slots[IndexOf(p, k, va)];
    assert SlotWF(p, k, x);
    k > s && (x.Hole? || (x.Sub? && MissingAt(p, k - 1, s, x.node, va)))
  }

  lemma {:induction false} MissingWith(p: Paging, k: nat, s: nat, t: Node, i: nat, x: Slot, va: nat)
    requires WF(p, k, t) && i < |t.slots| && SlotWF(p, k, x) && s < k && IndexOf(p, k, va) == i
    ensures WF(p, k, With(t, i, x))
    ensures MissingAt(p, k, s, With(t, i, x), va) <==> x.Hole? || (x.Sub? && MissingAt(p, k - 1, s, x.node, va))
  {
    IndexInTable(p, k, va);
  }

  /** Where no table was taken out, a table that is missing was missing before. */
  lemma {:induction false} MissingBefore(p: Paging, k: nat, s: nat, t: Node, t': Node, va: nat)
    requires WF(p, k, t) && WF(p, k, t') && s <= k && Within(t, t') && ReadyAt(p, k, s, t, va)
    requires MissingAt(p, k, s, t', va)
    ensures MissingAt(p, k, s, t, va)
    decreases t
  {
    hide IndexOf;
    IndexInTable(p, k, va);
    var i := IndexOf(p, k, va);
    assert SlotWF(p, k, t.slots[i]) && SlotWF(p, k, t'.slots[i]);
    if t.slots[i].Sub? {
      MissingBefore(p, k - 1, s, t.slots[i].node, t'.slots[i].node, va);
    }
  }

  /** No path was closed. */
  ghost predicate ReadyKept(p: Paging, k: nat, s: nat, q: nat, t: Node, t': Node)
    requires WF(p, k, t) && WF(p, k, t') && s <= k
  {
    forall va: nat | PageNo(p, k + 1, va) == q && ReadyAt(p, k, s, t, va) :: ReadyAt(p, k, s, t', va)
  }

  lemma {:induction false} ReadyKeptTrans(p: Paging, k: nat, s: nat, q: nat, t: Node, t1: Node, t2: Node)
    requires WF(p, k, t) && WF(p, k, t1) && WF(p, k, t2) && s <= k
    requires ReadyKept(p, k, s, q, t, t1) && ReadyKept(p, k, s, q, t1, t2)
    ensures ReadyKept(p, k, s, q, t, t2)
  {
    hide PageNo, ReadyAt, WF;
  }

  /** Changing one entry changes only the paths through it. */
  lemma {:induction false} ReadyWith(p: Paging, k: nat, s: nat, t: Node, i: nat, x: Slot, va: nat)
    requires WF(p, k, t) && i < |t.slots| && SlotWF(p, k, x) && s <= k
    ensures WF(p, k, With(t, i, x))
    ensures ReadyAt(p, k, s, With(t, i, x), va) <==>
      if IndexOf(p, k, va) != i then ReadyAt(p, k, s, t, va)
      else if k == s then !x.Sub? else x.Hole? || (x.Sub? && ReadyAt(p, k - 1, s, x.node, va))
  {
    IndexInTable(p, k, va);
  }

  // ---- Tables without entries ----

  ghost predicate Hollow(t: Node) {
    forall i | 0 <= i < |t.slots| :: t.slots[i].Hole?
  }

  /** Some address of `lo..hi` is in the same page as `va`. */
  ghost predicate Touches(p: Paging, k: nat, va: nat, lo: nat, hi: nat)
    requires k <= |p.entries|
  {
    exists x: nat :: lo <= x < hi && PageNo(p, k, x) == PageNo(p, k, va)
  }

  lemma {:induction false} TouchesSplit(p: Paging, k: nat, va: nat, lo: nat, mid: nat, hi: nat)
    requires k <= |p.entries| && lo <= mid <= hi
    ensures Touches(p, k, va, lo, hi) <==> Touches(p, k, va, lo, mid) || Touches(p, k, va, mid, hi)
  {
    hide PageNo;
  }

  /** A small page touches a range only where the large page around it does. */
  lemma {:induction false} TouchesUp(p: Paging, j: nat, k: nat, va: nat, lo: nat, hi: nat)
    requires j <= k <= |p.entries| && Touches(p, j, va, lo, hi)
    ensures exists x: nat :: lo <= x < hi && PageNo(p, j, x) == PageNo(p, j, va) && PageNo(p, k, x) == PageNo(p, k, va)
  {
    hide PageNo;
    var x: nat :| lo <= x < hi && PageNo(p, j, x) == PageNo(p, j, va);
    UpFrom(p, j, k, x, va);
  }

  /** On the way to `va` there is a table at level `j`, and it has no entries. */
  ghost predicate EmptyAt(p: Paging, k: nat, t: Node, va: nat, j: nat)
    requires WF(p, k, t) && j < k
    decreases t
  {
    IndexInTable(p, k, va);
    var x := t.slots[IndexOf(p, k, va)];
    assert SlotWF(p, k, x);
    x.Sub? && if j == k - 1 then Hollow(x.node) else EmptyAt(p, k - 1, x.node, va, j)
  }

  /** No table below `t` is without entries. */
  ghost predicate Solid(p: Paging, k: nat, q: nat, t: Node)
    requires WF(p, k, t)
  {
    forall va: nat, j: nat | PageNo(p, k + 1, va) == q && j < k :: !EmptyAt(p, k, t, va, j)
  }

  lemma {:induction false} EmptyWith(p: Paging, k: nat, t: Node, i: nat, x: Slot, va: nat, j: nat)
    requires WF(p, k, t) && i < |t.slots| && SlotWF(p, k, x) && j < k
    ensures WF(p, k, With(t, i, x))
    ensures EmptyAt(p, k, With(t, i, x), va, j) <==>
      if IndexOf(p, k, va) != i then EmptyAt(p, k, t, va, j)
      else x.Sub? && if j == k - 1 then Hollow(x.node) else EmptyAt(p, k - 1, x.node, va, j)
  {
    IndexInTable(p, k, va);
  }

  /** The walk from `lo` got to `mid` on the way to `hi`: tables without entries are on the way to the rest of the
      range, or they were there before and not on the way to what was walked. */
  ghost predicate Trims(p: Paging, k: nat, q: nat, t: Node, t': Node, lo: nat, mid: nat, hi: nat)
    requires WF(p, k, t) && WF(p, k, t')
  {
    forall va: nat, j: nat | PageNo(p, k + 1, va) == q && j < k && EmptyAt(p, k, t', va, j) ::
      Touches(p, j + 1, va, mid, hi) || (EmptyAt(p, k, t, va, j) && !Touches(p, j + 1, va, lo, mid))
  }

  lemma {:induction false} TrimsRefl(p: Paging, k: nat, q: nat, t: Node, lo: nat, hi: nat)
    requires WF(p, k, t)
    ensures Trims(p, k, q, t, t, lo, lo, hi)
  {
    hide PageNo, EmptyAt;
  }

  /** One walk to the end, and a second one from there. */
  lemma {:induction false} TrimsTrans(p: Paging, k: nat, q: nat, t: Node, t1: Node, t2: Node, lo: nat, mid: nat,
                                      upto: nat, hi: nat)
    requires WF(p, k, t) && WF(p, k, t1) && WF(p, k, t2) && lo <= mid <= upto <= hi
    requires Trims(p, k, q, t, t1, lo, mid, mid) && Trims(p, k, q, t1, t2, mid, upto, hi)
    ensures Trims(p, k, q, t, t2, lo, upto, hi)
  {
    hide PageNo, EmptyAt, WF;
    forall va: nat, j: nat | PageNo(p, k + 1, va) == q && j < k && EmptyAt(p, k, t2, va, j)
      ensures Touches(p, j + 1, va, upto, hi) || (EmptyAt(p, k, t, va, j) && !Touches(p, j + 1, va, lo, upto))
    {
      TouchesSplit(p, j + 1, va, lo, mid, upto);
    }
  }

  /** As if the walk had got nowhere. */
  lemma {:induction false} TrimsLess(p: Paging, k: nat, q: nat, t: Node, t': Node, lo: nat, mid: nat, hi: nat)
    requires WF(p, k, t) && WF(p, k, t') && lo <= mid <= hi && Trims(p, k, q, t, t', lo, mid, hi)
    ensures Trims(p, k, q, t, t', lo, lo, hi)
  {
    hide PageNo, EmptyAt, WF;
    forall va: nat, j: nat | PageNo(p, k + 1, va) == q && j < k && EmptyAt(p, k, t', va, j)
      ensures Touches(p, j + 1, va, lo, hi) || EmptyAt(p, k, t, va, j)
    {
      TouchesSplit(p, j + 1, va, lo, mid, hi);
    }
  }

  // ---- Which tables were there before ----

  /** Every table of `a` is also one of `b`, in the same place and the same frame. */
  ghost predicate Within(a: Node, b: Node)
    decreases a
  {
    && a.frame == b.frame && |a.slots| == |b.slots|
    && forall i | 0 <= i < |a.slots| && a.slots[i].Sub? :: b.slots[i].Sub? && Within(a.slots[i].node, b.slots[i].node)
  }

  lemma {:induction false} WithinRefl(a: Node)
    ensures Within(a, a)
    decreases a
  {
    forall i | 0 <= i < |a.slots| && a.slots[i].Sub? ensures Within(a.slots[i].node, a.slots[i].node) {
      WithinRefl(a.slots[i].node);
    }
  }

  lemma {:induction false} WithinTrans(a: Node, b: Node, c: Node)
    requires Within(a, b) && Within(b, c)
    ensures Within(a, c)
    decreases a
  {
    forall i | 0 <= i < |a.slots| && a.slots[i].Sub? ensures c.slots[i].Sub?
      && Within(a.slots[i].node, c.slots[i].node) {
      WithinTrans(a.slots[i].node, b.slots[i].node, c.slots[i].node);
    }
  }

  lemma {:induction false} WithinWith(a: Node, b: Node, i: nat, x: Slot, y: Slot)
    requires Within(a, b) && i < |a.slots| && (x.Sub? ==> y.Sub? && Within(x.node, y.node))
    ensures Within(With(a, i, x), With(b, i, y))
  {
  }

  /** Both trees have the same tables in the same places. */
  ghost predicate SameTables(a: Node, b: Node) {
    Within(a, b) && Within(b, a)
  }

  lemma {:induction false} SameTablesTrans(a: Node, b: Node, c: Node)
    requires SameTables(a, b) && SameTables(b, c)
    ensures SameTables(a, c)
  {
    hide Within;
    WithinTrans(a, b, c);
    WithinTrans(c, b, a);
  }

  lemma {:induction false} SameTablesSub(t: Node, i: nat, u: Node)
    requires i < |t.slots| && t.slots[i].Sub? && SameTables(t.slots[i].node, u)
    ensures SameTables(t, With(t, i, Sub(u)))
  {
    hide Within;
    WithinRefl(t);
    assert With(t, i, t.slots[i]) == t;
    WithinWith(t, t, i, t.slots[i], Sub(u));
    WithinWith(t, t, i, Sub(u), t.slots[i]);
  }

  /** Mapping only adds tables, unmapping only removes some, the others do neither. */
  ghost predicate Ordered(kind: Kind, t: Node, t': Node) {
    (!kind.Unmap? ==> Within(t, t')) && (!kind.Map? ==> Within(t', t))
  }

  lemma {:induction false} OrderedTrans(kind: Kind, a: Node, b: Node, c: Node)
    requires Ordered(kind, a, b) && Ordered(kind, b, c)
    ensures Ordered(kind, a, c)
  {
    hide Within;
    if !kind.Unmap? {
      WithinTrans(a, b, c);
    }
    if !kind.Map? {
      WithinTrans(c, b, a);
    }
  }

  lemma {:induction false} OrderedSub(kind: Kind, t: Node, i: nat, u: Node)
    requires i < |t.slots| && t.slots[i].Sub? && Ordered(kind, t.slots[i].node, u)
    ensures Ordered(kind, t, With(t, i, Sub(u)))
  {
    hide Within;
    WithinRefl(t);
    assert With(t, i, t.slots[i]) == t;
    if !kind.Unmap? {
      WithinWith(t, t, i, t.slots[i], Sub(u));
    }
    if !kind.Map? {
      WithinWith(t, t, i, Sub(u), t.slots[i]);
    }
  }

  // ---- Adding and removing a table ----

  /** A freshly allocated table. */
  function Blank(p: Paging, k: nat, frame: nat): (r: Node)
    requires k < |p.entries|
    ensures WF(p, k, r) && Hollow(r)
  {
    Node(frame, seq(p.entries[k], _ => Hole))
  }

  lemma {:induction false} BlankOwns(p: Paging, k: nat, frame: nat, f: nat)
    requires k < |p.entries|
    ensures Owns(Blank(p, k, frame), f) <==> f == frame
    ensures Apart(Blank(p, k, frame))
  {
  }

  lemma {:induction false} HollowFindsNothing(p: Paging, k: nat, t: Node, va: nat)
    requires WF(p, k, t) && Hollow(t)
    ensures Find(p, k, t, va) == None
  {
    IndexInTable(p, k, va);
  }

  lemma {:induction false} HollowReady(p: Paging, k: nat, s: nat, t: Node, va: nat)
    requires WF(p, k, t) && Hollow(t) && s <= k
    ensures ReadyAt(p, k, s, t, va)
  {
    IndexInTable(p, k, va);
  }

  lemma {:induction false} HollowHasNone(p: Paging, k: nat, t: Node, va: nat, j: nat)
    requires WF(p, k, t) && Hollow(t) && j < k
    ensures !EmptyAt(p, k, t, va, j)
  {
    IndexInTable(p, k, va);
  }

  lemma {:induction false} HollowOwns(t: Node, f: nat)
    requires Hollow(t)
    ensures Owns(t, f) <==> f == t.frame
  {
  }

  /** A free frame becomes a new, blank table below an empty entry. */
  lemma {:induction false} Grown(p: Paging, k: nat, mem: Memory, free: set<nat>, t: Node, i: nat, frame: nat,
                                 mem': Memory)
    requires Good(p, k, mem, free, t) && k > 0 && i < |t.slots| && t.slots[i].Hole? && frame in free
    requires |mem[t.frame]| == |t.slots| && t.frame in mem
    requires mem' == mem[frame := seq(p.entries[k - 1], _ => Vacant)][t.frame := mem[t.frame][i := Table(frame)]]
    ensures var t' := With(t, i, Sub(Blank(p, k - 1, frame)));
      && Good(p, k, mem', free - {frame}, t') && Kept(t, mem, free, t', mem', free - {frame})
      && Ordered(Map(0), t, t')
  {
    hide Owns, Apart, Rep, OwnsElse, Within;
    var u := Blank(p, k - 1, frame);
    var x, t' := Sub(u), With(t, i, Sub(u));
    forall f ensures Owns(u, f) <==> f == frame {
      BlankOwns(p, k - 1, frame, f);
    }
    BlankOwns(p, k - 1, frame, 0);
    forall f ensures Owns(t', f) <==> f == t.frame || Owns(u, f) || OwnsElse(t, i, f) {
      OwnsWith(t, i, x, f);
    }
    forall f ensures Owns(t, f) <==> f == t.frame || OwnsElse(t, i, f) {
      OwnsSplit(t, i, f);
    }
    forall f ensures OwnsElse(t, i, f) ==> f != t.frame {
      ApartSplit(t, i, f);
    }
    ApartWith(t, i, x);
    WFWith(p, k, t, i, x);
    BlankRep(p, k - 1, frame, mem');
    RepWith(mem, mem', t, i, x);
    WithinRefl(t);
    assert With(t, i, t.slots[i]) == t;
    WithinWith(t, t, i, t.slots[i], x);
  }

  lemma {:induction false} BlankRep(p: Paging, k: nat, frame: nat, mem: Memory)
    requires k < |p.entries| && frame in mem && mem[frame] == seq(p.entries[k], _ => Vacant)
    ensures Rep(mem, Blank(p, k, frame))
  {
    var t := Blank(p, k, frame);
    forall i | 0 <= i < |t.slots| ensures mem[frame][i] == PteOf(t.slots[i]) && !t.slots[i].Sub? {
      assert t.slots[i] == Hole;
    }
  }

  /** A table without entries is taken out and its frame becomes free. */
  lemma {:induction false} Pruned(p: Paging, k: nat, mem: Memory, free: set<nat>, t: Node, i: nat, mem': Memory)
    requires Good(p, k, mem, free, t) && k > 0 && i < |t.slots| && t.slots[i].Sub? && Hollow(t.slots[i].node)
    requires |mem[t.frame]| == |t.slots| && t.frame in mem
    requires mem' == mem[t.frame := mem[t.frame][i := Vacant]]
    ensures var t', free' := With(t, i, Hole), free + {t.slots[i].node.frame};
      && Good(p, k, mem', free', t') && Kept(t, mem, free, t', mem', free') && Ordered(Unmap, t, t')
  {
    hide Owns, Apart, Rep, WF, OwnsElse, Within;
    var u, t', free' := t.slots[i].node, With(t, i, Hole), free + {t.slots[i].node.frame};
    forall f ensures Owns(t', f) <==> f == t.frame || OwnsElse(t, i, f) {
      OwnsWith(t, i, Hole, f);
    }
    forall f ensures Owns(t, f) <==> Owns(t', f) || f == u.frame {
      OwnsSplit(t, i, f);
      HollowOwns(u, f);
    }
    assert !Owns(t', u.frame) by {
      HollowOwns(u, u.frame);
      ApartSplit(t, i, u.frame);
    }
    assert Kept(t, mem, free, t', mem', free');
    ApartWith(t, i, Hole);
    WFWith(p, k, t, i, Hole);
    forall f | OwnsElse(t, i, f) ensures f != t.frame {
      ApartSplit(t, i, f);
    }
    RepWith(mem, mem', t, i, Hole);
    WithinRefl(t);
    assert With(t, i, t.slots[i]) == t;
    WithinWith(t, t, i, Hole, t.slots[i]);
  }

  /** Neither changes a translation. */
  lemma {:induction false} SwapHollow(p: Paging, k: nat, t: Node, i: nat, u: Node, va: nat)
    requires WF(p, k, t) && k > 0 && i < |t.slots| && WF(p, k - 1, u) && Hollow(u)
    ensures WF(p, k, With(t, i, Sub(u))) && WF(p, k, With(t, i, Hole))
    ensures Find(p, k, With(t, i, Sub(u)), va) == Find(p, k, With(t, i, Hole), va)
  {
    hide Find, Hollow, WF, IndexOf;
    FindWith(p, k, t, i, Sub(u), va);
    FindWith(p, k, t, i, Hole, va);
    HollowFindsNothing(p, k - 1, u, va);
  }
}
