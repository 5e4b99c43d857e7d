/**
 The page tables in memory, the tree of tables they form, and what translation reads from it
 (lib/mem-mmu/src/table.rs, lib/mem-mmu/src/address_space.rs:112-156).
 */
module Tables {
  import opened Options
  import opened Pagings

  type Attrs = nat

  /** A page table entry as it stands in memory. */
  datatype Pte = Vacant | Table(frame: nat) | Leaf(phys: nat, attrs: Attrs)

  type Memory = map<nat, seq<Pte>>

  datatype Node = Node(frame: nat, slots: seq<Slot>)

  datatype Slot = Hole | Page(phys: nat, attrs: Attrs) | Sub(node: Node)

  /** What an address translates to, and the level of the entry that says so. */
  datatype Translation = Translation(phys: nat, attrs: Attrs, level: nat)

  function PteOf(x: Slot): Pte {
    match x
    case Hole => Vacant
    case Page(phys, attrs) => Leaf(phys, attrs)
    case Sub(u) => Table(u.frame)
  }

  // ---- The tree ----

  /** Tables have the number of entries of their level, and pages are aligned to their size. */
  ghost predicate WF(p: Paging, k: nat, t: Node)
    ensures WF(p, k, t) ==> k < |p.entries| && |t.slots| == p.entries[k]
    decreases t
  {
    k < |p.entries| && |t.slots| == p.entries[k] && forall i | 0 <= i < |t.slots| :: SlotWF(p, k, t.slots[i])
  }

  ghost predicate SlotWF(p: Paging, k: nat, x: Slot)
    requires k < |p.entries|
    decreases x
  {
    match x
    case Hole => true
    case Page(phys, _) => Aligned(p, k, phys)
    case Sub(u) => k > 0 && WF(p, k - 1, u)
  }

  ghost predicate Rep(mem: Memory, t: Node)
    decreases t
  {
    && t.frame in mem && |mem[t.frame]| == |t.slots|
    && forall i | 0 <= i < |t.slots| ::
       mem[t.frame][i] == PteOf(t.slots[i]) && (t.slots[i].Sub? ==> Rep(mem, t.slots[i].node))
  }

  /** The frame holds a table of the tree. */
  ghost predicate Owns(t: Node, f: nat)
    decreases t
  {
    f == t.frame || exists i :: 0 <= i < |t.slots| && t.slots[i].Sub? && Owns(t.slots[i].node, f)
  }

  /** No frame holds two tables. */
  ghost predicate Apart(t: Node)
    decreases t
  {
    && (forall i | 0 <= i < |t.slots| && t.slots[i].Sub? :: Apart(t.slots[i].node) && !Owns(t.slots[i].node, t.frame))
    && (forall i, j, f | 0 <= i < j < |t.slots| && t.slots[i].Sub? && t.slots[j].Sub? && Owns(t.slots[i].node, f) ::
       !Owns(t.slots[j].node, f))
  }

  /** A tree of tables as memory holds it, none of its frames free. */
  ghost predicate Good(p: Paging, k: nat, mem: Memory, free: set<nat>, t: Node) {
    WF(p, k, t) && Rep(mem, t) && Apart(t) && forall f | f in free :: !Owns(t, f)
  }

  /** Frames moved only between the tree and the free set, and no other frame changed. */
  ghost predicate Kept(t: Node, mem: Memory, free: set<nat>, t': Node, mem': Memory, free': set<nat>) {
    && t'.frame == t.frame
    && (forall f :: Owns(t', f) || f in free' <==> Owns(t, f) || f in free)
    && (forall f | f in mem && !Owns(t, f) && f !in free :: f in mem' && mem'[f] == mem[f])
  }

  function With(t: Node, i: nat, x: Slot): Node
    requires i < |t.slots|
  {
    Node(t.frame, t.slots[i := x])
  }

  lemma {:induction false} KeptTrans(t: Node, m: Memory, f: set<nat>, t1: Node, m1: Memory, f1: set<nat>, t2: Node,
                                     m2: Memory, f2: set<nat>)
    requires Kept(t, m, f, t1, m1, f1) && Kept(t1, m1, f1, t2, m2, f2)
    ensures Kept(t, m, f, t2, m2, f2)
  {
    hide Owns;
  }

  lemma {:induction false} KeptRefl(t: Node, m: Memory, f: set<nat>)
    ensures Kept(t, m, f, t, m, f)
  {
    hide Owns;
  }

  /** A tree none of whose frames changed is still there. */
  lemma {:induction false} RepFrame(mem: Memory, mem': Memory, t: Node)
    requires Rep(mem, t) && forall f | Owns(t, f) :: f in mem' && f in mem && mem'[f] == mem[f]
    ensures Rep(mem', t)
    decreases t
  {
    assert Owns(t, t.frame);
    forall i | 0 <= i < |t.slots| && t.slots[i].Sub? ensures Rep(mem', t.slots[i].node) {
      forall f | Owns(t.slots[i].node, f) ensures Owns(t, f) {
      }
      RepFrame(mem, mem', t.slots[i].node);
    }
  }

  lemma {:induction false} RepOwned(mem: Memory, t: Node, f: nat)
    requires Rep(mem, t) && Owns(t, f)
    ensures f in mem
    decreases t
  {
    if f != t.frame {
      var i :| 0 <= i < |t.slots| && t.slots[i].Sub? && Owns(t.slots[i].node, f);
      RepOwned(mem, t.slots[i].node, f);
    }
  }

  /** A table below a good one is good. */
  lemma {:induction false} GoodSub(p: Paging, k: nat, mem: Memory, free: set<nat>, t: Node, i: nat)
    requires Good(p, k, mem, free, t) && i < |t.slots| && t.slots[i].Sub?
    ensures k > 0 && Good(p, k - 1, mem, free, t.slots[i].node)
    ensures t.frame in mem && |mem[t.frame]| == |t.slots| && mem[t.frame][i] == Table(t.slots[i].node.frame)
  {
    var u := t.slots[i].node;
    assert SlotWF(p, k, t.slots[i]);
    forall f | f in free ensures !Owns(u, f) {
      assert Owns(u, f) ==> Owns(t, f);
    }
  }

  lemma {:induction false} OwnsWith(t: Node, i: nat, x: Slot, f: nat)
    requires i < |t.slots|
    ensures Owns(With(t, i, x), f) ==> f == t.frame || (x.Sub? && Owns(x.node, f)) || OwnsElse(t, i, f)
    ensures f == t.frame || (x.Sub? && Owns(x.node, f)) || OwnsElse(t, i, f) ==> Owns(With(t, i, x), f)
  {
    var t' := With(t, i, x);
    if x.Sub? && Owns(x.node, f) {
      assert t'.slots[i] == x;
    }
    if OwnsElse(t, i, f) {
      var j :| 0 <= j < |t.slots| && j != i && t.slots[j].Sub? && Owns(t.slots[j].node, f);
      assert t'.slots[j] == t.slots[j];
    }
    if Owns(t', f) && f != t.frame {
      var j :| 0 <= j < |t'.slots| && t'.slots[j].Sub? && Owns(t'.slots[j].node, f);
      assert j != i ==> t'.slots[j] == t.slots[j];
    }
  }

  /** Owned by a table below `t` other than that in slot `i`. */
  ghost predicate OwnsElse(t: Node, i: nat, f: nat) {
    exists j :: 0 <= j < |t.slots| && j != i && t.slots[j].Sub? && Owns(t.slots[j].node, f)
  }

  lemma {:induction false} OwnsSplit(t: Node, i: nat, f: nat)
    requires i < |t.slots|
    ensures Owns(t, f) <==> f == t.frame || (t.slots[i].Sub? && Owns(t.slots[i].node, f)) || OwnsElse(t, i, f)
  {
    OwnsWith(t, i, t.slots[i], f);
    assert With(t, i, t.slots[i]) == t;
  }

  /** What owns a frame below one slot owns none of the others. */
  lemma {:induction false} ApartSplit(t: Node, i: nat, f: nat)
    requires Apart(t) && i < |t.slots|
    ensures t.slots[i].Sub? && Owns(t.slots[i].node, f) ==> f != t.frame && !OwnsElse(t, i, f)
    ensures OwnsElse(t, i, f) ==> f != t.frame
  {
  }

  /** A slot may be rewritten when what it then refers to is a good tree of frames nobody else owns. */
  lemma {:induction false} ApartWith(t: Node, i: nat, x: Slot)
    requires Apart(t) && i < |t.slots|
    requires x.Sub? ==> Apart(x.node) && forall f | Owns(x.node, f) :: f != t.frame && !OwnsElse(t, i, f)
    ensures Apart(With(t, i, x))
  {
    var t' := With(t, i, x);
    forall a, b, f | 0 <= a < b < |t'.slots| && t'.slots[a].Sub? && t'.slots[b].Sub? && Owns(t'.slots[a].node, f)
      ensures !Owns(t'.slots[b].node, f)
    {
      if a == i {
        assert !OwnsElse(t, i, f);
        assert t'.slots[b] == t.slots[b];
      } else if b == i {
        assert t'.slots[a] == t.slots[a];
        assert OwnsElse(t, i, f);
      } else {
        assert t'.slots[a] == t.slots[a] && t'.slots[b] == t.slots[b];
      }
    }
  }

  /** Below `t`, the table in slot `i` became `u`: the whole tree follows. */
  lemma {:induction false} SubChanged(p: Paging, k: nat, mem: Memory, free: set<nat>, t: Node, i: nat, mem': Memory,
                                      free': set<nat>, u: Node)
    requires Good(p, k, mem, free, t) && i < |t.slots| && t.slots[i].Sub? && k > 0
    requires Good(p, k - 1, mem', free', u) && Kept(t.slots[i].node, mem, free, u, mem', free')
    ensures var t' := With(t, i, Sub(u)); Good(p, k, mem', free', t') && Kept(t, mem, free, t', mem', free')
  {
    hide Owns, Apart, Rep, WF, OwnsElse;
    var t', o := With(t, i, Sub(u)), t.slots[i].node;
    forall f ensures Owns(t', f) <==> f == t.frame || Owns(u, f) || OwnsElse(t, i, f) {
      OwnsWith(t, i, Sub(u), f);
    }
    forall f ensures Owns(t, f) <==> f == t.frame || Owns(o, f) || OwnsElse(t, i, f) {
      OwnsSplit(t, i, f);
    }
    forall f ensures Owns(o, f) ==> f != t.frame && !OwnsElse(t, i, f) {
      ApartSplit(t, i, f);
    }
    forall f ensures OwnsElse(t, i, f) ==> f != t.frame {
      ApartSplit(t, i, f);
    }
    GoodSub(p, k, mem, free, t, i);
    ApartWith(t, i, Sub(u));
    WFWith(p, k, t, i, Sub(u));
    assert mem[t.frame][i := PteOf(Sub(u))] == mem[t.frame];
    RepWith(mem, mem', t, i, Sub(u));
  }

  lemma {:induction false} WFWith(p: Paging, k: nat, t: Node, i: nat, x: Slot)
    requires WF(p, k, t) && i < |t.slots| && SlotWF(p, k, x)
    ensures WF(p, k, With(t, i, x))
  {
  }

  /** Memory holds the rewritten tree when the one entry was rewritten and the rest below it is kept. */
  lemma {:induction false} RepWith(mem: Memory, mem': Memory, t: Node, i: nat, x: Slot)
    requires Rep(mem, t) && i < |t.slots| && t.frame in mem' && t.frame in mem
    requires |mem[t.frame]| == |t.slots| && mem'[t.frame] == mem[t.frame][i := PteOf(x)]
    requires forall f | OwnsElse(t, i, f) :: f in mem ==> f in mem' && mem'[f] == mem[f]
    requires x.Sub? ==> Rep(mem', x.node)
    ensures Rep(mem', With(t, i, x))
  {
    var t' := With(t, i, x);
    forall j | 0 <= j < |t'.slots| && t'.slots[j].Sub? ensures Rep(mem', t'.slots[j].node) {
      if j != i {
        assert t'.slots[j] == t.slots[j];
        forall f | Owns(t.slots[j].node, f) ensures f in mem' && f in mem && mem'[f] == mem[f] {
          assert OwnsElse(t, i, f);
          RepOwned(mem, t.slots[j].node, f);
        }
        RepFrame(mem, mem', t.slots[j].node);
      }
    }
  }

  // ---- Translation ----

  /** The translation of `va` by a table at level `k`, if there is one. */
  function Find(p: Paging, k: nat, t: Node, va: nat): Option<Translation>
    requires WF(p, k, t)
    decreases t
  {
    IndexInTable(p, k, va);
    assert SlotWF(p, k, t.slots[IndexOf(p, k, va)]);
    FindIn(p, k, t.slots[IndexOf(p, k, va)], va)
  }

  function FindIn(p: Paging, k: nat, x: Slot, va: nat): Option<Translation>
    requires k < |p.entries| && SlotWF(p, k, x)
    decreases x
  {
    match x
    case Hole => None
    case Page(phys, attrs) => Some(Translation(phys + va % Size(p, k), attrs, k))
    case Sub(u) => Find(p, k - 1, u, va)
  }

  lemma {:induction false} FindWith(p: Paging, k: nat, t: Node, i: nat, x: Slot, va: nat)
    requires WF(p, k, t) && i < |t.slots| && SlotWF(p, k, x)
    ensures WF(p, k, With(t, i, x)) && IndexOf(p, k, va) < |t.slots|
    ensures Find(p, k, With(t, i, x), va) == if IndexOf(p, k, va) == i then FindIn(p, k, x, va) else Find(p, k, t, va)
  {
    IndexInTable(p, k, va);
  }
}
