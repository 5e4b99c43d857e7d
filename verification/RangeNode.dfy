/**
 Nodes and node pools of the range tree (lib/range-tree/src/node.rs).

 A node holds `B` pivots and `B` slots. The pivot `max` marks an absent entry. The
 last slot of a leaf is shared: it holds either a value (only in the middle of an
 insertion) or the link to the next leaf. A freed node keeps nothing but the link
 to the next freed node, and a freshly allocated node cannot be read at all.
 */
module Nodes {
  import opened Options

  type Half = h: nat | 2 <= h witness 2

  /** `B == 2 * half` for some `half >= 2`: any even capacity of at least four. */
  datatype Geometry = Geometry(half: Half, max: nat) {
    function B(): nat { 2 * half }
  }

  datatype Slot<+T> = Empty | Value(v: T) | NextLeaf(next: Option<nat>)

  datatype Cell<+T> =
    | Live(pivots: seq<nat>, slots: seq<Slot<T>>)
    | Uninit
    | Freed(next: Option<nat>)
  {
    ghost predicate Sized(g: Geometry) {
      Live? && |pivots| == g.B() && |slots| == g.B()
    }
  }

  // ---- In-place array moves, as functions of the array contents ----

  /** Inserts `x` at `pos`, shifting the elements up to `size` and losing the one at `size - 1`. */
  function InsertShift<X>(s: seq<X>, pos: nat, size: nat, x: X): (r: seq<X>)
    requires pos < size <= |s|
    ensures |r| == |s|
    ensures forall i | 0 <= i < |s| ::
      r[i] == if i < pos || size <= i then s[i] else if i == pos then x else s[i - 1]
  {
    s[..pos] + [x] + s[pos..size - 1] + s[size..]
  }

  /** Removes the element at `pos`, shifting all later ones down and writing `fill` last. */
  function RemoveShift<X>(s: seq<X>, pos: nat, fill: X): (r: seq<X>)
    requires pos < |s|
    ensures |r| == |s|
    ensures forall i | 0 <= i < |s| ::
      r[i] == if i < pos then s[i] else if i + 1 < |s| then s[i + 1] else fill
  {
    s[..pos] + s[pos + 1..] + [fill]
  }

  /** Overwrites `count` elements of `s` from `offset` on with the first elements of `src`. */
  function CopyOver<X>(s: seq<X>, offset: nat, src: seq<X>, count: nat): (r: seq<X>)
    requires offset + count <= |s| && count <= |src|
    ensures |r| == |s|
    ensures forall i | 0 <= i < |s| ::
      r[i] == if offset <= i < offset + count then src[i - offset] else s[i]
  {
    s[..offset] + src[..count] + s[offset + count..]
  }

  function Filled<X>(n: nat, x: X): (r: seq<X>)
    ensures |r| == n
    ensures forall i | 0 <= i < n :: r[i] == x
  {
    seq(n, _ => x)
  }

  /** The lower half of a split node: its upper pivots become absent, its slots stay. */
  function LowerHalf<T>(g: Geometry, c: Cell<T>): (r: Cell<T>)
    requires c.Sized(g)
    ensures r.Sized(g)
  {
    Live(c.pivots[..g.half] + Filled(g.half, g.max), c.slots)
  }

  /** The node that receives the upper half of a split node. */
  function UpperHalf<T>(g: Geometry, c: Cell<T>): (r: Cell<T>)
    requires c.Sized(g)
    ensures r.Sized(g)
  {
    Live(c.pivots[g.half..] + Filled(g.half, g.max), c.slots[g.half..] + Filled(g.half, Empty))
  }

  /** All indices of `free` and `refs` together cover `0..len`, each exactly once. */
  ghost predicate Accounted(refs: multiset<nat>, free: seq<nat>, len: nat) {
    forall i: nat :: refs[i] + multiset(free)[i] == if i < len then 1 else 0
  }

  ghost function HeadOf(s: seq<nat>): Option<nat> {
    if s == [] then None else Some(s[0])
  }

  /** `free` lists freed nodes, each linking to the next, none twice. */
  ghost predicate FreeChain<T>(cells: seq<Cell<T>>, free: seq<nat>) {
    && (forall i | 0 <= i < |free| :: free[i] < |cells| && cells[free[i]].Freed?)
    && (forall i, j | 0 <= i < j < |free| && j == i + 1 :: cells[free[i]].next == Some(free[j]))
    && (free != [] ==> cells[free[|free| - 1]].next == None)
    && (forall i, j | 0 <= i < j < |free| :: free[i] != free[j])
  }

  lemma {:induction false} FreeChainPop<T>(cells: seq<Cell<T>>, cells': seq<Cell<T>>, free: seq<nat>)
    requires FreeChain(cells, free) && free != []
    requires cells' == cells[free[0] := Uninit]
    ensures FreeChain(cells', free[1..])
    ensures cells[free[0]].next == HeadOf(free[1..])
  {
    var rest := free[1..];
    assert forall i | 0 <= i < |rest| :: rest[i] == free[i + 1] && cells'[rest[i]] == cells[rest[i]];
    assert |free| > 1 ==> free[1] == rest[0];
  }

  lemma {:induction false} FreeChainPush<T>(cells: seq<Cell<T>>, cells': seq<Cell<T>>, free: seq<nat>, r: nat)
    requires FreeChain(cells, free) && r < |cells| && cells[r].Live?
    requires cells' == cells[r := Freed(HeadOf(free))]
    ensures FreeChain(cells', [r] + free)
  {
    var all := [r] + free;
    forall i | 0 < i < |all| ensures all[i] == free[i - 1] != r && cells'[all[i]] == cells[all[i]] {
    }
    forall i, j | 0 <= i < j < |all| && j == i + 1 ensures cells'[all[i]].next == Some(all[j]) {
      if i > 0 {
        assert cells[free[i - 1]].next == Some(free[j - 1]);
      }
    }
  }

  /** A pool of nodes addressed by index, with freed nodes kept on a linked list. */
  class NodePool<T> {
    const geo: Geometry
    var cells: seq<Cell<T>>
    var freeHead: Option<nat>
    ghost var free: seq<nat>

    /** The free list threaded through the freed nodes is `free`. */
    ghost predicate Linked()
      reads this
    {
      freeHead == HeadOf(free) && FreeChain(cells, free)
    }

    ghost predicate IsLive(r: nat)
      reads this
    {
      r < |cells| && cells[r].Sized(geo)
    }

    constructor (g: Geometry)
      ensures geo == g && cells == [] && free == [] && Linked()
    {
      geo, cells, freeHead, free := g, [], None, [];
    }

    function Pivot(r: nat, pos: nat): nat
      requires IsLive(r) && pos < geo.B()
      reads this
    {
      cells[r].pivots[pos]
    }

    method SetPivot(r: nat, pos: nat, pivot: nat)
      requires Linked() && IsLive(r) && pos < geo.B()
      modifies this`cells
      ensures Linked()
      ensures cells == old(cells)[r := Live(old(cells)[r].pivots[pos := pivot], old(cells)[r].slots)]
    {
      cells := cells[r := Live(cells[r].pivots[pos := pivot], cells[r].slots)];
    }

    method SetSlot(r: nat, pos: nat, slot: Slot<T>)
      requires Linked() && IsLive(r) && pos < geo.B()
      modifies this`cells
      ensures Linked()
      ensures cells == old(cells)[r := Live(old(cells)[r].pivots, old(cells)[r].slots[pos := slot])]
    {
      cells := cells[r := Live(cells[r].pivots, cells[r].slots[pos := slot])];
    }

    method SetNextLeaf(r: nat, next: Option<nat>)
      requires Linked() && IsLive(r)
      modifies this`cells
      ensures Linked()
      ensures cells == old(cells)[r := Live(old(cells)[r].pivots, old(cells)[r].slots[geo.B() - 1 := NextLeaf(next)])]
    {
      SetSlot(r, geo.B() - 1, NextLeaf(next));
    }

    method InsertPivot(r: nat, pivot: nat, pos: nat, size: nat)
      requires Linked() && IsLive(r) && pos < size <= geo.B()
      modifies this`cells
      ensures Linked()
      ensures cells == old(cells)[r := Live(InsertShift(old(cells)[r].pivots, pos, size, pivot), old(cells)[r].slots)]
    {
      cells := cells[r := Live(InsertShift(cells[r].pivots, pos, size, pivot), cells[r].slots)];
    }

    method InsertValue(r: nat, value: T, pos: nat, size: nat)
      requires Linked() && IsLive(r) && pos < size <= geo.B()
      modifies this`cells
      ensures Linked()
      ensures cells ==
        old(cells)[r := Live(old(cells)[r].pivots, InsertShift(old(cells)[r].slots, pos, size, Value(value)))]
    {
      cells := cells[r := Live(cells[r].pivots, InsertShift(cells[r].slots, pos, size, Value(value)))];
    }

    method RemovePivot(r: nat, pos: nat)
      requires Linked() && IsLive(r) && pos < geo.B()
      modifies this`cells
      ensures Linked()
      ensures cells == old(cells)[r := Live(RemoveShift(old(cells)[r].pivots, pos, geo.max), old(cells)[r].slots)]
    {
      cells := cells[r := Live(RemoveShift(cells[r].pivots, pos, geo.max), cells[r].slots)];
    }

    /** The last slot keeps its contents, so a next-leaf link survives. */
    method RemoveValue(r: nat, pos: nat)
      requires Linked() && IsLive(r) && pos < geo.B()
      modifies this`cells
      ensures Linked()
      ensures cells == old(cells)[r := Live(old(cells)[r].pivots,
                                            RemoveShift(old(cells)[r].slots, pos, old(cells)[r].slots[geo.B() - 1]))]
    {
      cells := cells[r := Live(cells[r].pivots, RemoveShift(cells[r].slots, pos, cells[r].slots[geo.B() - 1]))];
    }

    method SplitInto(r: nat, dest: nat)
      requires Linked() && IsLive(r) && dest < |cells| && cells[dest].Uninit?
      modifies this`cells
      ensures Linked()
      ensures cells == old(cells)[r := LowerHalf(geo, old(cells)[r])][dest := UpperHalf(geo, old(cells)[r])]
    {
      var c := cells[r];
      cells := cells[r := LowerHalf(geo, c)][dest := UpperHalf(geo, c)];
    }

    method MergeFrom(r: nat, src: nat, offset: nat, count: nat)
      requires Linked() && IsLive(r) && IsLive(src) && offset + count <= geo.B()
      modifies this`cells
      ensures Linked()
      ensures cells == old(cells)[r := Live(CopyOver(old(cells)[r].pivots, offset, old(cells)[src].pivots, count),
                                            CopyOver(old(cells)[r].slots, offset, old(cells)[src].slots, count))]
    {
      cells := cells[r := Live(CopyOver(cells[r].pivots, offset, cells[src].pivots, count),
                               CopyOver(cells[r].slots, offset, cells[src].slots, count))];
    }

    method InitPivots(r: nat)
      requires Linked() && r < |cells| && cells[r].Uninit?
      modifies this`cells
      ensures Linked()
      ensures cells == old(cells)[r := Live(Filled(geo.B(), geo.max), Filled(geo.B(), Empty))]
    {
      cells := cells[r := Live(Filled(geo.B(), geo.max), Filled(geo.B(), Empty))];
    }

    /** Reuses the first freed node, or extends the pool; never hands out a node of `refs`. */
    method AllocNode(ghost refs: multiset<nat>) returns (r: nat)
      requires Linked() && Accounted(refs, free, |cells|)
      modifies this
      ensures Linked()
      ensures r !in refs && Accounted(refs + multiset{r}, free, |cells|)
      ensures |old(cells)| <= |cells| && r < |cells| && cells[r] == Uninit
      ensures forall i | 0 <= i < |old(cells)| && i != r :: cells[i] == old(cells)[i]
      ensures if old(free) == [] then r == |old(cells)| == |cells| - 1 && free == []
              else r == old(free)[0] && |cells| == |old(cells)| && free == old(free)[1..]
    {
      match freeHead
      case Some(head) =>
        r := head;
        assert free == [head] + free[1..];
        assert multiset(free) == multiset{head} + multiset(free[1..]);
        FreeChainPop(cells, cells[head := Uninit], free);
        freeHead := cells[head].next;
        cells := cells[head := Uninit];
        free := free[1..];
        assert (refs + multiset{r})[r] >= 1;
      case None =>
        r := |cells|;
        cells := cells + [Uninit];
        assert (refs + multiset(free))[r] == 0;
    }

    method FreeNode(ghost refs: multiset<nat>, r: nat)
      requires Linked() && IsLive(r) && r in refs && Accounted(refs, free, |cells|)
      modifies this
      ensures Linked()
      ensures Accounted(refs - multiset{r}, free, |cells|)
      ensures cells == old(cells)[r := Freed(old(freeHead))]
    {
      FreeChainPush(cells, cells[r := Freed(freeHead)], free, r);
      cells := cells[r := Freed(freeHead)];
      freeHead := Some(r);
      free := [r] + free;
      assert multiset(free) == multiset{r} + multiset(old(free));
    }

    method Clear()
      modifies this
      ensures Linked() && cells == [] && free == []
    {
      cells, freeHead, free := [], None, [];
    }

    method ClearAndAllocNode() returns (r: nat)
      modifies this
      ensures Linked() && r == 0 && cells == [Uninit] && free == []
    {
      cells, freeHead, free := [Uninit], None, [];
      r := 0;
    }
  }
}
