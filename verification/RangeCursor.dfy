/**
 The range tree and its cursor (lib/range-tree/src/cursor.rs, lib/range-tree/src/lib.rs).
 */
module Cursors {
  import opened Options
  import opened Nodes
  import opened Shapes
  import opened Cells
  import opened Paths
  import opened Searching
  import opened Inserting
  import opened Slimming
  import opened Removing
  import opened Models
  import opened Chains

  class RangeTree<V> {
    const geo: Geometry
    const leaf: NodePool<Item<V>>
    const internal: NodePool<nat>
    var height: nat
    var root: nat
    ghost var shape: Tree<V>

    ghost function Mem(): Store<V>
      reads leaf, internal
    {
      Store(leaf.cells, internal.cells)
    }

    /** The in-order sequence of entries. */
    ghost function Contents(): seq<Entry<V>>
      reads this
    {
      Flat(shape)
    }

    ghost predicate Pools()
      reads leaf, internal
    {
      && leaf.geo == geo && internal.geo == geo && leaf as object != internal
      && leaf.Linked() && internal.Linked()
    }

    /** Each pool slot is either reachable exactly once from the root or free exactly once. */
    ghost predicate Owned()
      reads this, leaf, internal
    {
      && Accounted(multiset(RefSeq(Leaves(shape))), leaf.free, |leaf.cells|)
      && Accounted(InnerRefs(shape), internal.free, |internal.cells|)
    }

    ghost predicate Valid()
      reads this, leaf, internal
      ensures Valid() ==> Pools()
    {
      && Pools()
      && root == shape.Ref()
      && TreeOK(geo, Mem(), shape, height)
      && Owned()
    }

    /** The tree only ever grew at its end: no leaf was freed, and only nodes on the right edge are more than half
        full. */
    ghost predicate GrownAtEnd()
      reads this, leaf
    {
      leaf.free == [] && Slim(geo, shape, height)
    }

    constructor (g: Geometry)
      ensures Valid() && fresh(this) && fresh(leaf) && fresh(internal)
      ensures geo == g && Contents() == [] && height == 0 && GrownAtEnd()
    {
      geo, height, root, shape := g, 0, 0, Leaf(LeafNode(0, []));
      leaf := new NodePool(g);
      internal := new NodePool(g);
      new;
      var r := leaf.AllocNode(multiset{});
      InitRoot(r);
    }

    /** Makes the allocated leaf `r`, which is leaf zero, an empty root. */
    method InitRoot(r: nat)
      requires leaf.geo == geo && internal.geo == geo && leaf as object != internal
      requires leaf.Linked() && r == 0 && leaf.cells == [Uninit] && leaf.free == []
      requires internal.Linked() && internal.cells == [] && internal.free == []
      requires height == 0
      modifies this, leaf
      ensures Valid() && Contents() == [] && height == 0 && |leaf.cells| == 1 && leaf.free == [] && GrownAtEnd()
    {
      hide TreeOK, Accounted, Flat, Leaves, InnerRefs, FreeChain;
      leaf.InitPivots(r);
      leaf.SetNextLeaf(r, None);
      root := 0;
      shape := Leaf(LeafNode(0, []));
      EmptyTree(geo, Mem());
    }

    /** Removes all entries and gives every node back at once. */
    method Clear()
      requires Pools()
      modifies this, leaf, internal
      ensures Valid() && Contents() == [] && height == 0
      ensures |leaf.cells| == 1 && internal.cells == [] && leaf.free == internal.free == []
    {
      internal.Clear();
      var r := leaf.ClearAndAllocNode();
      height := 0;
      InitRoot(r);
    }

    method IsEmpty() returns (empty: bool)
      requires Valid()
      ensures empty <==> Contents() == []
    {
      hide TreeOK, Accounted, Flat;
      EmptyTest(geo, Mem(), shape, height);
      if height == 0 {
        empty := leaf.Pivot(root, 0) == geo.max;
      } else {
        empty := false;
      }
    }

    /** The value of the first range that reaches `key`, if that range contains it. */
    method Get(key: nat) returns (value: Option<V>)
      requires Valid() && Sorted(Contents()) && key <= geo.max
      ensures Step(Contents(), Op.Get(key)) == (Contents(), if value.Some? then Found(value.value) else Missing)
    {
      hide *;
      var cursor := new RawCursor(this);
      cursor.Seek(key);
      PartitionUnique(Contents(), cursor.Index(), key);
      var iter := cursor.Iter();
      var e := iter.Next();
      StepOfGet(Contents(), key);
      if e.Some? && e.value.start <= key {
        value := Some(e.value.value);
      } else {
        value := None;
      }
    }

    /** Inserts a range unless it clashes with a neighbour. */
    method Insert(start: nat, last: nat, value: V) returns (ok: bool)
      requires Valid() && Sorted(Contents()) && last < geo.max
      modifies this, leaf, internal
      ensures Valid() && Sorted(Contents())
      ensures Step(old(Contents()), Op.Insert(start, last, value)) == (Contents(), if ok then Done else Overlap)
      ensures old(GrownAtEnd()) && PartitionPoint(old(Contents()), last) == |old(Contents())| ==> GrownAtEnd()
    {
      hide *;
      ghost var es := Contents();
      var cursor := new RawCursor(this);
      cursor.Seek(last);
      PartitionUnique(es, cursor.Index(), last);
      ghost var i := cursor.Index();
      StepOfInsert(es, start, last, value);
      var next := cursor.Current();
      if next.Some? && next.value.start < last {
        return false;
      }
      var moved := cursor.Prev();
      if moved {
        var prev := cursor.Current();
        if prev.Some? && prev.value.last > start {
          return false;
        }
        cursor.Next();
      }
      cursor.Insert(start, last, value);
      ok := true;
    }

    /** Removes the first range that reaches `key`, if that range contains it. */
    method Remove(key: nat) returns (value: Option<V>)
      requires Valid() && Sorted(Contents()) && key <= geo.max
      modifies this, leaf, internal
      ensures Valid() && Sorted(Contents())
      ensures Step(old(Contents()), Op.Remove(key)) == (Contents(), if value.Some? then Found(value.value) else Missing)
    {
      hide *;
      ghost var es := Contents();
      var cursor := new RawCursor(this);
      cursor.Seek(key);
      PartitionUnique(es, cursor.Index(), key);
      StepOfRemove(es, key);
      var e := cursor.Current();
      if e.Some? && e.value.start <= key {
        var removed := cursor.Remove();
        value := Some(removed.value);
      } else {
        value := None;
      }
    }

    /** One operation of a run. */
    method Apply(op: Op<V>) returns (reply: Reply<V>)
      requires Valid() && Sorted(Contents()) && InKeys(op, geo.max)
      modifies this, leaf, internal
      ensures Valid() && Sorted(Contents()) && Step(old(Contents()), op) == (Contents(), reply)
    {
      hide TreeOK, Accounted, Flat, Step, Sorted;
      match op {
        case Insert(start, last, value) =>
          var ok := Insert(start, last, value);
          reply := if ok then Done else Overlap;
        case Remove(key) =>
          var value := Remove(key);
          reply := if value.Some? then Found(value.value) else Missing;
        case Get(key) =>
          var value := Get(key);
          reply := if value.Some? then Found(value.value) else Missing;
        case Clear =>
          Clear();
          StepOfClear(old(Contents()));
          reply := Done;
      }
    }

    /** Every run of operations answers as the sequence model does and ends in its final sequence. */
    method ApplyAll(ops: seq<Op<V>>) returns (replies: seq<Reply<V>>)
      requires Valid() && Sorted(Contents()) && forall i | 0 <= i < |ops| :: InKeys(ops[i], geo.max)
      modifies this, leaf, internal
      ensures Valid() && Sorted(Contents()) && Run(old(Contents()), ops) == (Contents(), replies)
    {
      hide *;
      replies := [];
      RunNothing(Contents(), ops);
      for i := 0 to |ops|
        invariant Valid() && Sorted(Contents()) && Run(old(Contents()), ops[..i]) == (Contents(), replies)
      {
        var reply := Apply(ops[i]);
        RunMore(old(Contents()), ops, i);
        replies := replies + [reply];
      }
      assert ops[..|ops|] == ops;
    }

    /** Iterates over the ranges whose last element is within the bounds. */
    method Range(from: Bound, to: Bound) returns (es: seq<Entry<V>>)
      requires Valid() && Sorted(Contents())
      requires (from.Unbounded? || from.x < geo.max) && (to.Unbounded? || to.x < geo.max)
      ensures es == Selected(Contents(), from, to)
    {
      hide TreeOK, Accounted, Flat, FreeChain, Selected, PartitionPoint, Leaves, InnerRefs;
      KeysBelowMax(geo, Mem(), shape, height);
      var it := new RangeIter(this, from, to);
      ghost var i := it.raw.Index();
      es := it.Collect();
      BoundsSelect(Contents(), from, to, geo.max, i, PartitionPoint(Contents(), it.end));
    }

    /** An iterator at the first entry: leaf zero is always the left-most leaf. */
    method RawIterFirst() returns (it: RawIter<V>)
      requires Valid()
      ensures fresh(it) && it.Valid() && it.tree == this && it.Index() == 0
    {
      hide TreeOK, Accounted, Concat, Leaves, LeafCell;
      FirstLeaf(geo, Mem(), shape, height);
      LeafInChain(geo, Mem(), shape, height, 0);
      it := new RawIter(this, 0, 0, 0);
    }

    /** An iterator at the first entry that reaches `key`. */
    method RawIterFrom(key: nat) returns (it: RawIter<V>)
      requires Valid() && Sorted(Contents()) && key <= geo.max
      ensures fresh(it) && it.Valid() && it.tree == this && IsLowerBound(Contents(), it.Index(), key)
    {
      hide TreeOK, IsLowerBound, Plug, Last, Accounted, Flat, FirstGe, FreeChain, WF, Leaves, InnerRefs, LeavesBefore;
      hide LeavesAfter, Concat;
      var h: nat, node: nat := height, root;
      ghost var t, up: seq<Frame<V>> := shape, [];
      PlugNil(t);
      RightEdgeNil(up);
      while h > 0
        invariant h + |up| == height && Plug(t, up) == shape && node == t.Ref()
        invariant Below(Before(up), key)
        invariant RightEdge(up) || key <= Last(t)
      {
        PickChild(geo, Mem(), t, up, h, key);
        var pos := FirstGe(internal.cells[node].pivots, key);
        node := internal.cells[node].slots[pos].v;
        Down(t, up, pos);
        SeekStep(geo, t, up, h, 2, key, pos);
        t, up, h := t.kids[pos], [FrameAt(t, pos)] + up, h - 1;
      }
      SeekLeaf(geo, Mem(), t, up, key);
      var pos := FirstGe(leaf.cells[node].pivots, key);
      PathToChain(t.leaf, up, pos);
      it := new RawIter(this, node, pos, |LeavesBefore(up)|);
    }
  }

  /** Walks the entries through the chain of leaves. */
  class RawIter<V> {
    const tree: RangeTree<V>
    var node: nat
    var pos: nat
    ghost var at: nat

    /** On an entry of the leaf `at`, or behind the last leaf. */
    ghost predicate Valid()
      reads this, tree, tree.leaf, tree.internal
      ensures Valid() ==> tree.Valid() && at < |Leaves(tree.shape)|
    {
      && tree.Valid() && at < |Leaves(tree.shape)|
      && var l := Leaves(tree.shape)[at];
        node == l.ref && pos <= |l.es| && (pos == |l.es| ==> at + 1 == |Leaves(tree.shape)|)
    }

    ghost function Index(): nat
      requires at < |Leaves(tree.shape)|
      reads this, tree
    {
      |Concat(Leaves(tree.shape)[..at])| + pos
    }

    constructor (t: RangeTree<V>, n: nat, p: nat, ghost a: nat)
      ensures tree == t && node == n && pos == p && at == a
    {
      tree, node, pos, at := t, n, p, a;
    }

    /** Yields the entries in order, and at the end nothing, again and again. */
    method Next() returns (e: Option<Entry<V>>)
      requires Valid()
      modifies this
      ensures Valid() && old(Index()) <= |tree.Contents()|
      ensures e == if old(Index()) < |tree.Contents()| then Some(tree.Contents()[old(Index())]) else None
      ensures Index() == if e.Some? then old(Index()) + 1 else old(Index())
      ensures e == None ==> node == old(node) && pos == old(pos)
    {
      hide TreeOK, Accounted, Concat, Leaves, FreeChain;
      var g := tree.geo;
      LeafInChain(g, tree.Mem(), tree.shape, tree.height, at);
      ghost var ls := Leaves(tree.shape);
      NoEntries<V>([]);
      var pivot := tree.leaf.Pivot(node, pos);
      if pivot == g.max {
        assert ls[at + 1..] == [];
        return None;
      }
      var item := tree.leaf.cells[node].slots[pos].v;
      e := Some(Entry(item.start, pivot, item.value));
      pos := pos + 1;
      if tree.leaf.Pivot(node, pos) == g.max {
        var next := tree.leaf.cells[node].slots[g.B() - 1].next;
        if next.Some? {
          LeafInChain(g, tree.Mem(), tree.shape, tree.height, at + 1);
          node, pos, at := next.value, 0, at + 1;
        }
      }
    }

    /** The pivot of the next entry, or the absent pivot at the end. */
    method NextPivot() returns (pivot: nat)
      requires Valid()
      ensures Index() <= |tree.Contents()|
      ensures pivot == if Index() < |tree.Contents()| then tree.Contents()[Index()].last else tree.geo.max
      ensures forall i | 0 <= i < |tree.Contents()| :: tree.Contents()[i].last < tree.geo.max
    {
      hide TreeOK, Accounted, Concat, Leaves, FreeChain;
      LeafInChain(tree.geo, tree.Mem(), tree.shape, tree.height, at);
      ghost var ls := Leaves(tree.shape);
      NoEntries<V>([]);
      KeysBelowMax(tree.geo, tree.Mem(), tree.shape, tree.height);
      assert pos == |ls[at].es| ==> ls[at + 1..] == [];
      pivot := tree.leaf.Pivot(node, pos);
    }

    /** What the iterator has still to yield. */
    method Collect() returns (es: seq<Entry<V>>)
      requires Valid()
      modifies this
      ensures Valid() && old(Index()) <= |tree.Contents()| && es == tree.Contents()[old(Index())..]
    {
      hide *;
      es := [];
      ghost var from := Index();
      ghost var all := tree.Contents();
      var e := Next();
      while e.Some?
        invariant Valid() && from + |es| <= |all| && es == all[from..from + |es|]
        invariant e == if from + |es| < |all| then Some(all[from + |es|]) else None
        invariant Index() == if e.Some? then from + |es| + 1 else from + |es|
        invariant tree.Contents() == all
        decreases |all| - |es|
      {
        es := es + [e.value];
        e := Next();
      }
    }
  }

  /** The entries that reach a start bound and end before an end bound. */
  class RangeIter<V> {
    const raw: RawIter<V>
    const end: nat

    ghost predicate Valid()
      reads this, raw, raw.tree, raw.tree.leaf, raw.tree.internal
      ensures Valid() ==> raw.Valid()
    {
      raw.Valid() && end <= raw.tree.geo.max
    }

    constructor (t: RangeTree<V>, from: Bound, to: Bound)
      requires t.Valid() && Sorted(t.Contents())
      requires (from.Unbounded? || from.x < t.geo.max) && (to.Unbounded? || to.x < t.geo.max)
      ensures Valid() && raw.tree == t && fresh(raw) && end == BoundsEnd(to, t.geo.max)
      ensures raw.Index() == match BoundsStart(from) { case None => 0 case Some(k) => PartitionPoint(t.Contents(), k) }
    {
      hide TreeOK, Accounted, Flat;
      var start := BoundsStart(from);
      var it;
      if start.Some? {
        it := t.RawIterFrom(start.value);
        PartitionUnique(t.Contents(), it.Index(), start.value);
      } else {
        it := t.RawIterFirst();
      }
      raw, end := it, BoundsEnd(to, t.geo.max);
    }

    method Next() returns (e: Option<Entry<V>>)
      requires Valid()
      modifies raw
      ensures Valid() && old(raw.Index()) <= |raw.tree.Contents()|
      ensures var i, all := old(raw.Index()), raw.tree.Contents();
        e == if i < |all| && all[i].last < end then Some(all[i]) else None
      ensures raw.Index() == if e.Some? then old(raw.Index()) + 1 else old(raw.Index())
    {
      hide TreeOK, Accounted, Concat, Leaves, FreeChain, Flat;
      var pivot := raw.NextPivot();
      if pivot >= end {
        return None;
      }
      e := raw.Next();
    }

    /** Exactly the entries between the two bounds' positions in the sequence. */
    method Collect() returns (es: seq<Entry<V>>)
      requires Valid() && Sorted(raw.tree.Contents())
      modifies raw
      ensures Valid()
      ensures var i, j := old(raw.Index()), PartitionPoint(raw.tree.Contents(), end);
        i <= |raw.tree.Contents()| && es == raw.tree.Contents()[i..if i <= j then j else i]
    {
      hide *;
      es := [];
      ghost var from, all := raw.Index(), raw.tree.Contents();
      var e := Next();
      while e.Some?
        invariant Valid() && from + |es| <= |all| && es == all[from..from + |es|]
        invariant e == if from + |es| < |all| && all[from + |es|].last < end then Some(all[from + |es|]) else None
        invariant raw.Index() == if e.Some? then from + |es| + 1 else from + |es|
        invariant raw.tree.Contents() == all
        invariant from + |es| == from || all[from + |es| - 1].last < end
        decreases |all| - |es|
      {
        es := es + [e.value];
        e := Next();
      }
      UpTo(all, from, from + |es|, end);
    }
  }

  /** The bounds of the key ranges between the stored ranges. */
  class Gaps<V> {
    const inner: RawIter<V>
    var prevEnd: Option<Bound>

    ghost predicate Valid()
      reads this, inner, inner.tree, inner.tree.leaf, inner.tree.internal
    {
      inner.Valid() && (prevEnd.Some? ==> !prevEnd.value.Excluded?)
    }

    /** The gaps still to come. */
    ghost function Rest(): seq<(Bound, Bound)>
      requires Valid() && inner.Index() <= |inner.tree.Contents()|
      reads this, inner, inner.tree, inner.tree.leaf, inner.tree.internal
    {
      GapsFrom(prevEnd, inner.tree.Contents()[inner.Index()..], inner.tree.geo.max)
    }

    constructor (t: RangeTree<V>)
      requires t.Valid()
      ensures Valid() && inner.tree == t && fresh(inner) && inner.Index() <= |t.Contents()|
      ensures Rest() == GapsFrom(Some(Unbounded), t.Contents(), t.geo.max)
    {
      hide TreeOK, Accounted, Flat;
      var it := t.RawIterFirst();
      inner, prevEnd := it, Some(Unbounded);
      new;
      assert t.Contents()[0..] == t.Contents();
    }

    /** Yields the next gap that is not empty. */
    method Next() returns (gap: Option<(Bound, Bound)>)
      requires Valid() && inner.Index() <= |inner.tree.Contents()|
      modifies this, inner
      ensures Valid() && inner.Index() <= |inner.tree.Contents()|
      ensures if old(Rest()) == [] then gap == None && Rest() == []
        else gap == Some(old(Rest())[0]) && Rest() == old(Rest())[1..]
    {
      hide TreeOK, Accounted, Concat, Leaves, FreeChain, Flat, GapsFrom;
      var max := inner.tree.geo.max;
      ghost var all := inner.tree.Contents();
      while prevEnd.Some?
        invariant Valid() && inner.Index() <= |all| && Rest() == old(Rest())
        invariant inner.tree.Contents() == all
        decreases |all| - inner.Index(), if prevEnd.Some? then 1 else 0
      {
        var from := prevEnd.value;
        ghost var i := inner.Index();
        GapsUnfold(from, all, i, max);
        prevEnd := None;
        var e := inner.Next();
        var found;
        if e.Some? {
          found := (from, Excluded(e.value.start));
          prevEnd := Behind(e.value.last, max);
        } else {
          found := (from, Unbounded);
        }
        if !EmptyGap(found.0, found.1) {
          return Some(found);
        }
      }
      gap := None;
      NoGaps(all[inner.Index()..], max);
    }
  }

  class RawCursor<V> {
    const tree: RangeTree<V>
    var stack: seq<(nat, nat)>
    ghost var leaf: LeafNode<V>
    ghost var ctx: seq<Frame<V>>

    /** The cursor stands somewhere in, or just behind, its current leaf. */
    ghost predicate OnPath()
      reads this, tree, tree.leaf, tree.internal
      ensures OnPath() ==> stack != [] && tree.Valid()
    {
      && tree.Valid()
      && tree.shape == Plug(Leaf(leaf), ctx)
      && |ctx| == tree.height
      && OnStack(stack, 0, ctx)
      && stack[0].0 == leaf.ref
      && stack[0].1 <= |leaf.es|
    }

    /** As `OnPath`, and behind the leaf only when it is the last leaf. */
    ghost predicate Valid()
      reads this, tree, tree.leaf, tree.internal
      ensures Valid() ==> stack != [] && tree.Valid()
    {
      OnPath() && (stack[0].1 == |leaf.es| ==> RightEdge(ctx))
    }

    /** The position in the in-order sequence. */
    ghost function Index(): nat
      requires stack != []
      reads this
    {
      |Before(ctx)| + stack[0].1
    }

    constructor (t: RangeTree<V>)
      ensures tree == t
    {
      tree := t;
      stack := [];
      leaf := LeafNode(0, []);
      ctx := [];
    }

    method Seek(key: nat)
      requires tree.Valid() && Sorted(tree.Contents()) && key <= tree.geo.max
      modifies this
      ensures Valid()
      ensures IsLowerBound(tree.Contents(), Index(), key)
    {
      hide TreeOK, IsLowerBound, Before, Plug, Last, Accounted, Flat, FirstGe, FreeChain, WF, Leaves, InnerRefs;
      ghost var g := tree.geo;
      var h: nat, node: nat := tree.height, tree.root;
      ghost var t, up: seq<Frame<V>> := tree.shape, [];
      PlugNil(t);
      stack := seq(h + 1, _ => (0, 0));
      while h > 0
        invariant h + |up| == tree.height && Plug(t, up) == tree.shape && node == t.Ref()
        invariant OnStack(stack, h, up)
        invariant Below(Before(up), key)
        invariant RightEdge(up) || key <= Last(t)
      {
        PickChild(g, tree.Mem(), t, up, h, key);
        var pos := FirstGe(tree.internal.cells[node].pivots, key);
        stack := stack[h := (node, pos)];
        node := tree.internal.cells[node].slots[pos].v;
        Down(t, up, pos);
        SeekStep(g, t, up, h, 2, key, pos);
        t, up, h := t.kids[pos], [FrameAt(t, pos)] + up, h - 1;
      }
      SeekLeaf(g, tree.Mem(), t, up, key);
      leaf, ctx := t.leaf, up;
      stack := stack[0 := (node, FirstGe(tree.leaf.cells[node].pivots, key))];
    }

    /** From behind a leaf to the start of the next one, or nowhere when there is none. */
    method NextLeafNode()
      requires OnPath() && stack[0].1 == |leaf.es|
      modifies this
      ensures Valid() && Index() == old(Index())
    {
      hide TreeOK, Plug, Leaves, LeavesBefore, Accounted, InnerRefs, FreeChain, Concat, RightEdge;
      ghost var g := tree.geo;
      var h: nat := 0;
      ghost var t, up := Leaf(leaf), ctx;
      LeafFlat(leaf);
      while true
        invariant h + |up| == tree.height && Plug(t, up) == tree.shape && OnStack(stack, h, up)
        invariant LeavesBefore(up) + Leaves(t) == LeavesBefore(ctx) + [leaf]
        invariant RightEdge(ctx) <==> RightEdge(up)
        invariant stack == old(stack) && ctx == old(ctx) && leaf == old(leaf)
        decreases |up|
      {
        if h == tree.height {
          RightEdgeNil(up);
          return;
        }
        OpenParent(g, tree.Mem(), t, up, h);
        var (node, pos) := stack[h + 1];
        if tree.internal.Pivot(node, pos) != tree.geo.max {
          break;
        }
        Up(t, up);
        t, up, h := up[0].Fill(t), up[1..], h + 1;
      }
      var (node, pos) := stack[h + 1];
      stack := stack[h + 1 := (node, pos + 1)];
      node := tree.internal.cells[node].slots[pos + 1].v;
      MoveRight(t, up);
      t, up := up[0].right[0], [StepRight(up[0], t)] + up[1..];
      DescendFirst(h, node, t, up);
      BeforeLeaf(LeavesBefore(old(ctx)), old(leaf));
    }

    /** Goes down to the first leaf of the sub-tree `node` at height `top`. */
    method DescendFirst(top: nat, first: nat, ghost sub: Tree<V>, ghost high: seq<Frame<V>>)
      requires tree.Valid() && top + |high| == tree.height
      requires Plug(sub, high) == tree.shape && sub.Ref() == first && OnStack(stack, top, high)
      modifies this
      ensures Valid() && stack[0].1 == 0 && LeavesBefore(ctx) == LeavesBefore(high)
    {
      hide TreeOK, Plug, Leaves, LeavesBefore, Accounted, InnerRefs, FreeChain, RightEdge, Last, FirstGe;
      ghost var g := tree.geo;
      var h: nat, node := top, first;
      ghost var t, up := sub, high;
      while h > 0
        invariant h + |up| == tree.height
        invariant Plug(t, up) == tree.shape && t.Ref() == node && OnStack(stack, h, up)
        invariant LeavesBefore(up) == LeavesBefore(high)
      {
        OpenInner(g, tree.Mem(), t, up, h);
        stack := stack[h := (node, 0)];
        node := tree.internal.cells[node].slots[0].v;
        DownFirst(t, up);
        t, up, h := t.kids[0], [FrameAt(t, 0)] + up, h - 1;
      }
      OpenLeaf(g, tree.Mem(), t, up);
      RightEdgeNil(up);
      stack := stack[0 := (node, 0)];
      leaf, ctx := t.leaf, up;
    }

    /** Puts the cursor on the first entry, which is always in leaf zero. */
    method SeekFirst()
      requires tree.Valid()
      modifies this
      ensures Valid() && Index() == 0 && stack[0] == (0, 0)
    {
      PlugNil(tree.shape);
      stack := seq(tree.height + 1, _ => (0, 0));
      DescendFirst(tree.height, tree.root, tree.shape, []);
      PlugLeaves(Leaf(leaf), ctx);
      LeafFlat(leaf);
    }

    /** An iterator from the cursor on. */
    method Iter() returns (it: RawIter<V>)
      requires Valid()
      ensures fresh(it) && it.Valid() && it.tree == tree && it.Index() == Index()
    {
      hide TreeOK, Plug, RightEdge, Accounted, FreeChain, LeavesBefore, LeavesAfter, Concat, Leaves;
      PathToChain(leaf, ctx, stack[0].1);
      it := new RawIter(tree, stack[0].0, stack[0].1, |LeavesBefore(ctx)|);
    }

    /** The entry at the cursor; there is none exactly at the end. */
    method Current() returns (e: Option<Entry<V>>)
      requires Valid()
      ensures Index() <= |tree.Contents()|
      ensures e == if Index() < |tree.Contents()| then Some(tree.Contents()[Index()]) else None
    {
      hide TreeOK, Plug, RightEdge, Accounted, FreeChain;
      EntryHere(tree.geo, tree.Mem(), leaf, ctx, stack[0].1);
      var (node, pos) := stack[0];
      var pivot := tree.leaf.Pivot(node, pos);
      if pivot == tree.geo.max {
        e := None;
      } else {
        var item := tree.leaf.cells[node].slots[pos].v;
        e := Some(Entry(item.start, pivot, item.value));
      }
    }

    method Next()
      requires Valid() && Index() < |tree.Contents()|
      modifies this
      ensures Valid() && Index() == old(Index()) + 1
    {
      hide TreeOK, Plug, RightEdge, Accounted, FreeChain;
      EntryHere(tree.geo, tree.Mem(), leaf, ctx, stack[0].1);
      OpenLeaf(tree.geo, tree.Mem(), Leaf(leaf), ctx);
      var (node, pos) := stack[0];
      stack := stack[0 := (node, pos + 1)];
      if tree.leaf.Pivot(node, pos + 1) == tree.geo.max {
        NextLeafNode();
      }
    }

    /** Moves back by one; at the first entry it says so and stays. */
    method Prev() returns (moved: bool)
      requires Valid()
      modifies this
      ensures Valid() && moved == (old(Index()) > 0)
      ensures Index() == if moved then old(Index()) - 1 else old(Index())
      ensures !moved ==> stack == old(stack)
    {
      hide TreeOK, Plug, Accounted, FreeChain, LeavesBefore;
      if stack[0].1 == 0 {
        moved := PrevLeafNode();
        return;
      }
      stack := stack[0 := (stack[0].0, stack[0].1 - 1)];
      moved := true;
    }

    /** From the start of a leaf to the last entry of the previous one, if there is one. */
    method PrevLeafNode() returns (moved: bool)
      requires Valid() && stack[0].1 == 0
      modifies this
      ensures Valid() && moved == (old(Index()) > 0)
      ensures Index() == if moved then old(Index()) - 1 else old(Index())
      ensures !moved ==> stack == old(stack)
    {
      hide TreeOK, Plug, Leaves, LeavesBefore, Accounted, InnerRefs, FreeChain, Concat, RightEdge;
      ghost var g := tree.geo;
      var h: nat := 0;
      ghost var t, up := Leaf(leaf), ctx;
      while true
        invariant h + |up| == tree.height && Plug(t, up) == tree.shape && OnStack(stack, h, up)
        invariant LeavesBefore(up) == LeavesBefore(ctx)
        invariant stack == old(stack) && ctx == old(ctx) && leaf == old(leaf)
        decreases |up|
      {
        if h == tree.height {
          PlugNil(t);
          return false;
        }
        OpenParent(g, tree.Mem(), t, up, h);
        if stack[h + 1].1 != 0 {
          break;
        }
        Up(t, up);
        t, up, h := up[0].Fill(t), up[1..], h + 1;
      }
      var (node, pos) := stack[h + 1];
      stack := stack[h + 1 := (node, pos - 1)];
      node := tree.internal.cells[node].slots[pos - 1].v;
      MoveLeft(t, up);
      t, up := up[0].left[|up[0].left| - 1], [StepLeft(up[0], t)] + up[1..];
      DescendLast(h, node, t, up);
      BeforeLeaf(LeavesBefore(ctx), leaf);
      moved := true;
    }

    /** Goes down to the last entry of the sub-tree `node` at height `top`. */
    method DescendLast(top: nat, first: nat, ghost sub: Tree<V>, ghost high: seq<Frame<V>>)
      requires tree.Valid() && top + |high| == tree.height && high != []
      requires Plug(sub, high) == tree.shape && sub.Ref() == first && OnStack(stack, top, high)
      modifies this
      ensures Valid() && stack[0].1 + 1 == |leaf.es|
      ensures LeavesBefore(ctx) + [leaf] == LeavesBefore(high) + Leaves(sub)
    {
      hide TreeOK, Plug, LeavesBefore, Accounted, InnerRefs, FreeChain, RightEdge, Last, FirstGe;
      ghost var g := tree.geo;
      var h: nat, node := top, first;
      ghost var t, up := sub, high;
      while h > 0
        invariant h + |up| == tree.height && up != []
        invariant Plug(t, up) == tree.shape && t.Ref() == node && OnStack(stack, h, up)
        invariant LeavesBefore(up) + Leaves(t) == LeavesBefore(high) + Leaves(sub)
      {
        OpenInner(g, tree.Mem(), t, up, h);
        var pos := FirstGe(tree.internal.cells[node].pivots, tree.geo.max);
        stack := stack[h := (node, pos)];
        node := tree.internal.cells[node].slots[pos].v;
        DownLast(t, up);
        t, up, h := t.kids[pos], [FrameAt(t, pos)] + up, h - 1;
      }
      OpenLeaf(g, tree.Mem(), t, up);
      EndOfLeaf(g, tree.leaf.cells[node], t.leaf.es);
      var pos := FirstGe(tree.leaf.cells[node].pivots, tree.geo.max);
      stack := stack[0 := (node, pos - 1)];
      leaf, ctx := t.leaf, up;
      LeafFlat(leaf);
    }

    /**
     Writes the entry into the current leaf. Below capacity the link to the next leaf is
     restored afterwards; at capacity the entry that moved to the last slot replaces it.
     */
    method WriteEntry(e: Entry<V>) returns (overflow: bool, next: Option<nat>)
      requires Valid() && e.last < tree.geo.max
      modifies tree.leaf`cells
      ensures tree.leaf.Linked() && |tree.leaf.cells| == |old(tree.leaf.cells)|
      ensures Agree(old(tree.leaf.cells), tree.leaf.cells, {leaf.ref})
      ensures leaf.ref < |tree.leaf.cells| && old(tree.leaf.cells)[leaf.ref].Sized(tree.geo)
      ensures Link(tree.geo, old(tree.leaf.cells), leaf.ref) == NextLeaf(next)
      ensures LeafCell(tree.geo, tree.leaf.cells[leaf.ref], InsertedAt(leaf.es, stack[0].1, e))
      ensures overflow <==> |leaf.es| == tree.geo.B() - 1
      ensures !overflow ==> Link(tree.geo, tree.leaf.cells, leaf.ref) == NextLeaf(next)
    {
      hide TreeOK, Plug, RightEdge, Accounted, FreeChain, Leaves, InnerRefs;
      var g := tree.geo;
      ghost var es := leaf.es;
      OpenLeaf(g, tree.Mem(), Leaf(leaf), ctx);
      LinkOf(g, tree.Mem(), leaf, ctx);
      var (node, pos) := stack[0];
      overflow := tree.leaf.Pivot(node, g.B() - 2) != g.max;
      next := tree.leaf.cells[node].slots[g.B() - 1].next;
      PutEntry(node, pos, e, es);
      if !overflow {
        LeafLink(g, tree.leaf.cells[node], InsertedAt(es, pos, e), next);
        tree.leaf.SetNextLeaf(node, next);
      }
    }

    /** Puts the entry at `pos`, without shifting when that is the end of the leaf. */
    method PutEntry(node: nat, pos: nat, e: Entry<V>, ghost es: seq<Entry<V>>)
      requires tree.leaf.geo == tree.geo && tree.leaf.Linked() && node < |tree.leaf.cells|
      requires LeafCell(tree.geo, tree.leaf.cells[node], es) && pos <= |es| < tree.geo.B()
      requires forall i | 0 <= i < |es| :: es[i].last < tree.geo.max
      modifies tree.leaf`cells
      ensures tree.leaf.Linked() && |tree.leaf.cells| == |old(tree.leaf.cells)|
      ensures Agree(old(tree.leaf.cells), tree.leaf.cells, {node})
      ensures LeafCell(tree.geo, tree.leaf.cells[node], InsertedAt(es, pos, e))
    {
      var g := tree.geo;
      ghost var c := tree.leaf.cells[node];
      if tree.leaf.Pivot(node, pos) == g.max {
        LeafAppend(g, c, es, e);
        tree.leaf.SetPivot(node, pos, e.last);
        tree.leaf.SetSlot(node, pos, Value(Item(e.start, e.value)));
        assert InsertedAt(es, pos, e) == es + [e];
      } else {
        LeafInsert(g, c, es, pos, e);
        tree.leaf.InsertPivot(node, e.last, pos, g.B());
        tree.leaf.InsertValue(node, Item(e.start, e.value), pos, g.B());
      }
    }

    /** Moves the upper half of the completely full leaf `node` to a new leaf linked in behind it. */
    method SplitCurrentLeaf(node: nat, next: Option<nat>, ghost refs: multiset<nat>, ghost es: seq<Entry<V>>)
      returns (mid: nat, newNode: nat)
      requires tree.leaf.geo == tree.geo && tree.leaf.Linked() && node in refs
      requires Accounted(refs, tree.leaf.free, |tree.leaf.cells|) && node < |tree.leaf.cells|
      requires |es| == tree.geo.B() && LeafCell(tree.geo, tree.leaf.cells[node], es)
      modifies tree.leaf
      ensures tree.leaf.Linked() && tree.leaf.IsLive(node) && tree.leaf.IsLive(newNode)
      ensures newNode !in refs && Accounted(refs + multiset{newNode}, tree.leaf.free, |tree.leaf.cells|)
      ensures old(tree.leaf.free) == [] ==> tree.leaf.free == []
      ensures Agree(old(tree.leaf.cells), tree.leaf.cells, {node, newNode})
      ensures LeafCell(tree.geo, tree.leaf.cells[node], es[..tree.geo.half])
      ensures LeafCell(tree.geo, tree.leaf.cells[newNode], es[tree.geo.half..])
      ensures Link(tree.geo, tree.leaf.cells, node) == NextLeaf(Some(newNode))
      ensures Link(tree.geo, tree.leaf.cells, newNode) == NextLeaf(next)
      ensures mid == es[tree.geo.half - 1].last
    {
      hide Accounted, FreeChain;
      var g := tree.geo;
      LeafSplit(g, tree.leaf.cells[node], es);
      mid := tree.leaf.Pivot(node, g.half - 1);
      newNode := tree.leaf.AllocNode(refs);
      tree.leaf.SplitInto(node, newNode);
      LeafLink(g, tree.leaf.cells[newNode], es[g.half..], next);
      tree.leaf.SetNextLeaf(newNode, next);
      LeafLink(g, tree.leaf.cells[node], es[..g.half], Some(newNode));
      tree.leaf.SetNextLeaf(node, Some(newNode));
    }

    /** Lists the new node `newNode` behind the node on the path; says whether that fills the parent completely. */
    method AddChild(h: nat, mid: nat, newNode: nat, ghost rest: seq<Frame<V>>, ghost l: Tree<V>, ghost r: Tree<V>,
                    ghost low: nat)
      returns (overflow: bool)
      requires tree.Pools() && rest != [] && h < |stack| && stack[h] == Spot(rest[0])
      requires Splitting(tree.geo, tree.Mem(), rest, l, r, low) && mid == Last(l) && newNode == r.Ref()
      requires Accounted(InnerRefs(l) + InnerRefs(r) + CtxRefs(rest), tree.internal.free, |tree.internal.cells|)
      modifies tree.internal`cells
      ensures tree.Pools() && |tree.internal.cells| == |old(tree.internal.cells)|
      ensures Widened(tree.geo, tree.Mem(), rest[1..], rest[0].ref, Wider(rest[0], l, r), low)
      ensures if overflow then |Wider(rest[0], l, r)| == tree.geo.B() else |Wider(rest[0], l, r)| < tree.geo.B()
    {
      hide WF, Rep, Last, Accounted, InnerRefs, CtxRefs, FreeChain, InnerCell, RepAll, WFAll;
      var g := tree.geo;
      ghost var s := tree.Mem();
      var (node, pos) := stack[h];
      SplittingParent(g, s, rest, l, r, low);
      overflow := tree.internal.Pivot(node, g.B() - 3) != g.max;
      tree.internal.InsertPivot(node, mid, pos, g.B());
      tree.internal.InsertValue(node, newNode, pos + 1, g.B());
      ListNewChild(g, s, tree.Mem(), rest, l, r, low, tree.internal.free, |tree.internal.cells|);
    }

    /** Splits the completely full internal node `node` in two. */
    method SplitFull(node: nat, ghost up: seq<Frame<V>>, ghost kids: seq<Tree<V>>, ghost low: nat)
      returns (mid: nat, newNode: nat)
      requires tree.Pools() && Widened(tree.geo, tree.Mem(), up, node, kids, low) && |kids| == tree.geo.B()
      requires Accounted(multiset{node} + InnerRefsAll(kids) + CtxRefs(up), tree.internal.free, |tree.internal.cells|)
      modifies tree.internal
      ensures tree.Pools()
      ensures var l, r := Inner(node, kids[..tree.geo.half]), Inner(newNode, kids[tree.geo.half..]);
        && Splitting(tree.geo, tree.Mem(), up, l, r, low + 1) && mid == Last(l)
        && Accounted(InnerRefs(l) + InnerRefs(r) + CtxRefs(up), tree.internal.free, |tree.internal.cells|)
    {
      hide Accounted, FreeChain, InnerRefs, InnerRefsAll, CtxRefs, Widened, Splitting, Last, LowerHalf, UpperHalf;
      var g := tree.geo;
      ghost var s := tree.Mem();
      FullNode(g, s, up, node, kids, low);
      ghost var refs := multiset{node} + InnerRefsAll(kids) + CtxRefs(up);
      mid := tree.internal.Pivot(node, g.half - 1);
      tree.internal.SetPivot(node, g.half - 1, g.max);
      newNode := tree.internal.AllocNode(refs);
      tree.internal.SplitInto(node, newNode);
      SplitNode(g, s, tree.Mem(), up, node, newNode, kids, low, tree.internal.free, |tree.internal.cells|);
      SplitKeeps(kids, g.half, node, newNode);
      assert InnerRefs(Inner(node, kids[..g.half])) + InnerRefs(Inner(newNode, kids[g.half..])) + CtxRefs(up) ==
        refs + multiset{newNode};
    }

    /** The parent on the path is completely full with the new node: splits it and follows the cursor's half. */
    method SplitParent(h: nat, node: nat, pos: nat, ghost up: seq<Frame<V>>, ghost kids: seq<Tree<V>>,
                       ghost low: seq<Frame<V>>, ghost ls: seq<LeafNode<V>>, ghost before: seq<LeafNode<V>>)
      returns (mid: nat, newNode: nat, inRight: bool, ghost last: Frame<V>)
      requires tree.Pools() && pos < |kids| == tree.geo.B() && |low| == h && stack != []
      requires OnStack(stack, 0, (low + [FrameAt(Inner(node, kids), pos)]) + up)
      requires Widened(tree.geo, tree.Mem(), up, node, kids, h)
      requires Accounted(multiset{node} + InnerRefsAll(kids) + CtxRefs(up), tree.internal.free, |tree.internal.cells|)
      requires Plug(Leaf(leaf), low) == kids[pos]
      requires LeavesBefore(up) + LeavesAll(kids) + LeavesAfter(up) == ls
      requires LeavesBefore(up) + (LeavesAll(kids[..pos]) + LeavesBefore(low)) == before
      modifies this`stack, tree.internal
      ensures tree.Pools() && OnStack(stack, 0, (low + [last]) + up) && stack != [] && stack[0] == old(stack)[0]
      ensures var l, r := Inner(node, kids[..tree.geo.half]), Inner(newNode, kids[tree.geo.half..]);
        && Splitting(tree.geo, tree.Mem(), up, l, r, h + 1) && mid == Last(l)
        && Accounted(InnerRefs(l) + InnerRefs(r) + CtxRefs(up), tree.internal.free, |tree.internal.cells|)
        && Tracking(ls, before, up, l, r, inRight, low + [last], leaf)
    {
      hide Splitting, Widened, Tracking, Accounted, LeavesAll, LeavesBefore, LeavesAfter, InnerRefs, InnerRefsAll;
      hide CtxRefs, Plug, Last, FreeChain, OnStack;
      var half := tree.geo.half;
      mid, newNode := SplitFull(node, up, kids, h);
      TrackSplit(ls, before, up, node, newNode, kids, half, pos, low, leaf);
      ghost var l, r := Inner(node, kids[..half]), Inner(newNode, kids[half..]);
      inRight := pos >= half;
      last := if inRight then FrameAt(r, pos - half) else FrameAt(l, pos);
      StackReplace(stack, low, up, FrameAt(Inner(node, kids), pos), last);
      if inRight {
        stack := stack[h + 1 := (newNode, pos - half)];
      }
    }

    /**
     Propagates the split of the current leaf upwards: each parent lists the new node, and
     splits in turn when that fills it; a split that reaches the top grows a new root.
     */
    method SplitUp(leafMid: nat, newLeaf: nat, leafRight: bool, ghost a: Tree<V>, ghost b: Tree<V>,
                   ghost ls: seq<LeafNode<V>>, ghost before: seq<LeafNode<V>>)
      requires tree.Pools() && |ctx| == tree.height && OnStack(stack, 0, ctx) && stack != []
      requires stack[0].0 == leaf.ref && stack[0].1 < |leaf.es|
      requires Splitting(tree.geo, tree.Mem(), ctx, a, b, 0) && leafMid == Last(a) && newLeaf == b.Ref()
      requires tree.root == if ctx == [] then a.Ref() else ctx[|ctx| - 1].ref
      requires Accounted(InnerRefs(a) + InnerRefs(b) + CtxRefs(ctx), tree.internal.free, |tree.internal.cells|)
      requires Tracking(ls, before, ctx, a, b, leafRight, [], leaf)
      requires ChainFromZero(tree.geo, tree.leaf.cells, RefSeq(ls))
      requires Accounted(multiset(RefSeq(ls)), tree.leaf.free, |tree.leaf.cells|)
      modifies this, tree, tree.internal
      ensures Valid() && Leaves(tree.shape) == ls && LeavesBefore(ctx) == before
      ensures stack[0] == old(stack)[0] && leaf == old(leaf)
      ensures Lean(tree.geo, old(ctx), a, b, 0) ==> Slim(tree.geo, tree.shape, tree.height)
    {
      hide Splitting, Widened, Tracking, Accounted, ChainFromZero, TreeOK, WF, Rep, Leaves, LeavesAll, LeavesBefore;
      hide LeavesAfter, Lean, Slim;
      hide InnerRefs, InnerRefsAll, CtxRefs, Plug, Last, FreeChain, RightEdge, Wider, OnStack;
      var g := tree.geo;
      var mid, newNode, inRight := leafMid, newLeaf, leafRight;
      ghost var l, r, low: seq<Frame<V>>, rest, lean := a, b, [], ctx, Lean(g, ctx, a, b, 0);
      assert [] + ctx == ctx;
      var h: nat := 0;
      while h < tree.height
        invariant tree.Pools() && h == |low| && h + |rest| == tree.height == |ctx|
        invariant OnStack(stack, 0, low + rest) && stack != [] && stack[0] == old(stack)[0]
        invariant Splitting(g, tree.Mem(), rest, l, r, h) && mid == Last(l) && newNode == r.Ref()
        invariant tree.root == if rest == [] then l.Ref() else rest[|rest| - 1].ref
        invariant Accounted(InnerRefs(l) + InnerRefs(r) + CtxRefs(rest), tree.internal.free, |tree.internal.cells|)
        invariant Tracking(ls, before, rest, l, r, inRight, low, leaf)
        invariant leaf == old(leaf) && tree.leaf.cells == old(tree.leaf.cells)
        invariant lean ==> Lean(g, rest, l, r, h)
        decreases tree.height - h
      {
        ghost var f, up := rest[0], rest[1..];
        ghost var kids := Wider(f, l, r);
        StackStep(stack, low, rest, f);
        var (node, pos) := stack[h + 1];
        var overflow := AddChild(h + 1, mid, newNode, rest, l, r, h);
        WiderOwners(rest, l, r);
        TrackWider(ls, before, rest, l, r, inRight, low, leaf);
        if inRight {
          pos := pos + 1;
        }
        ghost var top := FrameAt(Inner(node, kids), pos);
        StackStep(stack, low, rest, top);
        stack := stack[h + 1 := (node, pos)];
        if !overflow {
          SettleWidened(up, node, kids, h, low, pos, ls, before);
          LeanSettles(g, rest, l, r, h, node);
          return;
        }
        ghost var last;
        mid, newNode, inRight, last := SplitParent(h, node, pos, up, kids, low, ls, before);
        LeanUp(g, rest, l, r, h, node, newNode);
        l, r := Inner(node, kids[..g.half]), Inner(newNode, kids[g.half..]);
        low, rest, h := low + [last], up, h + 1;
      }
      GrowNewRoot(mid, newNode, inRight, l, r, low, ls, before);
      LeanGrows(g, l, r, h, tree.root);
    }

    /** No further split: the ghost view of the tree is the widened path. */
    ghost method SettleWidened(up: seq<Frame<V>>, node: nat, kids: seq<Tree<V>>, h: nat, low: seq<Frame<V>>, pos: nat,
                               ls: seq<LeafNode<V>>, before: seq<LeafNode<V>>)
      requires tree.Pools() && h + 1 + |up| == tree.height && |low| == h && pos < |kids| < tree.geo.B()
      requires OnStack(stack, 0, (low + [FrameAt(Inner(node, kids), pos)]) + up)
      requires stack[0].0 == leaf.ref && stack[0].1 < |leaf.es|
      requires Widened(tree.geo, tree.Mem(), up, node, kids, h) && ChainFromZero(tree.geo, tree.leaf.cells, RefSeq(ls))
      requires Plug(Leaf(leaf), low) == kids[pos]
      requires LeavesBefore(up) + LeavesAll(kids) + LeavesAfter(up) == ls
      requires LeavesBefore(up) + (LeavesAll(kids[..pos]) + LeavesBefore(low)) == before
      requires tree.root == if up == [] then node else up[|up| - 1].ref
      requires Accounted(multiset(RefSeq(ls)), tree.leaf.free, |tree.leaf.cells|)
      requires Accounted(multiset{node} + InnerRefsAll(kids) + CtxRefs(up), tree.internal.free, |tree.internal.cells|)
      modifies this`ctx, tree`shape
      ensures Valid() && Leaves(tree.shape) == ls && LeavesBefore(ctx) == before
      ensures tree.shape == Plug(Inner(node, kids), up)
    {
      hide Widened, Accounted, ChainFromZero, TreeOK, WF, Rep, Leaves, LeavesAll, LeavesBefore, LeavesAfter;
      hide InnerRefs, InnerRefsAll, CtxRefs, Plug, Last, FreeChain, RightEdge;
      FinishWidened(tree.geo, tree.Mem(), up, node, kids, h, ls, before, low, leaf, pos);
      ctx := (low + [FrameAt(Inner(node, kids), pos)]) + up;
      tree.shape := Plug(Leaf(leaf), ctx);
    }

    /** Allocates a node with the children `tree.root` and `second`, separated by `mid`. */
    method RootNode(mid: nat, second: nat, ghost refs: multiset<nat>) returns (r: nat)
      requires tree.Pools() && Accounted(refs, tree.internal.free, |tree.internal.cells|)
      modifies tree.internal
      ensures tree.Pools() && r < |tree.internal.cells|
      ensures Accounted(refs + multiset{r}, tree.internal.free, |tree.internal.cells|)
      ensures Agree(old(tree.internal.cells), tree.internal.cells, {r})
      ensures tree.internal.cells[r] == Live(Filled(tree.geo.B(), tree.geo.max)[0 := mid],
                                             Filled(tree.geo.B(), Empty)[0 := Value(tree.root)][1 := Value(second)])
    {
      hide Accounted, FreeChain;
      r := tree.internal.AllocNode(refs);
      tree.internal.InitPivots(r);
      tree.internal.SetPivot(r, 0, mid);
      tree.internal.SetSlot(r, 0, Value(tree.root));
      tree.internal.SetSlot(r, 1, Value(second));
    }

    /** Adds a level: a new root over the old one, `l`, and its new neighbour, `r`. */
    method GrowNewRoot(mid: nat, newNode: nat, inRight: bool, ghost l: Tree<V>, ghost r: Tree<V>,
                       ghost low: seq<Frame<V>>, ghost ls: seq<LeafNode<V>>, ghost before: seq<LeafNode<V>>)
      requires tree.Pools() && |low| == tree.height && OnStack(stack, 0, low + []) && stack != []
      requires stack[0].0 == leaf.ref && stack[0].1 < |leaf.es|
      requires Splitting(tree.geo, tree.Mem(), [], l, r, tree.height) && mid == Last(l) && newNode == r.Ref()
      requires tree.root == l.Ref()
      requires Accounted(InnerRefs(l) + InnerRefs(r) + CtxRefs<V>([]), tree.internal.free, |tree.internal.cells|)
      requires Tracking(ls, before, [], l, r, inRight, low, leaf)
      requires ChainFromZero(tree.geo, tree.leaf.cells, RefSeq(ls))
      requires Accounted(multiset(RefSeq(ls)), tree.leaf.free, |tree.leaf.cells|)
      modifies this, tree, tree.internal
      ensures Valid() && Leaves(tree.shape) == ls && LeavesBefore(ctx) == before
      ensures stack[0] == old(stack)[0] && leaf == old(leaf)
      ensures tree.shape == Inner(tree.root, [l, r]) && tree.height == old(tree.height) + 1
    {
      hide Splitting, Widened, Tracking, Accounted, ChainFromZero, TreeOK, WF, Rep, Leaves, LeavesAll, LeavesBefore;
      hide LeavesAfter;
      hide InnerRefs, InnerRefsAll, CtxRefs, Plug, Last, FreeChain, RightEdge;
      var g := tree.geo;
      ghost var s, refs, kids := tree.Mem(), InnerRefs(l) + InnerRefs(r) + CtxRefs<V>([]), [l, r];
      var newRoot := RootNode(mid, newNode, refs);
      NoFrames<V>();
      assert refs + multiset{newRoot} == InnerRefs(l) + InnerRefs(r) + multiset{newRoot};
      GrowRoot(g, s, tree.Mem(), l, r, tree.height, newRoot, tree.internal.free, |tree.internal.cells|);
      TrackRoot(ls, before, l, r, inRight, low, leaf, newRoot);
      tree.root := newRoot;
      var pos := if inRight then 1 else 0;
      ghost var f := FrameAt(Inner(newRoot, kids), pos);
      StackGrow(stack, low, f);
      stack := stack + [(newRoot, pos)];
      tree.height := tree.height + 1;
      SettleWidened([], newRoot, kids, tree.height - 1, low, pos, ls, before);
      NoPath(Inner(newRoot, kids));
    }

    /** Inserts the entry before the cursor, which then stands on it. */
    method Insert(start: nat, last: nat, value: V)
      requires Valid() && last < tree.geo.max
      modifies this, tree, tree.leaf, tree.internal
      ensures Valid() && Index() == old(Index()) <= |old(tree.Contents())|
      ensures tree.Contents() == InsertedAt(old(tree.Contents()), Index(), Entry(start, last, value))
      ensures old(tree.GrownAtEnd()) && Index() == |old(tree.Contents())| ==> tree.GrownAtEnd()
    {
      hide TreeOK, Accounted, ChainFromZero, WF, Rep, Leaves, LeavesBefore, LeavesAfter, InnerRefs, CtxRefs, Plug, Last;
      hide FreeChain, Slim;
      hide RightEdge, Concat, LeafCell, Link, UntouchedCtx, RepCtx, WFCtx, Before, After;
      var g, e := tree.geo, Entry(start, last, value);
      ghost var s, l, pos := tree.Mem(), leaf, stack[0].1;
      ghost var es := InsertedAt(l.es, pos, e);
      InsertFacts(g, s, l, ctx, pos, e);
      AtTheEnd(g, s, l, ctx, pos);
      var overflow, next := WriteEntry(e);
      if !overflow {
        SlimLeaf(g, l, ctx, LeafNode(l.ref, es));
        PlainInsert(g, s, tree.Mem(), l, ctx, es, tree.leaf.free, |tree.leaf.cells|);
        leaf := LeafNode(l.ref, es);
        tree.shape := Plug(Leaf(leaf), ctx);
        return;
      }
      InsertSplit(next, s, es);
    }

    /** Splits the completely full current leaf, keeping the cursor on the same entry. */
    method InsertSplit(next: Option<nat>, ghost s: Store<V>, ghost es: seq<Entry<V>>)
      requires tree.Pools() && |ctx| == tree.height && OnStack(stack, 0, ctx) && stack[0].0 == leaf.ref
      requires stack[0].1 < |es|
      requires TreeOK(tree.geo, s, Plug(Leaf(leaf), ctx), tree.height) && tree.shape == Plug(Leaf(leaf), ctx)
      requires tree.root == tree.shape.Ref()
      requires tree.Owned() && leaf.ref in RefSeq(Leaves(tree.shape))
      requires |es| == tree.geo.B() && (forall i | 0 <= i < |es| :: es[i].last < tree.geo.max)
      requires RightEdge(ctx) || es[|es| - 1].last == Last(Leaf(leaf))
      requires StoreAgree(s, tree.Mem(), {leaf.ref}, {}) && |s.leaf| == |tree.leaf.cells|
      requires s.inner == tree.internal.cells
      requires leaf.ref < |s.leaf| && s.leaf[leaf.ref].Sized(tree.geo)
      requires LeafCell(tree.geo, tree.leaf.cells[leaf.ref], es) && Link(tree.geo, s.leaf, leaf.ref) == NextLeaf(next)
      modifies this, tree, tree.leaf, tree.internal
      ensures Valid() && tree.Contents() == Before(old(ctx)) + es + After(old(ctx))
      ensures Index() == |Before(old(ctx))| + old(stack)[0].1
      ensures old(tree.leaf.free) == [] ==> tree.leaf.free == []
      ensures RightEdge(old(ctx)) && Slim(tree.geo, old(tree.shape), old(tree.height)) ==>
        Slim(tree.geo, tree.shape, tree.height)
    {
      hide TreeOK, Accounted, ChainFromZero, WF, Rep, Leaves, LeavesBefore, LeavesAfter, InnerRefs, CtxRefs, Plug, Last;
      hide FreeChain, Slim, Lean;
      hide RightEdge, Concat, LeafCell, Link, UntouchedCtx, RepCtx, WFCtx, Splitting, Tracking, OnStack;
      var g := tree.geo;
      ghost var l, b, a := leaf, LeavesBefore(ctx), LeavesAfter(ctx);
      StackLeaf(stack, ctx, (0, 0));
      var (node, p) := stack[0];
      var mid, newNode := SplitCurrentLeaf(node, next, multiset(RefSeq(Leaves(tree.shape))), es);
      SplitLeaf(g, s, tree.Mem(), l, ctx, es, newNode, old(tree.leaf.free), |s.leaf|, tree.leaf.free,
                |tree.leaf.cells|);
      ghost var x, y := LeafNode(l.ref, es[..g.half]), LeafNode(newNode, es[g.half..]);
      var inRight := p >= g.half;
      SplitOwners(l, ctx, x, y);
      SplitTracks(ctx, x, y, inRight);
      SplitContents(b, x, y, a, inRight);
      LeanLeaf(g, l, ctx, x, y);
      if inRight {
        StackLeaf(stack, ctx, (newNode, p - g.half));
        stack := stack[0 := (newNode, p - g.half)];
      }
      leaf := if inRight then y else x;
      SplitUp(mid, newNode, inRight, Leaf(x), Leaf(y), b + [x, y] + a, b + if inRight then [x] else []);
    }

    // ---- Removing ----

    /** Takes the entry at the cursor out of its leaf; says whether that leaves fewer than half. */
    method TakeEntry() returns (e: Entry<V>, underflow: bool)
      requires Valid() && stack[0].1 < |leaf.es|
      modifies tree.leaf`cells
      ensures tree.leaf.Linked() && |tree.leaf.cells| == |old(tree.leaf.cells)|
      ensures Agree(old(tree.leaf.cells), tree.leaf.cells, {leaf.ref})
      ensures leaf.ref < |tree.leaf.cells| && old(tree.leaf.cells)[leaf.ref].Sized(tree.geo)
      ensures tree.leaf.cells[leaf.ref].Sized(tree.geo)
      ensures LeafCell(tree.geo, tree.leaf.cells[leaf.ref], RemovedAt(leaf.es, stack[0].1))
      ensures Link(tree.geo, tree.leaf.cells, leaf.ref) == Link(tree.geo, old(tree.leaf.cells), leaf.ref)
      ensures e == leaf.es[stack[0].1] && (underflow <==> |leaf.es| <= tree.geo.half)
    {
      hide TreeOK, Plug, RightEdge, Accounted, FreeChain, Leaves, InnerRefs;
      var g := tree.geo;
      OpenLeaf(g, tree.Mem(), Leaf(leaf), ctx);
      var (node, pos) := stack[0];
      underflow := tree.leaf.Pivot(node, g.half) == g.max;
      var item := tree.leaf.cells[node].slots[pos].v;
      e := Entry(item.start, tree.leaf.Pivot(node, pos), item.value);
      LeafRemove(g, tree.leaf.cells[node], leaf.es, pos);
      tree.leaf.RemovePivot(node, pos);
      tree.leaf.RemoveValue(node, pos);
    }

    /** Propagates the new right-most pivot of the current leaf to the ancestor that stores it, if any does. */
    method UpdateLeafMaxPivot(pivot: nat, ghost last: nat)
      requires tree.Pools() && OnStack(stack, 0, ctx) && |ctx| == tree.height && last < tree.geo.max
      requires RepCtx(tree.geo, tree.Mem(), ctx, leaf.ref, last) && WFCtx(tree.geo, ctx, 0) && Once(CtxRefs(ctx))
      modifies tree.internal`cells
      ensures tree.Pools() && |tree.internal.cells| == |old(tree.internal.cells)|
      ensures RepCtx(tree.geo, tree.Mem(), ctx, leaf.ref, pivot)
    {
      hide RepCtx, WFCtx, CtxRefs, FreeChain;
      var g := tree.geo;
      ghost var s := tree.Mem();
      var h: nat := 0;
      while h < tree.height
        invariant h <= tree.height && tree.Pools() && tree.internal.cells == s.inner
        invariant forall i | 0 <= i < h :: ctx[i].right == []
      {
        var (node, pos) := stack[h + 1];
        PathNode(g, s, ctx, h, leaf.ref, last, 0);
        if tree.internal.Pivot(node, pos) != g.max {
          tree.internal.SetPivot(node, pos, pivot);
          Relast(g, s, tree.Mem(), ctx, h, leaf.ref, last, pivot);
          return;
        }
        h := h + 1;
      }
      EdgeLast(g, s, ctx, leaf.ref, last, pivot);
    }

    // The four repairs of an internal node: what they write, in terms of the lists of
    // right-most pivots and references that the three nodes involved stand for.

    method StealRightInner(node: nat, pos: nat, child: nat, sib: nat, ghost pl: seq<nat>, ghost pr: seq<nat>,
                           ghost cl: seq<nat>, ghost cr: seq<nat>, ghost sl: seq<nat>, ghost sr: seq<nat>)
      requires tree.Pools() && node < |tree.internal.cells| && child < |tree.internal.cells|
      requires sib < |tree.internal.cells|
      requires node != child && node != sib && child != sib
      requires InnerCell(tree.geo, tree.internal.cells[node], pl, pr) && pos + 1 < |pl|
      requires InnerCell(tree.geo, tree.internal.cells[child], cl, cr) && |cl| == tree.geo.half - 1
      requires cl[|cl| - 1] == pl[pos]
      requires InnerCell(tree.geo, tree.internal.cells[sib], sl, sr) && tree.geo.half < |sl| < tree.geo.B()
      modifies tree.internal`cells
      ensures tree.Pools() && |tree.internal.cells| == |old(tree.internal.cells)|
      ensures Agree(old(tree.internal.cells), tree.internal.cells, {child, sib, node})
      ensures InnerCell(tree.geo, tree.internal.cells[child], cl + [sl[0]], cr + [sr[0]])
      ensures InnerCell(tree.geo, tree.internal.cells[sib], sl[1..], sr[1..])
      ensures InnerCell(tree.geo, tree.internal.cells[node], pl[pos := sl[0]], pr)
    {
      hide InnerCell, FreeChain, RemoveShift;
      var g := tree.geo;
      InnerAt(g, tree.internal.cells[node], pl, pr, pos);
      InnerAt(g, tree.internal.cells[child], cl, cr, 0);
      InnerAt(g, tree.internal.cells[sib], sl, sr, 0);
      InnerRemoveFirst(g, tree.internal.cells[sib], sl, sr);
      InnerAppend(g, tree.internal.cells[child], cl, cr, sl[0], sr[0]);
      InnerSetPivot(g, tree.internal.cells[node], pl, pr, pos, sl[0]);
      var childMax := tree.internal.Pivot(node, pos);
      var pivot, value := tree.internal.Pivot(sib, 0), tree.internal.cells[sib].slots[0].v;
      tree.internal.RemovePivot(sib, 0);
      tree.internal.RemoveValue(sib, 0);
      tree.internal.SetPivot(child, g.half - 2, childMax);
      tree.internal.SetSlot(child, g.half - 1, Value(value));
      tree.internal.SetPivot(node, pos, pivot);
    }

    method StealLeftInner(node: nat, pos: nat, child: nat, sib: nat, ghost pl: seq<nat>, ghost pr: seq<nat>,
                          ghost cl: seq<nat>, ghost cr: seq<nat>, ghost sl: seq<nat>, ghost sr: seq<nat>)
      requires tree.Pools() && node < |tree.internal.cells| && child < |tree.internal.cells|
      requires sib < |tree.internal.cells|
      requires node != child && node != sib && child != sib
      requires InnerCell(tree.geo, tree.internal.cells[node], pl, pr) && 0 < pos < |pl|
      requires InnerCell(tree.geo, tree.internal.cells[child], cl, cr) && |cl| == tree.geo.half - 1
      requires InnerCell(tree.geo, tree.internal.cells[sib], sl, sr) && tree.geo.half < |sl| < tree.geo.B()
      requires sl[|sl| - 1] == pl[pos - 1]
      requires forall i | 0 <= i < |sl| :: sl[i] < tree.geo.max
      modifies tree.internal`cells
      ensures tree.Pools() && |tree.internal.cells| == |old(tree.internal.cells)|
      ensures Agree(old(tree.internal.cells), tree.internal.cells, {child, sib, node})
      ensures var n := |sl| - 1;
        && InnerCell(tree.geo, tree.internal.cells[child], [sl[n]] + cl, [sr[n]] + cr)
        && InnerCell(tree.geo, tree.internal.cells[sib], sl[..n], sr[..n])
        && InnerCell(tree.geo, tree.internal.cells[node], pl[pos - 1 := sl[n - 1]], pr)
    {
      hide InnerCell, FreeChain, InsertShift, FirstGe;
      var g := tree.geo;
      ghost var n := |sl| - 1;
      InnerAt(g, tree.internal.cells[node], pl, pr, pos - 1);
      InnerAt(g, tree.internal.cells[child], cl, cr, 0);
      InnerAt(g, tree.internal.cells[sib], sl, sr, n);
      InnerAt(g, tree.internal.cells[sib], sl, sr, n - 1);
      EndOfInner(g, tree.internal.cells[sib], sl, sr);
      InnerPrepend(g, tree.internal.cells[child], cl, cr, sl[n], sr[n]);
      InnerShrink(g, tree.internal.cells[sib], sl, sr);
      InnerSetPivot(g, tree.internal.cells[node], pl, pr, pos - 1, sl[n - 1]);
      var end := FirstGe(tree.internal.cells[sib].pivots, g.max) + 1;
      var sibLast := end - 1;
      var sibMax := tree.internal.Pivot(node, pos - 1);
      var value := tree.internal.cells[sib].slots[sibLast].v;
      tree.internal.InsertPivot(child, sibMax, 0, g.half + 1);
      tree.internal.InsertValue(child, value, 0, g.half + 1);
      sibMax := tree.internal.Pivot(sib, sibLast - 1);
      tree.internal.SetPivot(node, pos - 1, sibMax);
      tree.internal.SetPivot(sib, sibLast - 1, g.max);
    }

    method MergeRightInner(node: nat, pos: nat, child: nat, sib: nat, ghost pl: seq<nat>, ghost pr: seq<nat>,
                           ghost cl: seq<nat>, ghost cr: seq<nat>, ghost sl: seq<nat>, ghost sr: seq<nat>,
                           ghost refs: multiset<nat>)
      requires tree.Pools() && node < |tree.internal.cells| && child < |tree.internal.cells|
      requires sib < |tree.internal.cells|
      requires node != child && node != sib && child != sib
      requires InnerCell(tree.geo, tree.internal.cells[node], pl, pr) && pos + 1 < |pl| < tree.geo.B()
      requires InnerCell(tree.geo, tree.internal.cells[child], cl, cr) && |cl| == tree.geo.half - 1
      requires cl[|cl| - 1] == pl[pos]
      requires InnerCell(tree.geo, tree.internal.cells[sib], sl, sr) && |sl| == tree.geo.half
      requires Accounted(refs, tree.internal.free, |tree.internal.cells|) && sib in refs
      modifies tree.internal
      ensures tree.Pools() && |tree.internal.cells| == |old(tree.internal.cells)|
      ensures Agree(old(tree.internal.cells), tree.internal.cells, {child, sib, node})
      ensures InnerCell(tree.geo, tree.internal.cells[child], cl + sl, cr + sr)
      ensures InnerCell(tree.geo, tree.internal.cells[node], RemovedAt(pl, pos), RemovedAt(pr, pos + 1))
      ensures Accounted(refs - multiset{sib}, tree.internal.free, |tree.internal.cells|)
    {
      hide InnerCell, FreeChain, CopyOver, RemoveShift, Accounted;
      var g := tree.geo;
      InnerAt(g, tree.internal.cells[node], pl, pr, pos);
      InnerAt(g, tree.internal.cells[child], cl, cr, 0);
      InnerAt(g, tree.internal.cells[sib], sl, sr, 0);
      InnerMerge(g, tree.internal.cells[child], cl, cr, tree.internal.cells[sib], sl, sr);
      InnerRemove(g, tree.internal.cells[node], pl, pr, pos);
      var childMax := tree.internal.Pivot(node, pos);
      tree.internal.MergeFrom(child, sib, g.half - 1, g.half);
      tree.internal.SetPivot(child, g.half - 2, childMax);
      tree.internal.FreeNode(refs, sib);
      tree.internal.RemovePivot(node, pos);
      tree.internal.RemoveValue(node, pos + 1);
    }

    method MergeLeftInner(node: nat, pos: nat, child: nat, sib: nat, ghost pl: seq<nat>, ghost pr: seq<nat>,
                          ghost cl: seq<nat>, ghost cr: seq<nat>, ghost sl: seq<nat>, ghost sr: seq<nat>,
                          ghost refs: multiset<nat>)
      requires tree.Pools() && node < |tree.internal.cells| && child < |tree.internal.cells|
      requires sib < |tree.internal.cells|
      requires node != child && node != sib && child != sib
      requires InnerCell(tree.geo, tree.internal.cells[node], pl, pr) && 0 < pos < |pl| < tree.geo.B()
      requires InnerCell(tree.geo, tree.internal.cells[child], cl, cr) && |cl| == tree.geo.half - 1
      requires InnerCell(tree.geo, tree.internal.cells[sib], sl, sr) && |sl| == tree.geo.half
      requires sl[|sl| - 1] == pl[pos - 1]
      requires Accounted(refs, tree.internal.free, |tree.internal.cells|) && child in refs
      modifies tree.internal
      ensures tree.Pools() && |tree.internal.cells| == |old(tree.internal.cells)|
      ensures Agree(old(tree.internal.cells), tree.internal.cells, {child, sib, node})
      ensures InnerCell(tree.geo, tree.internal.cells[sib], sl + cl, sr + cr)
      ensures InnerCell(tree.geo, tree.internal.cells[node], RemovedAt(pl, pos - 1), RemovedAt(pr, pos))
      ensures Accounted(refs - multiset{child}, tree.internal.free, |tree.internal.cells|)
    {
      hide InnerCell, FreeChain, CopyOver, RemoveShift, Accounted;
      var g := tree.geo;
      InnerAt(g, tree.internal.cells[node], pl, pr, pos - 1);
      InnerAt(g, tree.internal.cells[child], cl, cr, 0);
      InnerAt(g, tree.internal.cells[sib], sl, sr, 0);
      InnerMerge(g, tree.internal.cells[sib], sl, sr, tree.internal.cells[child], cl, cr);
      InnerRemove(g, tree.internal.cells[node], pl, pr, pos - 1);
      tree.internal.MergeFrom(sib, child, g.half, g.half - 1);
      var sibMax := tree.internal.Pivot(node, pos - 1);
      tree.internal.SetPivot(sib, g.half - 1, sibMax);
      tree.internal.FreeNode(refs, child);
      tree.internal.RemovePivot(node, pos - 1);
      tree.internal.RemoveValue(node, pos);
    }

    // The same four repairs of a leaf.

    method StealRightLeaf(node: nat, pos: nat, child: nat, sib: nat, ghost pl: seq<nat>, ghost pr: seq<nat>,
                          ghost ces: seq<Entry<V>>, ghost ses: seq<Entry<V>>)
      requires tree.Pools() && node < |tree.internal.cells| && child < |tree.leaf.cells| && sib < |tree.leaf.cells|
      requires child != sib
      requires InnerCell(tree.geo, tree.internal.cells[node], pl, pr) && pos + 1 < |pl|
      requires tree.leaf.IsLive(child) && LeafCell(tree.geo, tree.leaf.cells[child], ces) && |ces| == tree.geo.half - 1
      requires tree.leaf.IsLive(sib) && LeafCell(tree.geo, tree.leaf.cells[sib], ses)
      requires tree.geo.half < |ses| < tree.geo.B()
      modifies tree.internal`cells, tree.leaf`cells
      ensures tree.Pools() && |tree.internal.cells| == |old(tree.internal.cells)|
      ensures |tree.leaf.cells| == |old(tree.leaf.cells)|
      ensures Agree(old(tree.internal.cells), tree.internal.cells, {node})
      ensures Agree(old(tree.leaf.cells), tree.leaf.cells, {child, sib})
      ensures tree.leaf.IsLive(child) && LeafCell(tree.geo, tree.leaf.cells[child], ces + [ses[0]])
      ensures tree.leaf.IsLive(sib) && LeafCell(tree.geo, tree.leaf.cells[sib], ses[1..])
      ensures Link(tree.geo, tree.leaf.cells, child) == Link(tree.geo, old(tree.leaf.cells), child)
      ensures Link(tree.geo, tree.leaf.cells, sib) == Link(tree.geo, old(tree.leaf.cells), sib)
      ensures InnerCell(tree.geo, tree.internal.cells[node], pl[pos := ses[0].last], pr)
    {
      hide InnerCell, LeafCell, FreeChain;
      var g := tree.geo;
      InnerAt(g, tree.internal.cells[node], pl, pr, pos);
      LeafAt(g, tree.leaf.cells[sib], ses, 0);
      LeafRemove(g, tree.leaf.cells[sib], ses, 0);
      LeafAppend(g, tree.leaf.cells[child], ces, ses[0]);
      InnerSetPivot(g, tree.internal.cells[node], pl, pr, pos, ses[0].last);
      assert RemovedAt(ses, 0) == ses[1..];
      var pivot, value := tree.leaf.Pivot(sib, 0), tree.leaf.cells[sib].slots[0].v;
      tree.leaf.RemovePivot(sib, 0);
      tree.leaf.RemoveValue(sib, 0);
      tree.leaf.SetPivot(child, g.half - 1, pivot);
      tree.leaf.SetSlot(child, g.half - 1, Value(value));
      tree.internal.SetPivot(node, pos, pivot);
    }

    method StealLeftLeaf(node: nat, pos: nat, child: nat, sib: nat, ghost pl: seq<nat>, ghost pr: seq<nat>,
                         ghost ces: seq<Entry<V>>, ghost ses: seq<Entry<V>>)
      requires tree.Pools() && node < |tree.internal.cells| && child < |tree.leaf.cells| && sib < |tree.leaf.cells|
      requires child != sib
      requires InnerCell(tree.geo, tree.internal.cells[node], pl, pr) && 0 < pos < |pl|
      requires tree.leaf.IsLive(child) && LeafCell(tree.geo, tree.leaf.cells[child], ces) && |ces| == tree.geo.half - 1
      requires tree.leaf.IsLive(sib) && LeafCell(tree.geo, tree.leaf.cells[sib], ses)
      requires tree.geo.half < |ses| < tree.geo.B()
      requires forall i | 0 <= i < |ses| :: ses[i].last < tree.geo.max
      modifies tree.internal`cells, tree.leaf`cells
      ensures tree.Pools() && |tree.internal.cells| == |old(tree.internal.cells)|
      ensures |tree.leaf.cells| == |old(tree.leaf.cells)|
      ensures Agree(old(tree.internal.cells), tree.internal.cells, {node})
      ensures Agree(old(tree.leaf.cells), tree.leaf.cells, {child, sib})
      ensures var n := |ses| - 1;
        && tree.leaf.IsLive(child) && LeafCell(tree.geo, tree.leaf.cells[child], [ses[n]] + ces)
        && tree.leaf.IsLive(sib) && LeafCell(tree.geo, tree.leaf.cells[sib], ses[..n])
        && InnerCell(tree.geo, tree.internal.cells[node], pl[pos - 1 := ses[n - 1].last], pr)
      ensures Link(tree.geo, tree.leaf.cells, child) == Link(tree.geo, old(tree.leaf.cells), child)
      ensures Link(tree.geo, tree.leaf.cells, sib) == Link(tree.geo, old(tree.leaf.cells), sib)
    {
      hide InnerCell, LeafCell, FreeChain, FirstGe;
      var g := tree.geo;
      ghost var n := |ses| - 1;
      InnerAt(g, tree.internal.cells[node], pl, pr, pos - 1);
      LeafAt(g, tree.leaf.cells[sib], ses, n);
      LeafAt(g, tree.leaf.cells[sib], ses, n - 1);
      EndOfLeaf(g, tree.leaf.cells[sib], ses);
      LeafPrepend(g, tree.leaf.cells[child], ces, ses[n]);
      LeafShrink(g, tree.leaf.cells[sib], ses);
      InnerSetPivot(g, tree.internal.cells[node], pl, pr, pos - 1, ses[n - 1].last);
      var end := FirstGe(tree.leaf.cells[sib].pivots, g.max);
      var sibLast := end - 1;
      var pivot, value := tree.leaf.Pivot(sib, sibLast), tree.leaf.cells[sib].slots[sibLast].v;
      tree.leaf.InsertPivot(child, pivot, 0, g.half + 1);
      tree.leaf.InsertValue(child, value, 0, g.half + 1);
      var sibMax := tree.leaf.Pivot(sib, sibLast - 1);
      tree.internal.SetPivot(node, pos - 1, sibMax);
      tree.leaf.SetPivot(sib, sibLast, g.max);
    }

    method MergeRightLeaf(node: nat, pos: nat, child: nat, sib: nat, ghost pl: seq<nat>, ghost pr: seq<nat>,
                          ghost ces: seq<Entry<V>>, ghost ses: seq<Entry<V>>, ghost refs: multiset<nat>)
      requires tree.Pools() && node < |tree.internal.cells| && child < |tree.leaf.cells| && sib < |tree.leaf.cells|
      requires child != sib
      requires InnerCell(tree.geo, tree.internal.cells[node], pl, pr) && pos + 1 < |pl| < tree.geo.B()
      requires tree.leaf.IsLive(child) && LeafCell(tree.geo, tree.leaf.cells[child], ces) && |ces| == tree.geo.half - 1
      requires tree.leaf.IsLive(sib) && LeafCell(tree.geo, tree.leaf.cells[sib], ses) && |ses| == tree.geo.half
      requires Link(tree.geo, tree.leaf.cells, sib).NextLeaf?
      requires Accounted(refs, tree.leaf.free, |tree.leaf.cells|) && sib in refs
      modifies tree.internal`cells, tree.leaf
      ensures tree.Pools() && |tree.internal.cells| == |old(tree.internal.cells)|
      ensures |tree.leaf.cells| == |old(tree.leaf.cells)|
      ensures Agree(old(tree.internal.cells), tree.internal.cells, {node})
      ensures Agree(old(tree.leaf.cells), tree.leaf.cells, {child, sib})
      ensures tree.leaf.IsLive(child) && LeafCell(tree.geo, tree.leaf.cells[child], ces + ses)
      ensures Link(tree.geo, tree.leaf.cells, child) == Link(tree.geo, old(tree.leaf.cells), sib)
      ensures InnerCell(tree.geo, tree.internal.cells[node], RemovedAt(pl, pos), RemovedAt(pr, pos + 1))
      ensures Accounted(refs - multiset{sib}, tree.leaf.free, |tree.leaf.cells|)
    {
      hide InnerCell, LeafCell, FreeChain, CopyOver, RemoveShift, Accounted;
      var g := tree.geo;
      InnerAt(g, tree.internal.cells[node], pl, pr, pos);
      LeafMerge(g, tree.leaf.cells[child], ces, tree.leaf.cells[sib], ses);
      InnerRemove(g, tree.internal.cells[node], pl, pr, pos);
      tree.leaf.MergeFrom(child, sib, g.half - 1, g.half);
      var next := tree.leaf.cells[sib].slots[g.B() - 1].next;
      LeafLink(g, tree.leaf.cells[child], ces + ses, next);
      tree.leaf.SetNextLeaf(child, next);
      tree.leaf.FreeNode(refs, sib);
      tree.internal.RemovePivot(node, pos);
      tree.internal.RemoveValue(node, pos + 1);
    }

    method MergeLeftLeaf(node: nat, pos: nat, child: nat, sib: nat, ghost pl: seq<nat>, ghost pr: seq<nat>,
                         ghost ces: seq<Entry<V>>, ghost ses: seq<Entry<V>>, ghost refs: multiset<nat>)
      requires tree.Pools() && node < |tree.internal.cells| && child < |tree.leaf.cells| && sib < |tree.leaf.cells|
      requires child != sib
      requires InnerCell(tree.geo, tree.internal.cells[node], pl, pr) && 0 < pos < |pl| < tree.geo.B()
      requires tree.leaf.IsLive(child) && LeafCell(tree.geo, tree.leaf.cells[child], ces) && |ces| == tree.geo.half - 1
      requires tree.leaf.IsLive(sib) && LeafCell(tree.geo, tree.leaf.cells[sib], ses) && |ses| == tree.geo.half
      requires Link(tree.geo, tree.leaf.cells, child).NextLeaf?
      requires Accounted(refs, tree.leaf.free, |tree.leaf.cells|) && child in refs
      modifies tree.internal`cells, tree.leaf
      ensures tree.Pools() && |tree.internal.cells| == |old(tree.internal.cells)|
      ensures |tree.leaf.cells| == |old(tree.leaf.cells)|
      ensures Agree(old(tree.internal.cells), tree.internal.cells, {node})
      ensures Agree(old(tree.leaf.cells), tree.leaf.cells, {child, sib})
      ensures tree.leaf.IsLive(sib) && LeafCell(tree.geo, tree.leaf.cells[sib], ses + ces)
      ensures Link(tree.geo, tree.leaf.cells, sib) == Link(tree.geo, old(tree.leaf.cells), child)
      ensures InnerCell(tree.geo, tree.internal.cells[node], RemovedAt(pl, pos - 1), RemovedAt(pr, pos))
      ensures Accounted(refs - multiset{child}, tree.leaf.free, |tree.leaf.cells|)
    {
      hide InnerCell, LeafCell, FreeChain, CopyOver, RemoveShift, Accounted;
      var g := tree.geo;
      InnerAt(g, tree.internal.cells[node], pl, pr, pos - 1);
      LeafMerge(g, tree.leaf.cells[sib], ses, tree.leaf.cells[child], ces);
      InnerRemove(g, tree.internal.cells[node], pl, pr, pos - 1);
      tree.leaf.MergeFrom(sib, child, g.half, g.half - 1);
      var next := tree.leaf.cells[child].slots[g.B() - 1].next;
      LeafLink(g, tree.leaf.cells[sib], ses + ces, next);
      tree.leaf.SetNextLeaf(sib, next);
      tree.leaf.FreeNode(refs, child);
      tree.internal.RemovePivot(node, pos - 1);
      tree.internal.RemoveValue(node, pos);
    }

    /** Repairs the internal node `t` at height `h` from its right neighbour. */
    method RepairRightInner(h: nat, ghost t: Tree<V>, ghost rest: seq<Frame<V>>, ghost low: seq<Frame<V>>,
                            ghost ls: seq<LeafNode<V>>, ghost before: seq<LeafNode<V>>)
      returns (merged: bool, ghost t': Tree<V>, ghost rest': seq<Frame<V>>, ghost low': seq<Frame<V>>)
      requires tree.Pools() && h == |low| > 0 && OnStack(stack, 0, low + rest) && stack != [] && rest != []
      requires rest[0].right != []
      requires Deficient(tree.geo, tree.Mem(), t, rest, h) && t.Inner? && |t.kids| == tree.geo.half - 1
      requires OnTrack(ls, before, rest, t, low, leaf)
      requires Accounted(InnerRefs(t) + CtxRefs(rest), tree.internal.free, |tree.internal.cells|)
      modifies tree.internal
      ensures tree.Pools() && OnStack(stack, 0, low' + rest') && OnTrack(ls, before, rest', t', low', leaf)
      ensures Accounted(InnerRefs(t') + CtxRefs(rest'), tree.internal.free, |tree.internal.cells|)
      ensures RootOf(rest', t') == RootOf(rest, t) && |low'| + |rest'| == |low| + |rest|
      ensures if merged then Deficient(tree.geo, tree.Mem(), t', rest', h + 1) && |low'| == h + 1
              else Repaired(tree.geo, tree.Mem(), t', rest', h) && |low'| == h
    {
      hide Deficient, OnTrack, Accounted, InnerRefs, CtxRefs, OnStack, Rep, WF, RepCtx, WFCtx, InnerCell, Last;
      hide FreeChain;
      hide RepAll, WFAll, UntouchedAll, UntouchedCtx, Lasts, Refs, FrameLasts, FrameRefs;
      var g := tree.geo;
      ghost var s, f := tree.Mem(), rest[0];
      ghost var sibT := f.right[0];
      RightInnerFacts(g, s, t, rest, h - 1, tree.internal.free, |tree.internal.cells|);
      ghost var pl, pr, cl, cr, sl, sr := FrameLasts(f, Last(t)), FrameRefs(f, t.id), Lasts(t.kids), Refs(t.kids),
        Lasts(sibT.kids), Refs(sibT.kids);
      TrackTop(ls, before, rest, t, low, leaf);
      ghost var q := |low[|low| - 1].left|;
      StackMerge(stack, low, rest, low[|low| - 1], f);
      var (node, pos) := stack[h + 1];
      var child := stack[h].0;
      var sib := tree.internal.cells[node].slots[pos + 1].v;
      merged := tree.internal.Pivot(sib, g.half - 1) == g.max;
      if !merged {
        StealRightInner(node, pos, child, sib, pl, pr, cl, cr, sl, sr);
        InnerStealRight(g, s, tree.Mem(), t, rest, h - 1, tree.internal.free, |tree.internal.cells|);
        OwnersStealRight(rest, t);
        TrackStealRight(ls, before, rest, t, low, leaf);
        t', rest' := TookFirst(t, sibT), [StolenRight(f, LostFirst(sibT))] + rest[1..];
        low' := Retop(low, t', q);
        StackSteal(stack, low, rest, FrameAt(t', q), rest'[0]);
        assert stack[h := Spot(FrameAt(t', q))] == stack;
      } else {
        ghost var refs := InnerRefs(t) + CtxRefs(rest);
        MergeRightInner(node, pos, child, sib, pl, pr, cl, cr, sl, sr, refs);
        InnerMergeRight(g, s, tree.Mem(), t, rest, h - 1, old(tree.internal.free), |s.inner|);
        OwnersMergeRight(rest, t);
        TrackMergeRight(ls, before, rest, t, low, leaf);
        ghost var j, f' := Joined(t, sibT), MergedRight(f);
        t', rest', low' := f'.Fill(j), rest[1..], Retop(low, j, q) + [f'];
        StackMerge(stack, low, rest, FrameAt(j, q), f');
        assert stack[h := Spot(FrameAt(j, q))][h + 1 := Spot(f')] == stack;
      }
    }

    /** Repairs the internal node `t` at height `h`, the last child of its parent, from its left neighbour. */
    method RepairLeftInner(h: nat, ghost t: Tree<V>, ghost rest: seq<Frame<V>>, ghost low: seq<Frame<V>>,
                           ghost ls: seq<LeafNode<V>>, ghost before: seq<LeafNode<V>>)
      returns (merged: bool, ghost t': Tree<V>, ghost rest': seq<Frame<V>>, ghost low': seq<Frame<V>>)
      requires tree.Pools() && h == |low| > 0 && OnStack(stack, 0, low + rest) && stack != [] && rest != []
      requires rest[0].left != []
      requires Deficient(tree.geo, tree.Mem(), t, rest, h) && t.Inner? && |t.kids| == tree.geo.half - 1
      requires OnTrack(ls, before, rest, t, low, leaf)
      requires Accounted(InnerRefs(t) + CtxRefs(rest), tree.internal.free, |tree.internal.cells|)
      modifies this`stack, tree.internal
      ensures tree.Pools() && OnStack(stack, 0, low' + rest') && OnTrack(ls, before, rest', t', low', leaf)
      ensures stack != [] && stack[0] == old(stack)[0]
      ensures Accounted(InnerRefs(t') + CtxRefs(rest'), tree.internal.free, |tree.internal.cells|)
      ensures RootOf(rest', t') == RootOf(rest, t) && |low'| + |rest'| == |low| + |rest|
      ensures if merged then Deficient(tree.geo, tree.Mem(), t', rest', h + 1) && |low'| == h + 1
              else Repaired(tree.geo, tree.Mem(), t', rest', h) && |low'| == h
    {
      hide Deficient, OnTrack, Accounted, InnerRefs, CtxRefs, OnStack, Rep, WF, RepCtx, WFCtx, InnerCell, Last;
      hide FreeChain;
      hide RepAll, WFAll, UntouchedAll, UntouchedCtx, Lasts, Refs, FrameLasts, FrameRefs;
      var g := tree.geo;
      ghost var s, f := tree.Mem(), rest[0];
      ghost var sibT := f.left[|f.left| - 1];
      LeftInnerFacts(g, s, t, rest, h - 1, tree.internal.free, |tree.internal.cells|);
      ghost var pl, pr, cl, cr, sl, sr := FrameLasts(f, Last(t)), FrameRefs(f, t.id), Lasts(t.kids), Refs(t.kids),
        Lasts(sibT.kids), Refs(sibT.kids);
      TrackTop(ls, before, rest, t, low, leaf);
      ghost var q := |low[|low| - 1].left|;
      StackMerge(stack, low, rest, low[|low| - 1], f);
      var (node, pos) := stack[h + 1];
      var (child, childPos) := stack[h];
      var sib := tree.internal.cells[node].slots[pos - 1].v;
      merged := tree.internal.Pivot(sib, g.half - 1) == g.max;
      if !merged {
        StealLeftInner(node, pos, child, sib, pl, pr, cl, cr, sl, sr);
        InnerStealLeft(g, s, tree.Mem(), t, rest, h - 1, tree.internal.free, |tree.internal.cells|);
        OwnersStealLeft(rest, t);
        TrackStealLeft(ls, before, rest, t, low, leaf);
        t', rest' := TookLast(t, sibT), [StolenLeft(f, LostLast(sibT))] + rest[1..];
        low' := Retop(low, t', q + 1);
        StackSteal(stack, low, rest, FrameAt(t', q + 1), rest'[0]);
        stack := stack[h := (child, childPos + 1)];
      } else {
        ghost var refs := InnerRefs(t) + CtxRefs(rest);
        MergeLeftInner(node, pos, child, sib, pl, pr, cl, cr, sl, sr, refs);
        InnerMergeLeft(g, s, tree.Mem(), t, rest, h - 1, old(tree.internal.free), |s.inner|);
        OwnersMergeLeft(rest, t);
        TrackMergeLeft(ls, before, rest, t, low, leaf);
        ghost var j, f' := Joined(sibT, t), MergedLeft(f);
        t', rest', low' := f'.Fill(j), rest[1..], Retop(low, j, q + g.half) + [f'];
        StackMerge(stack, low, rest, FrameAt(j, q + g.half), f');
        stack := stack[h := (sib, childPos + g.half)][h + 1 := (node, pos - 1)];
      }
    }

    /** Repairs the internal node `t` at height `h`, preferring its right neighbour. */
    method HandleUnderflowInner(h: nat, ghost t: Tree<V>, ghost rest: seq<Frame<V>>, ghost low: seq<Frame<V>>,
                                ghost ls: seq<LeafNode<V>>, ghost before: seq<LeafNode<V>>)
      returns (merged: bool, ghost t': Tree<V>, ghost rest': seq<Frame<V>>, ghost low': seq<Frame<V>>)
      requires tree.Pools() && h == |low| > 0 && OnStack(stack, 0, low + rest) && stack != [] && rest != []
      requires Deficient(tree.geo, tree.Mem(), t, rest, h) && t.Inner? && |t.kids| == tree.geo.half - 1
      requires OnTrack(ls, before, rest, t, low, leaf)
      requires Accounted(InnerRefs(t) + CtxRefs(rest), tree.internal.free, |tree.internal.cells|)
      modifies this`stack, tree.internal
      ensures tree.Pools() && OnStack(stack, 0, low' + rest') && OnTrack(ls, before, rest', t', low', leaf)
      ensures stack != [] && stack[0] == old(stack)[0]
      ensures Accounted(InnerRefs(t') + CtxRefs(rest'), tree.internal.free, |tree.internal.cells|)
      ensures RootOf(rest', t') == RootOf(rest, t) && |low'| + |rest'| == |low| + |rest|
      ensures if merged then Deficient(tree.geo, tree.Mem(), t', rest', h + 1) && |low'| == h + 1
              else Repaired(tree.geo, tree.Mem(), t', rest', h) && |low'| == h
    {
      hide Deficient, Repaired, OnTrack, Accounted, InnerRefs, CtxRefs, OnStack, RepCtx, WFCtx, InnerCell, Last;
      hide FreeChain, RootOf;
      OpenDeficient(tree.geo, tree.Mem(), t, rest, h - 1);
      ParentSlots(tree.geo, tree.internal.cells[rest[0].ref], rest[0], Last(t), t.id);
      StackMerge(stack, low, rest, low[|low| - 1], rest[0]);
      var (node, pos) := stack[h + 1];
      if tree.internal.Pivot(node, pos) != tree.geo.max {
        merged, t', rest', low' := RepairRightInner(h, t, rest, low, ls, before);
      } else {
        merged, t', rest', low' := RepairLeftInner(h, t, rest, low, ls, before);
      }
    }

    /** Goes up from the parent of two merged leaves, as long as merging leaves nodes less than half full. */
    method Cascade(ghost top: Tree<V>, ghost above: seq<Frame<V>>, ghost below: seq<Frame<V>>,
                   ghost ls: seq<LeafNode<V>>, ghost before: seq<LeafNode<V>>)
      requires tree.Pools() && |below| == 1 && |below| + |above| == tree.height && OnStack(stack, 0, below + above)
      requires stack != []
      requires stack[0].0 == leaf.ref && stack[0].1 <= |leaf.es|
      requires Deficient(tree.geo, tree.Mem(), top, above, 1) && OnTrack(ls, before, above, top, below, leaf)
      requires tree.root == RootOf(above, top)
      requires Accounted(InnerRefs(top) + CtxRefs(above), tree.internal.free, |tree.internal.cells|)
      requires ChainFromZero(tree.geo, tree.leaf.cells, RefSeq(ls))
      requires Accounted(multiset(RefSeq(ls)), tree.leaf.free, |tree.leaf.cells|)
      modifies this, tree, tree.internal
      ensures OnPath() && Leaves(tree.shape) == ls && LeavesBefore(ctx) == before
      ensures stack[0] == old(stack)[0] && leaf == old(leaf)
    {
      hide Deficient, OnTrack, Accounted, InnerRefs, CtxRefs, OnStack, RepCtx, WFCtx, FreeChain, ChainFromZero;
      hide Rep, WF, Leaves, LeavesBefore, LeavesAfter, Plug, TreeOK, Last, RefSeq;
      var g := tree.geo;
      var h: nat := 1;
      ghost var t, rest, low := top, above, below;
      while true
        invariant tree.Pools() && h == |low| > 0 && |low| + |rest| == tree.height && OnStack(stack, 0, low + rest)
        invariant stack != [] && stack[0] == old(stack)[0] && leaf == old(leaf)
        invariant Deficient(g, tree.Mem(), t, rest, h) && OnTrack(ls, before, rest, t, low, leaf)
        invariant tree.root == RootOf(rest, t)
        invariant Accounted(InnerRefs(t) + CtxRefs(rest), tree.internal.free, |tree.internal.cells|)
        invariant tree.leaf.cells == old(tree.leaf.cells) && tree.leaf.free == old(tree.leaf.free)
        decreases |rest|
      {
        CountTest(g, tree.Mem(), t, rest, h - 1);
        TopSpot(stack, low, rest, ls, before, t, leaf);
        var node := stack[h].0;
        if h == tree.height {
          if tree.internal.Pivot(node, 0) == g.max {
            DropRoot(node, t, low, ls, before);
            return;
          }
          break;
        }
        if tree.internal.Pivot(node, g.half - 2) != g.max {
          break;
        }
        ghost var n := |rest|;
        var merged;
        merged, t, rest, low := HandleUnderflowInner(h, t, rest, low, ls, before);
        if !merged {
          Settle(t, rest, low, ls, before);
          return;
        }
        h := h + 1;
      }
      LargeEnough(g, tree.Mem(), t, rest, h - 1);
      Settle(t, rest, low, ls, before);
    }

    /** Everything is large enough: the ghost view of the tree is the repaired path. */
    ghost method Settle(t: Tree<V>, rest: seq<Frame<V>>, low: seq<Frame<V>>, ls: seq<LeafNode<V>>,
                        before: seq<LeafNode<V>>)
      requires tree.Pools() && |low| + |rest| == tree.height && OnStack(stack, 0, low + rest) && stack != []
      requires stack[0].0 == leaf.ref && stack[0].1 <= |leaf.es|
      requires Rep(tree.geo, tree.Mem(), t) && RepCtx(tree.geo, tree.Mem(), rest, t.Ref(), Last(t))
      requires WFCtx(tree.geo, rest, |low|)
      requires WF(tree.geo, t, |low|, if rest == [] then RootMin(|low|) else tree.geo.half)
      requires OnTrack(ls, before, rest, t, low, leaf) && tree.root == RootOf(rest, t)
      requires Accounted(InnerRefs(t) + CtxRefs(rest), tree.internal.free, |tree.internal.cells|)
      requires ChainFromZero(tree.geo, tree.leaf.cells, RefSeq(ls))
      requires Accounted(multiset(RefSeq(ls)), tree.leaf.free, |tree.leaf.cells|)
      modifies this`ctx, tree`shape
      ensures OnPath() && Leaves(tree.shape) == ls && LeavesBefore(ctx) == before
    {
      hide Rep, WF, RepCtx, WFCtx, OnTrack, Accounted, InnerRefs, CtxRefs, OnStack, FreeChain, ChainFromZero, Leaves;
      hide LeavesBefore;
      hide LeavesAfter, Plug, TreeOK, Last;
      FinishTrack(tree.geo, tree.Mem(), t, rest, |low|, ls, before, low, leaf);
      ctx := low + rest;
      tree.shape := Plug(Leaf(leaf), ctx);
    }

    /** Pops a root that has a single child left. */
    method DropRoot(node: nat, ghost t: Tree<V>, ghost low: seq<Frame<V>>, ghost ls: seq<LeafNode<V>>,
                    ghost before: seq<LeafNode<V>>)
      requires tree.Pools() && 0 < |low| == tree.height && OnStack(stack, 0, low + []) && stack != []
      requires stack[0].0 == leaf.ref && stack[0].1 <= |leaf.es|
      requires Deficient(tree.geo, tree.Mem(), t, [], tree.height) && t.Inner? && |t.kids| == 1 && node == t.id
      requires OnTrack(ls, before, [], t, low, leaf)
      requires Accounted(InnerRefs(t) + CtxRefs<V>([]), tree.internal.free, |tree.internal.cells|)
      requires ChainFromZero(tree.geo, tree.leaf.cells, RefSeq(ls))
      requires Accounted(multiset(RefSeq(ls)), tree.leaf.free, |tree.leaf.cells|)
      modifies this, tree, tree.internal
      ensures OnPath() && Leaves(tree.shape) == ls && LeavesBefore(ctx) == before
      ensures stack[0] == old(stack)[0] && leaf == old(leaf)
    {
      hide Deficient, OnTrack, Accounted, InnerRefs, CtxRefs, OnStack, RepCtx, WFCtx, FreeChain, ChainFromZero, Rep, WF;
      hide Leaves, LeavesBefore;
      hide Last, Plug, TreeOK;
      var g := tree.geo;
      ghost var s, refs := tree.Mem(), InnerRefs(t) + CtxRefs<V>([]);
      CountTest(g, s, t, [], tree.height - 1);
      RootOwned(t);
      StackCut(stack, low);
      var child := tree.internal.cells[node].slots[0].v;
      tree.root := child;
      tree.internal.FreeNode(refs, node);
      tree.height := tree.height - 1;
      stack := stack[..tree.height + 1];
      CollapseRoot(g, s, tree.Mem(), t, tree.height, ls, before, low, leaf, old(tree.internal.free), |s.inner|);
      NilRep<V>(g, tree.Mem(), t.kids[0].Ref(), Last(t.kids[0]), tree.height);
      Settle(t.kids[0], [], low[..|low| - 1], ls, before);
    }

    /** The current leaf now holds `l`; the rest of the path is in order, the ghost view is not yet up to date. */
    ghost predicate Apart(l: LeafNode<V>)
      reads this, tree, tree.leaf, tree.internal
    {
      && tree.Pools() && |ctx| == tree.height && OnStack(stack, 0, ctx) && stack[0].0 == l.ref && stack[0].1 <= |l.es|
      && Rep(tree.geo, tree.Mem(), Leaf(l)) && RepCtx(tree.geo, tree.Mem(), ctx, l.ref, Last(Leaf(l)))
      && WFCtx(tree.geo, ctx, 0)
      && tree.root == RootOf(ctx, Leaf(l))
      && ChainFromZero(tree.geo, tree.leaf.cells, RefSeq(AllLeaves(l, ctx)))
      && Accounted(multiset(RefSeq(AllLeaves(l, ctx))), tree.leaf.free, |tree.leaf.cells|)
      && Accounted(CtxRefs(ctx), tree.internal.free, |tree.internal.cells|)
    }

    /** As `Apart`, and the leaf has one entry too few. */
    ghost predicate Short(l: LeafNode<V>)
      reads this, tree, tree.leaf, tree.internal
    {
      Apart(l) && 0 < |ctx| && |l.es| == tree.geo.half - 1 && Deficient(tree.geo, tree.Mem(), Leaf(l), ctx, 0)
    }

    /** The rewritten leaf is large enough: it becomes part of the ghost view. */
    ghost method Rejoin(l: LeafNode<V>)
      requires Apart(l) && WF(tree.geo, Leaf(l), 0, if ctx == [] then 0 else tree.geo.half)
      modifies this`leaf, tree`shape
      ensures OnPath() && leaf == l && tree.Contents() == Concat(AllLeaves(l, ctx))
    {
      hide Rep, WF, RepCtx, WFCtx, Accounted, InnerRefs, CtxRefs, OnStack, FreeChain, ChainFromZero, Leaves;
      hide LeavesBefore;
      hide LeavesAfter, Plug, TreeOK, Last, Concat;
      LeafFlat(l);
      Close(tree.geo, tree.Mem(), Leaf(l), ctx, 0);
      PlugAll(l, ctx);
      leaf := l;
      tree.shape := Plug(Leaf(l), ctx);
    }

    /** Repairs the current leaf from its right neighbour. */
    method RepairRightLeaf(ghost l: LeafNode<V>)
      requires Short(l) && ctx[0].right != []
      modifies this, tree, tree.leaf, tree.internal
      ensures OnPath() && tree.Contents() == Concat(AllLeaves(l, old(ctx)))
      ensures Index() == |Before(old(ctx))| + old(stack)[0].1
    {
      hide Deficient, OnTrack, Accounted, InnerRefs, CtxRefs, OnStack, Rep, WF, RepCtx, WFCtx, InnerCell, LeafCell;
      hide Last, FreeChain;
      hide UntouchedAll, UntouchedCtx, ChainFromZero, LeavesBefore, LeavesAfter, Leaves, Concat, Plug, TreeOK, RefSeq;
      hide FarAfter, FrameLasts, FrameRefs, Link;
      var g := tree.geo;
      ghost var s, rest, f := tree.Mem(), ctx, ctx[0];
      RightLeafFacts(g, s, l, rest, tree.leaf.free, |tree.leaf.cells|, tree.internal.free, |tree.internal.cells|);
      ghost var sibL := f.right[0].leaf;
      ghost var pl, pr := FrameLasts(f, Last(Leaf(l))), FrameRefs(f, l.ref);
      StackFrame(stack, rest, f);
      var (node, pos) := stack[1];
      var child := stack[0].0;
      var sib := tree.internal.cells[node].slots[pos + 1].v;
      if tree.leaf.Pivot(sib, g.half) != g.max {
        StealRightLeaf(node, pos, child, sib, pl, pr, l.es, sibL.es);
        LeafStealRight(g, s, tree.Mem(), l, rest, tree.leaf.free, |tree.leaf.cells|, tree.internal.free,
                       |tree.internal.cells|);
        ghost var f' := StolenRight(f, Leaf(LeafLostFirst(sibL)));
        StackFrame(stack, rest, f');
        leaf, ctx := LeafTookFirst(l, sibL), [f'] + rest[1..];
        tree.shape := Plug(Leaf(leaf), ctx);
        PlugAll(leaf, ctx);
      } else {
        ghost var refs := multiset(RefSeq(AllLeaves(l, rest)));
        MergeRightLeaf(node, pos, child, sib, pl, pr, l.es, sibL.es, refs);
        LeafMergeRight(g, s, tree.Mem(), l, rest, old(tree.leaf.free), |s.leaf|, tree.internal.free,
                       |tree.internal.cells|);
        ghost var j, f' := LeafJoined(l, sibL), MergedRight(f);
        StackFrame(stack, rest, f');
        leaf := j;
        Cascade(f'.Fill(Leaf(j)), rest[1..], [f'], LeavesBefore(rest) + [j] + FarAfter(rest), LeavesBefore(rest));
      }
    }

    /** Repairs the current leaf, the last child of its parent, from its left neighbour. */
    method RepairLeftLeaf(ghost l: LeafNode<V>)
      requires Short(l) && ctx[0].left != []
      modifies this, tree, tree.leaf, tree.internal
      ensures OnPath() && tree.Contents() == Concat(AllLeaves(l, old(ctx)))
      ensures Index() == |Before(old(ctx))| + old(stack)[0].1
    {
      hide Deficient, OnTrack, Accounted, InnerRefs, CtxRefs, OnStack, Rep, WF, RepCtx, WFCtx, InnerCell, LeafCell;
      hide Last, FreeChain;
      hide UntouchedAll, UntouchedCtx, ChainFromZero, LeavesBefore, LeavesAfter, Leaves, Concat, Plug, TreeOK, RefSeq;
      hide FarBefore;
      hide FrameLasts, FrameRefs, Link, AllLeaves, Agree, Repaired;
      var g := tree.geo;
      ghost var s, rest, f := tree.Mem(), ctx, ctx[0];
      LeftLeafFacts(g, s, l, rest, tree.leaf.free, |tree.leaf.cells|, tree.internal.free, |tree.internal.cells|);
      ghost var sibL := f.left[|f.left| - 1].leaf;
      ghost var pl, pr := FrameLasts(f, Last(Leaf(l))), FrameRefs(f, l.ref);
      StackFrame(stack, rest, f);
      var (node, pos) := stack[1];
      var (child, childPos) := stack[0];
      var sib := tree.internal.cells[node].slots[pos - 1].v;
      if tree.leaf.Pivot(sib, g.half) != g.max {
        StealLeftLeaf(node, pos, child, sib, pl, pr, l.es, sibL.es);
        LeafStealLeft(g, s, tree.Mem(), l, rest, tree.leaf.free, |tree.leaf.cells|, tree.internal.free,
                      |tree.internal.cells|);
        ghost var f' := StolenLeft(f, Leaf(LeafLostLast(sibL)));
        StackFrame(stack, rest, f');
        StackLeaf(stack, [f'] + rest[1..], (child, childPos + 1));
        stack := stack[0 := (child, childPos + 1)];
        leaf, ctx := LeafTookLast(l, sibL), [f'] + rest[1..];
        tree.shape := Plug(Leaf(leaf), ctx);
        PlugAll(leaf, ctx);
      } else {
        ghost var refs := multiset(RefSeq(AllLeaves(l, rest)));
        MergeLeftLeaf(node, pos, child, sib, pl, pr, l.es, sibL.es, refs);
        LeafMergeLeft(g, s, tree.Mem(), l, rest, old(tree.leaf.free), |s.leaf|, tree.internal.free,
                      |tree.internal.cells|);
        ghost var j, f' := LeafJoined(sibL, l), MergedLeft(f);
        StackFrame(stack, rest, f');
        StackLeaf(stack[1 := (node, pos - 1)], [f'] + rest[1..], (sib, childPos + g.half));
        stack := stack[1 := (node, pos - 1)][0 := (sib, childPos + g.half)];
        leaf := j;
        Cascade(f'.Fill(Leaf(j)), rest[1..], [f'], FarBefore(rest) + [j] + LeavesAfter(rest), FarBefore(rest));
      }
    }

    /** Takes the entry at the cursor out of its leaf and updates the ancestor that knows the leaf's right-most
        pivot. */
    method Take() returns (e: Entry<V>, underflow: bool)
      requires Valid() && stack[0].1 < |leaf.es|
      modifies tree.leaf`cells, tree.internal`cells
      ensures e == leaf.es[stack[0].1]
      ensures var l := LeafNode(leaf.ref, RemovedAt(leaf.es, stack[0].1));
        && Apart(l) && (underflow <==> |l.es| < tree.geo.half)
        && WF(tree.geo, Leaf(l), 0, if ctx == [] then 0 else if underflow then tree.geo.half - 1 else tree.geo.half)
    {
      hide Accounted, InnerRefs, CtxRefs, RepCtx, WFCtx, LeafCell, FreeChain;
      hide ChainFromZero, LeavesBefore, LeavesAfter, Leaves, Plug, TreeOK, Link, RightEdge, WF, Before, After, Flat;
      var g := tree.geo;
      ghost var s, l, i := tree.Mem(), leaf, stack[0].1;
      OpenLeaf(g, s, Leaf(l), ctx);
      TakenOut(g, s, l, ctx, i);
      e, underflow := TakeEntry();
      ghost var l' := LeafNode(l.ref, RemovedAt(l.es, i));
      LeafRewritten(g, s, tree.Mem(), l, l', ctx, tree.leaf.free, |tree.leaf.cells|, tree.internal.free,
                    |tree.internal.cells|);
      LeafTail(g, tree.leaf.cells[l.ref], l'.es, i);
      var (node, pos) := stack[0];
      if tree.leaf.Pivot(node, pos) == g.max && tree.height > 0 {
        UpdateLeafMaxPivot(tree.leaf.Pivot(node, pos - 1), Last(Leaf(l)));
      } else {
        RightEdgeNil(ctx);
        EdgeLast(g, tree.Mem(), ctx, l.ref, Last(Leaf(l)), Last(Leaf(l')));
      }
    }

    /** Removes the entry at the cursor, which then stands on the next entry. */
    method Remove() returns (e: Entry<V>)
      requires Valid() && Index() < |tree.Contents()|
      modifies this, tree, tree.leaf, tree.internal
      ensures Valid() && Index() == old(Index())
      ensures e == old(tree.Contents())[Index()] && tree.Contents() == RemovedAt(old(tree.Contents()), Index())
    {
      hide Deficient, Accounted, InnerRefs, CtxRefs, Rep, WF, RepCtx, WFCtx, InnerCell, LeafCell, Last, FreeChain;
      hide ChainFromZero, LeavesBefore, LeavesAfter, Leaves, Concat, Plug, TreeOK, Link, RightEdge, Before, After;
      hide RemovedAt, RefSeq;
      var g := tree.geo;
      ghost var i := stack[0].1;
      EntryHere(g, tree.Mem(), leaf, ctx, i);
      TakenOut(g, tree.Mem(), leaf, ctx, i);
      ghost var l := LeafNode(leaf.ref, RemovedAt(leaf.es, i));
      ConcatAll(l, ctx);
      var underflow;
      e, underflow := Take();
      if underflow && tree.height > 0 {
        HandleUnderflowLeaf(l);
      } else {
        Rejoin(l);
      }
      SkipEnd();
    }

    /** Moves a cursor that stands behind a leaf to the next one. */
    method SkipEnd()
      requires OnPath()
      modifies this
      ensures Valid() && Index() == old(Index())
    {
      hide TreeOK, Plug, Leaves, LeavesBefore, Accounted, InnerRefs, FreeChain, Concat, RightEdge, LeafCell;
      OpenLeaf(tree.geo, tree.Mem(), Leaf(leaf), ctx);
      LeafTail(tree.geo, tree.leaf.cells[leaf.ref], leaf.es, stack[0].1);
      var (node, pos) := stack[0];
      if tree.leaf.Pivot(node, pos) == tree.geo.max {
        NextLeafNode();
      }
    }

    /** Repairs the current leaf, preferring its right neighbour. */
    method HandleUnderflowLeaf(ghost l: LeafNode<V>)
      requires Apart(l) && WF(tree.geo, Leaf(l), 0, tree.geo.half - 1) && |l.es| < tree.geo.half && tree.height > 0
      modifies this, tree, tree.leaf, tree.internal
      ensures OnPath() && tree.Contents() == Concat(AllLeaves(l, old(ctx)))
      ensures Index() == |Before(old(ctx))| + old(stack)[0].1
    {
      hide Deficient, Accounted, InnerRefs, CtxRefs, Rep, WF, RepCtx, WFCtx, InnerCell, LeafCell, Last, FreeChain;
      hide OnStack;
      hide ChainFromZero, LeavesBefore, LeavesAfter, Leaves, Concat, Plug, TreeOK, Before, RefSeq, RootOf;
      DeficientLeaf(tree.geo, tree.Mem(), l, ctx);
      StackFrame(stack, ctx, ctx[0]);
      var (node, pos) := stack[1];
      if tree.internal.Pivot(node, pos) != tree.geo.max {
        RepairRightLeaf(l);
      } else {
        RepairLeftLeaf(l);
      }
    }

    /** Puts a new entry in the place of the one at the cursor, which it returns. */
    method Replace(start: nat, last: nat, value: V) returns (e: Entry<V>)
      requires Valid() && Index() < |tree.Contents()| && last < tree.geo.max
      modifies this, tree, tree.leaf, tree.internal
      ensures Valid() && stack == old(stack) && Index() == old(Index())
      ensures e == old(tree.Contents())[Index()]
      ensures tree.Contents() == old(tree.Contents())[Index() := Entry(start, last, value)]
    {
      hide Deficient, Accounted, InnerRefs, CtxRefs, RepCtx, WFCtx, InnerCell, LeafCell, FreeChain;
      hide ChainFromZero, LeavesBefore, LeavesAfter, Leaves, Concat, Plug, TreeOK, Link, RightEdge, Before, After;
      hide UntouchedCtx, Once;
      var g := tree.geo;
      ghost var s, l, i := tree.Mem(), leaf, stack[0].1;
      EntryHere(g, s, l, ctx, i);
      ghost var l' := LeafNode(l.ref, l.es[i := Entry(start, last, value)]);
      ReplaceFacts(g, s, l, ctx, i, l'.es[i], tree.leaf.free, |s.leaf|, tree.internal.free, |s.inner|);
      ConcatAll(l', ctx);
      var (node, pos) := stack[0];
      if tree.leaf.Pivot(node, pos + 1) == g.max {
        UpdateLeafMaxPivot(last, Last(Leaf(l)));
      }
      ghost var s1 := tree.Mem();
      e := ReplaceEntry(node, pos, start, last, value, l.es);
      LeafRewritten(g, s, Store(tree.leaf.cells, s.inner), l, l', ctx, tree.leaf.free, |tree.leaf.cells|,
                    tree.internal.free, |tree.internal.cells|);
      RepCtxFrame(g, s1, tree.Mem(), ctx, l.ref, Last(Leaf(l')), {l.ref}, {});
      Rejoin(l');
    }

    method ReplaceEntry(node: nat, pos: nat, start: nat, last: nat, value: V, ghost es: seq<Entry<V>>)
      returns (e: Entry<V>)
      requires tree.leaf.geo == tree.geo && tree.leaf.Linked() && node < |tree.leaf.cells| && pos < |es| < tree.geo.B()
      requires LeafCell(tree.geo, tree.leaf.cells[node], es)
      modifies tree.leaf`cells
      ensures tree.leaf.Linked() && |tree.leaf.cells| == |old(tree.leaf.cells)|
      ensures Agree(old(tree.leaf.cells), tree.leaf.cells, {node})
      ensures old(tree.leaf.cells)[node].Sized(tree.geo) && tree.leaf.cells[node].Sized(tree.geo)
      ensures LeafCell(tree.geo, tree.leaf.cells[node], es[pos := Entry(start, last, value)])
      ensures Link(tree.geo, tree.leaf.cells, node) == Link(tree.geo, old(tree.leaf.cells), node)
      ensures e == es[pos]
    {
      hide FreeChain;
      LeafReplace(tree.geo, tree.leaf.cells[node], es, pos, Entry(start, last, value));
      var item, pivot := tree.leaf.cells[node].slots[pos].v, tree.leaf.Pivot(node, pos);
      tree.leaf.SetPivot(node, pos, last);
      tree.leaf.SetSlot(node, pos, Value(Item(start, value)));
      e := Entry(item.start, pivot, item.value);
    }

    /** One cursor operation, skipped at the end of the tree where the source panics. */
    method Perform(op: CursorOp<V>) returns (reply: CursorReply<V>)
      requires Valid() && ((op.Add? || op.Swap?) ==> op.e.last < tree.geo.max)
      modifies this, tree, tree.leaf, tree.internal
      ensures Valid() && CursorStep(old(tree.Contents()), old(Index()), op) == (tree.Contents(), Index(), reply)
    {
      hide TreeOK, Plug, RightEdge, Accounted, FreeChain, Before, Flat, RefSeq, Leaves, InnerRefs, OnPath, Valid;
      hide InsertedAt, RemovedAt;
      var here := Current();
      reply := Nothing;
      match op {
        case Forward => if here.Some? { Next(); }
        case Back => var moved := Prev(); reply := Moved(moved);
        case Add(e) => Insert(e.start, e.last, e.value);
        case Swap(e) => if here.Some? { var was := Replace(e.start, e.last, e.value); reply := Was(was); }
        case Take => if here.Some? { var was := Remove(); reply := Was(was); }
      }
    }

    /** Every sequence of cursor operations has the effect and the answers that it has on the sequence and an index into
        it. */
    method PerformAll(ops: seq<CursorOp<V>>) returns (replies: seq<CursorReply<V>>)
      requires Valid() && forall i | 0 <= i < |ops| :: (ops[i].Add? || ops[i].Swap?) ==> ops[i].e.last < tree.geo.max
      modifies this, tree, tree.leaf, tree.internal
      ensures Valid() && CursorRun(old(tree.Contents()), old(Index()), ops) == (tree.Contents(), Index(), replies)
    {
      hide *;
      ghost var es, at := tree.Contents(), Index();
      replies := [];
      NoCursorOps(es, at, ops);
      for i := 0 to |ops|
        invariant Valid() && CursorRun(es, at, ops[..i]) == (tree.Contents(), Index(), replies)
      {
        CursorRunMore(es, at, ops, i);
        var reply := Perform(ops[i]);
        replies := replies + [reply];
      }
      assert ops[..|ops|] == ops;
    }
  }
}
