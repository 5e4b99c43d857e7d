/**
 A position in the in-order sequence determines the whole path of a cursor, so moving forth and back
 (lib/range-tree/src/cursor.rs:142-290) restores every level of its stack.
 */
module Places {
  import opened Nodes
  import opened Shapes
  import opened Paths
  import opened Chains
  import opened Cursors

  /** The leaves in front of a path, its leaf and those behind. */
  lemma {:induction false} InFront<V>(l: LeafNode<V>, low: seq<Frame<V>>)
    ensures |LeavesBefore(low)| < |Leaves(Plug(Leaf(l), low))|
  {
    hide Plug, LeavesBefore, LeavesAfter, Leaves;
    PlugLeaves(Leaf(l), low);
    LeafFlat(l);
  }

  /** Two paths through different children of the same node pass different numbers of leaves. */
  lemma {:induction false} FartherRight<V>(f: Frame<V>, s: Tree<V>, k: Frame<V>, t: Tree<V>)
    requires f.Fill(s) == k.Fill(t) && |f.left| < |k.left|
    ensures |LeavesAll(f.left)| + |Leaves(s)| <= |LeavesAll(k.left)|
  {
    hide Leaves, LeavesAll;
    var n := |f.left|;
    var kids := f.left + [s] + f.right;
    assert kids == k.left + [t] + k.right;
    assert k.left == kids[..|k.left|];
    assert kids[..n] == f.left && kids[n] == s;
    assert k.left == f.left + [s] + k.left[n + 1..];
    LeavesAround(f.left, s, k.left[n + 1..]);
  }

  lemma {:induction false} SameFrame<V>(f: Frame<V>, s: Tree<V>, k: Frame<V>, t: Tree<V>)
    requires f.Fill(s) == k.Fill(t) && |f.left| == |k.left|
    ensures f == k && s == t
  {
    var kids := f.left + [s] + f.right;
    assert kids == k.left + [t] + k.right;
    assert f.left == kids[..|f.left|] == k.left && kids[|f.left|] == s == t;
    assert f.right == kids[|f.left| + 1..] == k.right;
  }

  /** The number of leaves in front determines the path. */
  lemma {:induction false} SameLeafSamePath<V>(a: LeafNode<V>, x: seq<Frame<V>>, b: LeafNode<V>, y: seq<Frame<V>>)
    requires |x| == |y| && Plug(Leaf(a), x) == Plug(Leaf(b), y) && |LeavesBefore(x)| == |LeavesBefore(y)|
    ensures a == b && x == y
    decreases |x|
  {
    hide Plug, LeavesBefore, Leaves, LeavesAll;
    if x == [] {
      PlugNil(Leaf(a));
      PlugNil(Leaf(b));
    } else {
      var n := |x| - 1;
      var s, t := Plug(Leaf(a), x[..n]), Plug(Leaf(b), y[..n]);
      TopFrame(a, x);
      TopFrame(b, y);
      InFront(a, x[..n]);
      InFront(b, y[..n]);
      if |x[n].left| < |y[n].left| {
        FartherRight(x[n], s, y[n], t);
        assert false;
      } else if |y[n].left| < |x[n].left| {
        FartherRight(y[n], t, x[n], s);
        assert false;
      } else {
        SameFrame(x[n], s, y[n], t);
        SameLeafSamePath(a, x[..n], b, y[..n]);
        assert x == x[..n] + [x[n]] && y == y[..n] + [y[n]];
      }
    }
  }

  lemma {:induction false} TopFrame<V>(a: LeafNode<V>, x: seq<Frame<V>>)
    requires x != []
    ensures var n := |x| - 1; Plug(Leaf(a), x) == x[n].Fill(Plug(Leaf(a), x[..n]))
    ensures var n := |x| - 1; LeavesBefore(x) == LeavesAll(x[n].left) + LeavesBefore(x[..n])
  {
    hide LeavesAll;
    var n := |x| - 1;
    assert x == x[..n] + [x[n]];
    PlugAppend(Leaf(a), x[..n], [x[n]]);
    BeforeAppend(x[..n], [x[n]]);
    OneFrame(Plug(Leaf(a), x[..n]), x[n]);
  }

  /** Equal positions are in the same leaf. */
  lemma {:induction false} SameIndexSameLeaf<V>(ls: seq<LeafNode<V>>, i: nat, p: nat, j: nat, q: nat)
    requires i < |ls| && p <= |ls[i].es| && (p == |ls[i].es| ==> i + 1 == |ls|)
    requires j < |ls| && q <= |ls[j].es| && (q == |ls[j].es| ==> j + 1 == |ls|)
    requires |Concat(ls[..i])| + p == |Concat(ls[..j])| + q
    ensures i == j && p == q
  {
    if i < j {
      LaterLeaf(ls, i, j);
    } else if j < i {
      LaterLeaf(ls, j, i);
    }
  }

  lemma {:induction false} LaterLeaf<V>(ls: seq<LeafNode<V>>, i: nat, j: nat)
    requires i < j < |ls|
    ensures |Concat(ls[..i])| + |ls[i].es| <= |Concat(ls[..j])|
  {
    hide Concat;
    var head := ls[..j];
    ConcatAt(head, i);
    assert head[..i] == ls[..i];
  }

  /** A cursor of a given tree is determined by its index, down to every level of its stack. */
  lemma {:induction false} IndexDeterminesStack<V>(l: LeafNode<V>, x: seq<Frame<V>>, a: seq<(nat, nat)>, m: LeafNode<V>,
                                                   y: seq<Frame<V>>, b: seq<(nat, nat)>)
    requires |x| == |y| && Plug(Leaf(l), x) == Plug(Leaf(m), y) && OnStack(a, 0, x) && OnStack(b, 0, y)
    requires a[0].0 == l.ref && a[0].1 <= |l.es| && (a[0].1 == |l.es| ==> RightEdge(x))
    requires b[0].0 == m.ref && b[0].1 <= |m.es| && (b[0].1 == |m.es| ==> RightEdge(y))
    requires |Before(x)| + a[0].1 == |Before(y)| + b[0].1
    ensures a == b
  {
    hide Plug, RightEdge, LeavesBefore, LeavesAfter, Concat, Leaves;
    PathToChain(l, x, a[0].1);
    PathToChain(m, y, b[0].1);
    SameIndexSameLeaf(Leaves(Plug(Leaf(l), x)), |LeavesBefore(x)|, a[0].1, |LeavesBefore(y)|, b[0].1);
    SameLeafSamePath(l, x, m, y);
  }

  /** `prev` undoes `next`. */
  method NextThenPrev<V>(c: RawCursor<V>)
    requires c.Valid() && c.Index() < |c.tree.Contents()|
    modifies c
    ensures c.Valid() && c.stack == old(c.stack)
  {
    hide TreeOK, Plug, RightEdge, Accounted, FreeChain, Before, Flat;
    c.Next();
    var moved := c.Prev();
    IndexDeterminesStack(c.leaf, c.ctx, c.stack, old(c.leaf), old(c.ctx), old(c.stack));
  }

  /** `next` undoes `prev`, as `insert` relies on (lib/range-tree/src/lib.rs:276-285). */
  method PrevThenNext<V>(c: RawCursor<V>)
    requires c.Valid() && c.Index() > 0
    modifies c
    ensures c.Valid() && c.stack == old(c.stack)
  {
    hide TreeOK, Plug, RightEdge, Accounted, FreeChain, Before, Flat;
    EntryHere(c.tree.geo, c.tree.Mem(), c.leaf, c.ctx, c.stack[0].1);
    var moved := c.Prev();
    c.Next();
    IndexDeterminesStack(c.leaf, c.ctx, c.stack, old(c.leaf), old(c.ctx), old(c.stack));
  }
}
