/**
 Trees that only ever grew at their end: splitting a full node leaves one half behind for good
 (lib/range-tree/src/cursor.rs:365-512), so everything left of the right edge is exactly half full.
 */
module Slimming {
  import opened Nodes
  import opened Shapes
  import opened Paths
  import opened Inserting

  /** All nodes are exactly half full. */
  ghost predicate Exact<V>(g: Geometry, t: Tree<V>, h: nat)
    decreases t
  {
    match t
    case Leaf(l) => h == 0 && |l.es| == g.half
    case Inner(_, kids) => h > 0 && |kids| == g.half && forall i | 0 <= i < |kids| :: Exact(g, kids[i], h - 1)
  }

  ghost predicate ExactAll<V>(g: Geometry, ts: seq<Tree<V>>, h: nat) {
    forall i | 0 <= i < |ts| :: Exact(g, ts[i], h)
  }

  /** All nodes but those on the right edge are. */
  ghost predicate Slim<V>(g: Geometry, t: Tree<V>, h: nat)
    decreases t
  {
    match t
    case Leaf(_) => h == 0
    case Inner(_, kids) =>
      h > 0 && kids != [] && ExactAll(g, kids[..|kids| - 1], h - 1) && Slim(g, kids[|kids| - 1], h - 1)
  }

  /** The path is the right edge, and what is left of it is exactly half full. */
  ghost predicate SlimPath<V>(g: Geometry, ctx: seq<Frame<V>>, h: nat) {
    forall k | 0 <= k < |ctx| :: ctx[k].right == [] && ExactAll(g, ctx[k].left, h + k)
  }

  lemma {:induction false} SlimFill<V>(g: Geometry, f: Frame<V>, t: Tree<V>, h: nat)
    requires f.right == []
    ensures Slim(g, f.Fill(t), h + 1) <==> ExactAll(g, f.left, h) && Slim(g, t, h)
  {
    hide Exact;
    var kids := f.left + [t] + f.right;
    assert kids[..|kids| - 1] == f.left && kids[|kids| - 1] == t;
  }

  lemma {:induction false} SlimPlug<V>(g: Geometry, t: Tree<V>, ctx: seq<Frame<V>>, h: nat)
    requires RightEdge(ctx)
    ensures Slim(g, Plug(t, ctx), h + |ctx|) <==> Slim(g, t, h) && SlimPath(g, ctx, h)
    decreases |ctx|
  {
    hide Slim, ExactAll;
    if ctx != [] {
      var f, up := ctx[0], ctx[1..];
      assert f.right == [] && RightEdge(up);
      SlimPlug(g, f.Fill(t), up, h + 1);
      SlimFill(g, f, t, h);
      SlimPathCons(g, ctx, h);
    }
  }

  lemma {:induction false} SlimPathCons<V>(g: Geometry, ctx: seq<Frame<V>>, h: nat)
    requires ctx != []
    ensures SlimPath(g, ctx, h) <==> ctx[0].right == [] && ExactAll(g, ctx[0].left, h) && SlimPath(g, ctx[1..], h + 1)
  {
    hide ExactAll;
    var up := ctx[1..];
    if SlimPath(g, up, h + 1) && ctx[0].right == [] && ExactAll(g, ctx[0].left, h) {
      forall k | 0 <= k < |ctx| ensures ctx[k].right == [] && ExactAll(g, ctx[k].left, h + k) {
        assert k > 0 ==> ctx[k] == up[k - 1] && ExactAll(g, up[k - 1].left, h + 1 + (k - 1));
      }
    }
    if SlimPath(g, ctx, h) {
      forall k | 0 <= k < |up| ensures up[k].right == [] && ExactAll(g, up[k].left, h + 1 + k) {
        assert up[k] == ctx[k + 1] && ExactAll(g, ctx[k + 1].left, h + (k + 1));
      }
    }
  }

  /** A child of `rest` on the right edge was split into `l`, which stays behind, and `r`. */
  ghost predicate Lean<V>(g: Geometry, rest: seq<Frame<V>>, l: Tree<V>, r: Tree<V>, h: nat) {
    SlimPath(g, rest, h) && Exact(g, l, h) && Slim(g, r, h)
  }

  lemma {:induction false} LeanWider<V>(g: Geometry, rest: seq<Frame<V>>, l: Tree<V>, r: Tree<V>, h: nat)
    requires Lean(g, rest, l, r, h) && rest != []
    ensures var kids := Wider(rest[0], l, r); var n := |kids| - 1;
      kids[n] == r && ExactAll(g, kids[..n], h) && SlimPath(g, rest[1..], h + 1)
  {
    hide Exact, Slim, SlimPath;
    SlimPathCons(g, rest, h);
    var kids := Wider(rest[0], l, r);
    assert kids[..|kids| - 1] == rest[0].left + [l];
  }

  /** The parent was full and is split in turn. */
  lemma {:induction false} LeanUp<V>(g: Geometry, rest: seq<Frame<V>>, l: Tree<V>, r: Tree<V>, h: nat, a: nat, b: nat)
    requires rest != [] && |Wider(rest[0], l, r)| == g.B()
    ensures var kids := Wider(rest[0], l, r);
      Lean(g, rest, l, r, h) ==> Lean(g, rest[1..], Inner(a, kids[..g.half]), Inner(b, kids[g.half..]), h + 1)
  {
    hide SlimPath;
    if Lean(g, rest, l, r, h) {
      LeanWider(g, rest, l, r, h);
      var kids, n := Wider(rest[0], l, r), |Wider(rest[0], l, r)| - 1;
      var right := kids[g.half..];
      assert forall i | 0 <= i < n :: kids[..n][i] == kids[i];
      assert right[..|right| - 1] == kids[..n][g.half..] && right[|right| - 1] == r;
    }
  }

  /** The parent had room for the new node. */
  lemma {:induction false} LeanSettles<V>(g: Geometry, rest: seq<Frame<V>>, l: Tree<V>, r: Tree<V>, h: nat, id: nat)
    requires rest != []
    ensures Lean(g, rest, l, r, h) ==> Slim(g, Plug(Inner(id, Wider(rest[0], l, r)), rest[1..]), h + |rest|)
  {
    hide Exact, SlimPath, Plug;
    if Lean(g, rest, l, r, h) {
      LeanWider(g, rest, l, r, h);
      assert RightEdge(rest[1..]) by { SlimEdge(g, rest[1..], h + 1); }
      SlimPlug(g, Inner(id, Wider(rest[0], l, r)), rest[1..], h + 1);
    }
  }

  lemma {:induction false} SlimEdge<V>(g: Geometry, ctx: seq<Frame<V>>, h: nat)
    requires SlimPath(g, ctx, h)
    ensures RightEdge(ctx)
  {
  }

  /** A new root over both. */
  lemma {:induction false} LeanGrows<V>(g: Geometry, l: Tree<V>, r: Tree<V>, h: nat, id: nat)
    ensures Lean(g, [], l, r, h) ==> Slim(g, Inner(id, [l, r]), h + 1)
  {
    assert [l, r][..1] == [l];
  }

  /** Behind the last entry a full leaf is split. */
  lemma {:induction false} LeanLeaf<V>(g: Geometry, leaf: LeafNode<V>, ctx: seq<Frame<V>>, x: LeafNode<V>,
                                       y: LeafNode<V>)
    requires |x.es| == g.half
    ensures RightEdge(ctx) && Slim(g, Plug(Leaf(leaf), ctx), |ctx|) ==> Lean(g, ctx, Leaf(x), Leaf(y), 0)
  {
    hide Plug, RightEdge;
    if RightEdge(ctx) {
      SlimPlug(g, Leaf(leaf), ctx, 0);
    }
  }

  /** Behind the last entry a leaf had room. */
  lemma {:induction false} SlimLeaf<V>(g: Geometry, leaf: LeafNode<V>, ctx: seq<Frame<V>>, l: LeafNode<V>)
    ensures RightEdge(ctx) && Slim(g, Plug(Leaf(leaf), ctx), |ctx|) ==> Slim(g, Plug(Leaf(l), ctx), |ctx|)
  {
    hide Plug, RightEdge;
    if RightEdge(ctx) {
      SlimPlug(g, Leaf(leaf), ctx, 0);
      SlimPlug(g, Leaf(l), ctx, 0);
    }
  }
}
