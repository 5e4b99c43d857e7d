/**
 Walking a represented tree (lib/range-tree/src/cursor.rs:67-290): what the pools show
 at each node of a path, and how a path changes on the way up, down and sideways.
 */
module Paths {
  import opened Options
  import opened Nodes
  import opened Shapes
  import opened Searching

  // ---- Paths ----

  /** The node and position that a cursor stack records for a frame. */
  function Spot<V>(f: Frame<V>): (nat, nat) { (f.ref, |f.left|) }

  /** Above level `h` the stack records `ctx`. */
  ghost predicate OnStack<V>(stack: seq<(nat, nat)>, h: nat, ctx: seq<Frame<V>>) {
    |stack| == h + 1 + |ctx| && forall i | h < i < |stack| :: stack[i] == Spot(ctx[i - h - 1])
  }

  /** Nothing lies to the right of the path. */
  ghost predicate RightEdge<V>(ctx: seq<Frame<V>>) {
    forall k | 0 <= k < |ctx| :: ctx[k].right == []
  }

  /** A tree taken apart along a path keeps every guarantee on both parts. */
  lemma {:induction false} Open<V>(g: Geometry, s: Store<V>, t: Tree<V>, ctx: seq<Frame<V>>, h: nat)
    requires TreeOK(g, s, Plug(t, ctx), h + |ctx|)
    ensures Rep(g, s, t) && RepCtx(g, s, ctx, t.Ref(), Last(t))
    ensures WF(g, t, h, if ctx == [] then RootMin(h) else g.half) && WFCtx(g, ctx, h)
  {
    PlugRep(g, s, t, ctx);
    PlugWF(g, t, ctx, h);
  }

  /** The converse: parts that keep their guarantees plug together to a good tree. */
  lemma {:induction false} Close<V>(g: Geometry, s: Store<V>, t: Tree<V>, ctx: seq<Frame<V>>, h: nat)
    requires Rep(g, s, t) && RepCtx(g, s, ctx, t.Ref(), Last(t))
    requires WF(g, t, h, if ctx == [] then RootMin(h) else g.half) && WFCtx(g, ctx, h)
    requires ChainFromZero(g, s.leaf, RefSeq(LeavesBefore(ctx) + Leaves(t) + LeavesAfter(ctx)))
    ensures TreeOK(g, s, Plug(t, ctx), h + |ctx|)
  {
    hide Rep, RepCtx, WF, WFCtx, LeavesBefore, LeavesAfter, Chain;
    PlugRep(g, s, t, ctx);
    PlugWF(g, t, ctx, h);
    PlugLeaves(t, ctx);
  }

  lemma {:induction false} OpenChain<V>(g: Geometry, s: Store<V>, t: Tree<V>, ctx: seq<Frame<V>>, h: nat)
    requires TreeOK(g, s, Plug(t, ctx), h + |ctx|)
    ensures ChainFromZero(g, s.leaf, RefSeq(LeavesBefore(ctx) + Leaves(t) + LeavesAfter(ctx)))
  {
    hide Rep, WF, LeavesBefore, LeavesAfter, Chain;
    PlugLeaves(t, ctx);
  }

  function FrameAt<V>(t: Tree<V>, pos: nat): Frame<V>
    requires t.Inner? && pos < |t.kids|
  {
    Frame(t.id, t.kids[..pos], t.kids[pos + 1..])
  }

  lemma {:induction false} Down<V>(t: Tree<V>, ctx: seq<Frame<V>>, pos: nat)
    requires t.Inner? && pos < |t.kids|
    ensures Plug(t.kids[pos], [FrameAt(t, pos)] + ctx) == Plug(t, ctx)
  {
    assert t.kids[..pos] + [t.kids[pos]] + t.kids[pos + 1..] == t.kids;
    assert FrameAt(t, pos).Fill(t.kids[pos]) == t;
    assert ([FrameAt(t, pos)] + ctx)[1..] == ctx;
  }

  lemma {:induction false} LastIsFinal<V>(g: Geometry, t: Tree<V>, h: nat, min: nat)
    requires WF(g, t, h, min) && 0 < min
    ensures Flat(t) != [] && Flat(t)[|Flat(t)| - 1].last == Last(t) < g.max
    decreases t
  {
    match t
    case Leaf(l) =>
      assert Leaves(t) == [l];
      assert Concat([l]) == l.es + Concat<V>([]) == l.es;
    case Inner(_, kids) =>
      var n := |kids| - 1;
      LastIsFinal(g, kids[n], h - 1, g.half);
      assert kids == kids[..n] + [kids[n]] + [];
      LeavesAround(kids[..n], kids[n], []);
      assert Leaves(t) == LeavesAll(kids[..n]) + Leaves(kids[n]);
      ConcatAppend(LeavesAll(kids[..n]), Leaves(kids[n]));
  }

  // ---- Seeking ----

  ghost predicate Sorted<V>(es: seq<Entry<V>>) {
    forall i, j | 0 <= i < j < |es| :: es[i].last <= es[j].last
  }

  ghost predicate Below<V>(es: seq<Entry<V>>, key: nat) {
    forall i | 0 <= i < |es| :: es[i].last < key
  }

  /** `i` is the index of the first entry whose `last` reaches `key`, or the end. */
  ghost predicate IsLowerBound<V>(es: seq<Entry<V>>, i: nat, key: nat) {
    i <= |es| && Below(es[..i], key) && (i < |es| ==> key <= es[i].last)
  }

  function Before<V>(ctx: seq<Frame<V>>): seq<Entry<V>> {
    Concat(LeavesBefore(ctx))
  }

  function After<V>(ctx: seq<Frame<V>>): seq<Entry<V>> {
    Concat(LeavesAfter(ctx))
  }

  lemma {:induction false} PlugFlat<V>(t: Tree<V>, ctx: seq<Frame<V>>)
    ensures Flat(Plug(t, ctx)) == Before(ctx) + Flat(t) + After(ctx)
  {
    PlugLeaves(t, ctx);
    ConcatAppend(LeavesBefore(ctx) + Leaves(t), LeavesAfter(ctx));
    ConcatAppend(LeavesBefore(ctx), Leaves(t));
  }

  lemma {:induction false} BeforeCons<V>(f: Frame<V>, ctx: seq<Frame<V>>)
    ensures Before([f] + ctx) == Before(ctx) + FlatAll(f.left)
  {
    assert ([f] + ctx)[1..] == ctx;
    ConcatAppend(LeavesBefore(ctx), LeavesAll(f.left));
  }

  lemma {:induction false} FinalOfAll<V>(g: Geometry, ts: seq<Tree<V>>, h: nat)
    requires WFAll(g, ts, h) && ts != []
    ensures FlatAll(ts) != [] && FlatAll(ts)[|FlatAll(ts)| - 1].last == Last(ts[|ts| - 1])
  {
    var n := |ts| - 1;
    LastIsFinal(g, ts[n], h, g.half);
    assert ts == ts[..n] + [ts[n]] + [];
    LeavesAround(ts[..n], ts[n], []);
    assert LeavesAll(ts) == LeavesAll(ts[..n]) + Leaves(ts[n]);
    ConcatAppend(LeavesAll(ts[..n]), Leaves(ts[n]));
  }

  /** Descending to the first child whose separator reaches `key` passes only smaller entries. */
  lemma {:induction false} SeekStep<V>(g: Geometry, t: Tree<V>, ctx: seq<Frame<V>>, h: nat, min: nat, key: nat,
                                       pos: nat)
    requires t.Inner? && pos < |t.kids| && WF(g, t, h, min)
    requires pos > 0 ==> Last(t.kids[pos - 1]) < key
    requires Sorted(Flat(Plug(t, ctx))) && Below(Before(ctx), key)
    ensures Below(Before([FrameAt(t, pos)] + ctx), key)
  {
    hide Plug, Leaves, LeavesAll, LeavesBefore, LeavesAfter, Concat, Sorted;
    var f := FrameAt(t, pos);
    BeforeCons(f, ctx);
    if pos > 0 {
      FinalOfAll(g, f.left, h - 1);
      Down(t, ctx, pos);
      PlugFlat(t.kids[pos], [f] + ctx);
      var b, all := Before([f] + ctx), Flat(Plug(t, ctx));
      SortedPrefix(all, b, key);
    } else {
      assert FlatAll(f.left) == [] by { NothingFlat<V>(); }
    }
  }

  lemma {:induction false} NothingFlat<V>()
    ensures FlatAll<V>([]) == []
  {
  }

  lemma {:induction false} SortedPrefix<V>(all: seq<Entry<V>>, b: seq<Entry<V>>, key: nat)
    requires Sorted(all) && b <= all && b != [] && b[|b| - 1].last < key
    ensures Below(b, key)
  {
    assert forall i | 0 <= i < |b| :: b[i] == all[i];
  }

  lemma {:induction false} PlugNil<V>(t: Tree<V>)
    ensures Plug(t, []) == t && Before<V>([]) == []
  {
  }

  /** At a node of the tree, the first separator not below `key` names a child. */
  lemma {:induction false} PickChild<V>(g: Geometry, s: Store<V>, t: Tree<V>, ctx: seq<Frame<V>>, h: nat, key: nat)
    requires TreeOK(g, s, Plug(t, ctx), h + |ctx|) && h > 0 && key <= g.max
    ensures t.Inner? && t.id < |s.inner| && s.inner[t.id].Sized(g)
    ensures s.inner[t.id].pivots[g.B() - 1] == g.max
    ensures WF(g, t, h, 2)
    ensures var pos := FirstGe(s.inner[t.id].pivots, key);
      && pos < |t.kids| && s.inner[t.id].slots[pos] == Value(t.kids[pos].Ref())
      && (pos > 0 ==> Last(t.kids[pos - 1]) < key)
      && (if pos + 1 < |t.kids| then key <= Last(t.kids[pos]) else Last(t.kids[pos]) == Last(t))
  {
    Open(g, s, t, ctx, h);
    var pivots := s.inner[t.id].pivots;
    assert pivots[|t.kids| - 1] == g.max;
  }

  lemma {:induction false} LeafFlat<V>(l: LeafNode<V>)
    ensures Leaves(Leaf(l)) == [l] && Flat(Leaf(l)) == l.es
  {
    assert Concat([l]) == l.es + Concat<V>([]);
  }

  lemma {:induction false} OpenLeaf<V>(g: Geometry, s: Store<V>, t: Tree<V>, ctx: seq<Frame<V>>)
    requires TreeOK(g, s, Plug(t, ctx), |ctx|)
    ensures t.Leaf? && t.leaf.ref < |s.leaf| && LeafCell(g, s.leaf[t.leaf.ref], t.leaf.es)
    ensures s.leaf[t.leaf.ref].Sized(g)
    ensures |t.leaf.es| < g.B() && (forall i | 0 <= i < |t.leaf.es| :: t.leaf.es[i].last < g.max)
    ensures ctx != [] ==> g.half <= |t.leaf.es|
    ensures Last(t) == if t.leaf.es == [] then 0 else t.leaf.es[|t.leaf.es| - 1].last
  {
    Open(g, s, t, ctx, 0);
  }

  lemma {:induction false} SeekLeaf<V>(g: Geometry, s: Store<V>, t: Tree<V>, ctx: seq<Frame<V>>, key: nat)
    requires TreeOK(g, s, Plug(t, ctx), |ctx|) && key <= g.max
    requires Sorted(Flat(Plug(t, ctx))) && Below(Before(ctx), key)
    requires RightEdge(ctx) || key <= Last(t)
    ensures t.Leaf? && t.leaf.ref < |s.leaf| && s.leaf[t.leaf.ref].Sized(g)
    ensures s.leaf[t.leaf.ref].pivots[g.B() - 1] == g.max
    ensures var pos := FirstGe(s.leaf[t.leaf.ref].pivots, key);
      && pos <= |t.leaf.es| && (pos == |t.leaf.es| ==> RightEdge(ctx))
      && IsLowerBound(Flat(Plug(t, ctx)), |Before(ctx)| + pos, key)
  {
    hide TreeOK, LeafCell, Concat, LeavesBefore, LeavesAfter, Plug;
    OpenLeaf(g, s, t, ctx);
    var l := t.leaf;
    PickEntry(g, s.leaf[l.ref], l.es, key);
    LeafFlat(l);
    PlugFlat(t, ctx);
    if RightEdge(ctx) {
      EndIsLast(ctx);
    }
    LowerBoundHere(Before(ctx), l.es, After(ctx), FirstGe(s.leaf[l.ref].pivots, key), key);
  }

  lemma {:induction false} PickEntry<V>(g: Geometry, c: Cell<Item<V>>, es: seq<Entry<V>>, key: nat)
    requires LeafCell(g, c, es) && |es| < g.B() && key <= g.max
    ensures c.pivots[g.B() - 1] == g.max
    ensures var pos := FirstGe(c.pivots, key);
      && pos <= |es| && Below(es[..pos], key)
      && (if pos < |es| then key <= es[pos].last else es == [] || es[|es| - 1].last < key)
  {
    assert c.pivots[|es|] == g.max;
    var pos := FirstGe(c.pivots, key);
    assert forall i | 0 <= i < pos :: c.pivots[i] < key;
    if pos == |es| && es != [] {
      assert c.pivots[|es| - 1] < key;
    }
  }

  lemma {:induction false} LowerBoundHere<V>(before: seq<Entry<V>>, es: seq<Entry<V>>, after: seq<Entry<V>>, pos: nat,
                                             key: nat)
    requires Below(before, key) && pos <= |es| && Below(es[..pos], key)
    requires if pos < |es| then key <= es[pos].last else after == []
    ensures IsLowerBound(before + es + after, |before| + pos, key)
  {
    assert (before + es + after)[..|before| + pos] == before + es[..pos];
  }

  // ---- Moving along and between paths ----

  /** What the pools show of an internal node on the way down. */
  lemma {:induction false} OpenInner<V>(g: Geometry, s: Store<V>, t: Tree<V>, ctx: seq<Frame<V>>, h: nat)
    requires TreeOK(g, s, Plug(t, ctx), h + |ctx|) && h > 0
    ensures t.Inner? && t.id < |s.inner| && s.inner[t.id].Sized(g) && 2 <= |t.kids| < g.B()
    ensures s.inner[t.id].pivots[g.B() - 1] == g.max
    ensures s.inner[t.id].slots[0] == Value(t.kids[0].Ref())
    ensures var n := |t.kids| - 1;
      FirstGe(s.inner[t.id].pivots, g.max) == n && s.inner[t.id].slots[n] == Value(t.kids[n].Ref())
  {
    Open(g, s, t, ctx, h);
    var pivots, n := s.inner[t.id].pivots, |t.kids| - 1;
    assert pivots[n] == g.max;
    forall i | 0 <= i < n ensures pivots[i] < g.max {
      LastIsFinal(g, t.kids[i], h - 1, g.half);
    }
  }

  /** What the pools show of the parent on the way up: a `max` separator marks the last child. */
  lemma {:induction false} OpenParent<V>(g: Geometry, s: Store<V>, t: Tree<V>, ctx: seq<Frame<V>>, h: nat)
    requires TreeOK(g, s, Plug(t, ctx), h + |ctx|) && ctx != []
    ensures ctx[0].ref < |s.inner| && s.inner[ctx[0].ref].Sized(g) && 2 <= ctx[0].Size() < g.B()
    ensures var f, c := ctx[0], s.inner[ctx[0].ref];
      && c.slots[|f.left|] == Value(t.Ref())
      && (c.pivots[|f.left|] != g.max <==> f.right != [])
      && (f.right != [] ==> c.slots[|f.left| + 1] == Value(f.right[0].Ref()))
      && (f.left != [] ==> c.slots[|f.left| - 1] == Value(f.left[|f.left| - 1].Ref()))
  {
    hide WF, RepAll, TreeOK, Plug, Last;
    Open(g, s, t, ctx, h);
    LastIsFinal(g, t, h, g.half);
    Neighbours(g, s.inner[ctx[0].ref], ctx[0], t.Ref(), Last(t));
  }

  lemma {:induction false} Neighbours<V>(g: Geometry, c: Cell<nat>, f: Frame<V>, ref: nat, last: nat)
    requires InnerCell(g, c, Lasts(f.left) + [last] + Lasts(f.right), Refs(f.left) + [ref] + Refs(f.right))
    requires last < g.max
    ensures c.slots[|f.left|] == Value(ref)
    ensures c.pivots[|f.left|] != g.max <==> f.right != []
    ensures f.right != [] ==> c.slots[|f.left| + 1] == Value(f.right[0].Ref())
    ensures f.left != [] ==> c.slots[|f.left| - 1] == Value(f.left[|f.left| - 1].Ref())
  {
    var lasts, refs := Lasts(f.left) + [last] + Lasts(f.right), Refs(f.left) + [ref] + Refs(f.right);
    assert lasts[|f.left|] == last && refs[|f.left|] == ref;
    assert f.right != [] ==> refs[|f.left| + 1] == f.right[0].Ref();
    assert f.left != [] ==> refs[|f.left| - 1] == f.left[|f.left| - 1].Ref();
  }

  lemma {:induction false} Up<V>(t: Tree<V>, ctx: seq<Frame<V>>)
    requires ctx != []
    ensures Plug(ctx[0].Fill(t), ctx[1..]) == Plug(t, ctx)
    ensures ctx[0].right == [] ==> LeavesBefore(ctx[1..]) + Leaves(ctx[0].Fill(t)) == LeavesBefore(ctx) + Leaves(t)
    ensures ctx[0].left == [] ==> LeavesBefore(ctx[1..]) == LeavesBefore(ctx)
    ensures RightEdge(ctx) <==> ctx[0].right == [] && RightEdge(ctx[1..])
  {
    FillLeaves(ctx[0], t);
    assert RightEdge(ctx) ==> ctx[0].right == [] && RightEdge(ctx[1..]);
    assert ctx[0].right == [] && RightEdge(ctx[1..]) ==> RightEdge(ctx) by {
      assert forall k | 1 <= k < |ctx| :: ctx[k] == ctx[1..][k - 1];
    }
  }

  function StepRight<V>(f: Frame<V>, t: Tree<V>): Frame<V>
    requires f.right != []
  {
    Frame(f.ref, f.left + [t], f.right[1..])
  }

  function StepLeft<V>(f: Frame<V>, t: Tree<V>): Frame<V>
    requires f.left != []
  {
    Frame(f.ref, f.left[..|f.left| - 1], [t] + f.right)
  }

  lemma {:induction false} MoveRight<V>(t: Tree<V>, ctx: seq<Frame<V>>)
    requires ctx != [] && ctx[0].right != []
    ensures var ctx' := [StepRight(ctx[0], t)] + ctx[1..];
      && Plug(ctx[0].right[0], ctx') == Plug(t, ctx)
      && LeavesBefore(ctx') == LeavesBefore(ctx) + Leaves(t)
  {
    var f, f' := ctx[0], StepRight(ctx[0], t);
    var ctx' := [f'] + ctx[1..];
    assert f'.left + [f.right[0]] + f'.right == f.left + [t] + f.right;
    assert ctx'[1..] == ctx[1..];
    LeavesAllAppend(f.left, [t]);
    assert LeavesAll([t]) == Leaves(t) + LeavesAll<V>([]) == Leaves(t);
    Assoc(LeavesBefore(ctx[1..]), LeavesAll(f.left), Leaves(t));
  }

  lemma {:induction false} MoveLeft<V>(t: Tree<V>, ctx: seq<Frame<V>>)
    requires ctx != [] && ctx[0].left != []
    ensures var ctx', u := [StepLeft(ctx[0], t)] + ctx[1..], ctx[0].left[|ctx[0].left| - 1];
      && Plug(u, ctx') == Plug(t, ctx)
      && LeavesBefore(ctx') + Leaves(u) == LeavesBefore(ctx)
  {
    var f, f', u := ctx[0], StepLeft(ctx[0], t), ctx[0].left[|ctx[0].left| - 1];
    var ctx' := [f'] + ctx[1..];
    assert f.left == f'.left + [u];
    assert f'.left + [u] + f'.right == f.left + [t] + f.right;
    assert ctx'[1..] == ctx[1..];
    LeavesAllAppend(f'.left, [u]);
    assert LeavesAll([u]) == Leaves(u) + LeavesAll<V>([]) == Leaves(u);
    Assoc(LeavesBefore(ctx[1..]), LeavesAll(f'.left), Leaves(u));
  }

  lemma {:induction false} DownFirst<V>(t: Tree<V>, ctx: seq<Frame<V>>)
    requires t.Inner? && t.kids != []
    ensures Plug(t.kids[0], [FrameAt(t, 0)] + ctx) == Plug(t, ctx)
    ensures LeavesBefore([FrameAt(t, 0)] + ctx) == LeavesBefore(ctx)
  {
    Down(t, ctx, 0);
    assert ([FrameAt(t, 0)] + ctx)[1..] == ctx;
  }

  lemma {:induction false} DownLast<V>(t: Tree<V>, ctx: seq<Frame<V>>)
    requires t.Inner? && t.kids != []
    ensures var n := |t.kids| - 1; var ctx' := [FrameAt(t, n)] + ctx;
      && Plug(t.kids[n], ctx') == Plug(t, ctx)
      && LeavesBefore(ctx') + Leaves(t.kids[n]) == LeavesBefore(ctx) + Leaves(t)
  {
    var n := |t.kids| - 1;
    Down(t, ctx, n);
    assert ([FrameAt(t, n)] + ctx)[1..] == ctx;
    assert t.kids == t.kids[..n] + [t.kids[n]] + [];
    LeavesAround(t.kids[..n], t.kids[n], []);
    Assoc(LeavesBefore(ctx), LeavesAll(t.kids[..n]), Leaves(t.kids[n]));
  }

  lemma {:induction false} BeforeLeaf<V>(ls: seq<LeafNode<V>>, l: LeafNode<V>)
    ensures Concat(ls + [l]) == Concat(ls) + l.es
  {
    ConcatAppend(ls, [l]);
    LeafFlat(l);
  }

  /** The entry at a path position is the one at its in-order index. */
  lemma {:induction false} EntryHere<V>(g: Geometry, s: Store<V>, l: LeafNode<V>, ctx: seq<Frame<V>>, pos: nat)
    requires TreeOK(g, s, Plug(Leaf(l), ctx), |ctx|) && pos <= |l.es| && (pos == |l.es| ==> RightEdge(ctx))
    ensures l.ref < |s.leaf| && s.leaf[l.ref].Sized(g) && |l.es| < g.B()
    ensures var all, i, c := Flat(Plug(Leaf(l), ctx)), |Before(ctx)| + pos, s.leaf[l.ref];
      && i <= |all| && (i < |all| <==> pos < |l.es|) && (i < |all| <==> c.pivots[pos] != g.max)
      && (i < |all| ==>
         c.slots[pos].Value? && all[i] == Entry(c.slots[pos].v.start, c.pivots[pos], c.slots[pos].v.value))
  {
    OpenLeaf(g, s, Leaf(l), ctx);
    PlugFlat(Leaf(l), ctx);
    LeafFlat(l);
    if pos == |l.es| {
      EndIsLast(ctx);
    }
  }

  /** `leaf_end`: the first absent pivot of a leaf counts its entries. */
  lemma {:induction false} EndOfLeaf<V>(g: Geometry, c: Cell<Item<V>>, es: seq<Entry<V>>)
    requires LeafCell(g, c, es) && |es| < g.B() && forall i | 0 <= i < |es| :: es[i].last < g.max
    ensures c.pivots[g.B() - 1] == g.max && FirstGe(c.pivots, g.max) == |es|
  {
    assert c.pivots[|es|] == g.max;
    assert forall i | 0 <= i < |es| :: c.pivots[i] == es[i].last;
  }

  lemma {:induction false} RightEdgeNil<V>(ctx: seq<Frame<V>>)
    ensures ctx == [] ==> RightEdge(ctx)
  {
  }

  lemma {:induction false} EndIsLast<V>(ctx: seq<Frame<V>>)
    requires RightEdge(ctx)
    ensures LeavesAfter(ctx) == [] && After(ctx) == []
  {
    if ctx != [] {
      EndIsLast(ctx[1..]);
      assert ctx[0].right == [];
    }
  }

  /** The last index is behind the last leaf. */
  lemma {:induction false} AtTheEnd<V>(g: Geometry, s: Store<V>, l: LeafNode<V>, ctx: seq<Frame<V>>, pos: nat)
    requires TreeOK(g, s, Plug(Leaf(l), ctx), |ctx|) && pos <= |l.es| && (pos == |l.es| ==> RightEdge(ctx))
    ensures |Before(ctx)| + pos == |Flat(Plug(Leaf(l), ctx))| ==> RightEdge(ctx)
  {
    hide TreeOK, Plug, Concat, LeavesBefore, Leaves, RightEdge;
    EntryHere(g, s, l, ctx, pos);
  }

  lemma {:induction false} NoPath<V>(t: Tree<V>)
    ensures Plug(t, []) == t
  {
  }

  lemma {:induction false} EmptyTree<V>(g: Geometry, s: Store<V>)
    requires |s.leaf| == 1 && LeafCell(g, s.leaf[0], []) && Link(g, s.leaf, 0) == NextLeaf(None)
    ensures var t: Tree<V> := Leaf(LeafNode(0, []));
      && TreeOK(g, s, t, 0) && Flat<V>(t) == []
      && Accounted(multiset(RefSeq(Leaves<V>(t))), [], 1)
      && Accounted(InnerRefs<V>(t), [], 0)
  {
    hide Link, Accounted;
    var t: Tree<V> := Leaf(LeafNode(0, []));
    assert RefSeq(Leaves(t)) == [0];
    assert Flat(t) == [] + Concat<V>([]);
    OneRef();
  }

  lemma {:induction false} OneRef()
    ensures Accounted(multiset([0]), [], 1) && Accounted(multiset{}, [], 0)
  {
    var one: multiset<nat> := multiset([0]);
    assert one == multiset{0};
  }
}
