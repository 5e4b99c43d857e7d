/**
 Inserting below the limit, splitting full nodes upwards and growing a new root
 (lib/range-tree/src/cursor.rs:365-512), as facts about represented trees.
 */
module Inserting {
  import opened Options
  import opened Nodes
  import opened Shapes
  import opened Cells
  import opened Paths

  /**
   The child of `rest` at height `h` has been split into `l`, which keeps its place in
   the pools, and the new node `r`, which its parent does not list yet.
   */
  ghost predicate Splitting<V>(g: Geometry, s: Store<V>, rest: seq<Frame<V>>, l: Tree<V>, r: Tree<V>, h: nat) {
    && WF(g, l, h, g.half) && WF(g, r, h, g.half) && WFCtx(g, rest, h)
    && Rep(g, s, l) && Rep(g, s, r) && RepCtx(g, s, rest, l.Ref(), Last(r))
  }

  /** The node `ref` below `up` lists the children `kids`, one of which may be one too many. */
  ghost predicate Widened<V>(g: Geometry, s: Store<V>, up: seq<Frame<V>>, ref: nat, kids: seq<Tree<V>>, h: nat) {
    && ref < |s.inner| && 2 <= |kids| <= g.B() && (up == [] || g.half <= |kids|)
    && InnerCell(g, s.inner[ref], Lasts(kids), Refs(kids))
    && RepAll(g, s, kids) && WFAll(g, kids, h)
    && RepCtx(g, s, up, ref, Last(kids[|kids| - 1])) && WFCtx(g, up, h + 1)
  }

  /** The children of `f` once its focused child has become `l` and `r`. */
  function Wider<V>(f: Frame<V>, l: Tree<V>, r: Tree<V>): seq<Tree<V>> {
    f.left + [l, r] + f.right
  }

  lemma {:induction false} WiderPivots<V>(f: Frame<V>, l: Tree<V>, r: Tree<V>)
    ensures Lasts(Wider(f, l, r)) == InsertedAt(Lasts(f.left) + [Last(r)] + Lasts(f.right), |f.left|, Last(l))
    ensures Refs(Wider(f, l, r)) == InsertedAt(Refs(f.left) + [l.Ref()] + Refs(f.right), |f.left| + 1, r.Ref())
  {
  }

  lemma {:induction false} WiderRefs<V>(f: Frame<V>, l: Tree<V>, r: Tree<V>)
    ensures InnerRefsAll(Wider(f, l, r)) == InnerRefsAll(f.left) + InnerRefs(l) + InnerRefs(r) + InnerRefsAll(f.right)
  {
    assert Wider(f, l, r) == (f.left + [l]) + [r] + f.right;
    InnerRefsAround(f.left + [l], r, f.right);
    assert f.left + [l] == f.left + [l] + [];
    InnerRefsAround(f.left, l, []);
  }

  lemma {:induction false} WiderLeaves<V>(f: Frame<V>, l: Tree<V>, r: Tree<V>)
    ensures LeavesAll(Wider(f, l, r)) == LeavesAll(f.left) + Leaves(l) + Leaves(r) + LeavesAll(f.right)
  {
    assert Wider(f, l, r) == (f.left + [l]) + [r] + f.right;
    LeavesAround(f.left + [l], r, f.right);
    assert f.left + [l] == f.left + [l] + [];
    LeavesAround(f.left, l, []);
  }

  /** Whether one more child fills the node completely shows in its pivot `B - 3`. */
  lemma {:induction false} OverflowTest<V>(g: Geometry, s: Store<V>, f: Frame<V>, ref: nat, last: nat, h: nat)
    requires RepFrameNode(g, s, f, ref, last) && WFFrame(g, f, h, 2) && last < g.max
    ensures s.inner[f.ref].pivots[g.B() - 3] != g.max <==> f.Size() == g.B() - 1
  {
    var lasts := Lasts(f.left) + [last] + Lasts(f.right);
    forall i | 0 <= i < |lasts| ensures lasts[i] < g.max {
      if i < |f.left| {
        LastIsFinal(g, f.left[i], h, g.half);
      } else if i > |f.left| {
        LastIsFinal(g, f.right[i - |f.left| - 1], h, g.half);
      }
    }
  }

  lemma {:induction false} SplittingParent<V>(g: Geometry, s: Store<V>, rest: seq<Frame<V>>, l: Tree<V>, r: Tree<V>,
                                              h: nat)
    requires Splitting(g, s, rest, l, r, h) && rest != []
    ensures rest[0].ref < |s.inner| && s.inner[rest[0].ref].Sized(g) && rest[0].Size() < g.B()
    ensures s.inner[rest[0].ref].pivots[g.B() - 3] != g.max <==> rest[0].Size() == g.B() - 1
  {
    hide WF, Rep, RepAll;
    LastIsFinal(g, r, h, g.half);
    OverflowTest(g, s, rest[0], l.Ref(), Last(r), h);
  }

  /** The parent's own node is in nobody else's part of the tree. */
  lemma {:induction false} ParentApart<V>(rest: seq<Frame<V>>, l: Tree<V>, r: Tree<V>, free: seq<nat>, len: nat)
    requires rest != [] && Accounted(InnerRefs(l) + InnerRefs(r) + CtxRefs(rest), free, len)
    ensures Untouched(l, {}, {rest[0].ref}) && Untouched(r, {}, {rest[0].ref})
    ensures UntouchedAll(rest[0].left, {}, {rest[0].ref}) && UntouchedAll(rest[0].right, {}, {rest[0].ref})
    ensures UntouchedCtx(rest[1..], {}, {rest[0].ref})
  {
    hide Leaves, LeavesAll, LeavesBefore, LeavesAfter, InnerRefs, InnerRefsAll;
    var x, f := rest[0].ref, rest[0];
    var refs := InnerRefs(l) + InnerRefs(r) + CtxRefs(rest);
    assert refs[x] <= 1;
    assert refs[x] ==
      InnerRefs(l)[x] + InnerRefs(r)[x] + 1 + InnerRefsAll(f.left)[x] + InnerRefsAll(f.right)[x]
      + CtxRefs(rest[1..])[x];
  }

  /** Listing the new node `r` after `l` in their parent. */
  lemma {:induction false} ListNewChild<V>(g: Geometry, s: Store<V>, s': Store<V>, rest: seq<Frame<V>>, l: Tree<V>,
                                           r: Tree<V>, h: nat, free: seq<nat>, len: nat)
    requires Splitting(g, s, rest, l, r, h) && rest != []
    requires Accounted(InnerRefs(l) + InnerRefs(r) + CtxRefs(rest), free, len)
    requires StoreAgree(s, s', {}, {rest[0].ref})
    requires var c, i := s.inner[rest[0].ref], |rest[0].left|;
      s'.inner[rest[0].ref] ==
        Live(InsertShift(c.pivots, i, g.B(), Last(l)), InsertShift(c.slots, i + 1, g.B(), Value(r.Ref())))
    ensures Widened(g, s', rest[1..], rest[0].ref, Wider(rest[0], l, r), h)
  {
    hide WF, Rep, RepAll, WFAll, Accounted, CtxRefs, InnerRefs, UntouchedAll, UntouchedCtx, Untouched, InsertShift;
    hide Lasts, Refs;
    var f := rest[0];
    var kids := Wider(f, l, r);
    ParentApart(rest, l, r, free, len);
    InnerInsert(g, s.inner[f.ref], Lasts(f.left) + [Last(r)] + Lasts(f.right), Refs(f.left) + [l.Ref()] + Refs(f.right),
                |f.left|, Last(l), r.Ref());
    WiderPivots(f, l, r);
    RepFrame(g, s, s', l, {}, {f.ref});
    RepFrame(g, s, s', r, {}, {f.ref});
    RepFrameAll(g, s, s', f.left, {}, {f.ref});
    RepFrameAll(g, s, s', f.right, {}, {f.ref});
    RepCtxFrame(g, s, s', rest[1..], f.ref, FrameLast(f, Last(r)), {}, {f.ref});
    WiderKids(g, s', f, l, r, h);
    assert Last(kids[|kids| - 1]) == FrameLast(f, Last(r));
  }

  lemma {:induction false} WiderKids<V>(g: Geometry, s: Store<V>, f: Frame<V>, l: Tree<V>, r: Tree<V>, h: nat)
    requires Rep(g, s, l) && Rep(g, s, r) && RepAll(g, s, f.left) && RepAll(g, s, f.right)
    requires WF(g, l, h, g.half) && WF(g, r, h, g.half) && WFAll(g, f.left, h) && WFAll(g, f.right, h)
    ensures RepAll(g, s, Wider(f, l, r)) && WFAll(g, Wider(f, l, r), h)
  {
    hide WF, Rep;
    var kids, n := Wider(f, l, r), |f.left|;
    forall i | 0 <= i < |kids| ensures Rep(g, s, kids[i]) && WF(g, kids[i], h, g.half) {
      if i >= n + 2 {
        assert kids[i] == f.right[i - n - 2];
      }
    }
  }

  /** Splitting a completely full node in two half full ones. */
  lemma {:induction false} SplitNode<V>(g: Geometry, s: Store<V>, s': Store<V>, up: seq<Frame<V>>, ref: nat, new_: nat,
                                        kids: seq<Tree<V>>, h: nat, free: seq<nat>, len: nat)
    requires Widened(g, s, up, ref, kids, h) && |kids| == g.B()
    requires Accounted(multiset{ref} + InnerRefsAll(kids) + CtxRefs(up) + multiset{new_}, free, len)
    requires StoreAgree(s, s', {}, {ref, new_}) && new_ < |s'.inner|
    requires var d := Live(s.inner[ref].pivots[g.half - 1 := g.max], s.inner[ref].slots);
      s'.inner[ref] == LowerHalf(g, d) && s'.inner[new_] == UpperHalf(g, d)
    ensures Splitting(g, s', up, Inner(ref, kids[..g.half]), Inner(new_, kids[g.half..]), h + 1)
    ensures Last(Inner(ref, kids[..g.half])) == s.inner[ref].pivots[g.half - 1]
  {
    hide WFCtx, InnerRefs, InnerRefsAll, Leaves, LeavesAll, LeavesBefore, LeavesAfter, CtxRefs, InnerCell, LowerHalf;
    hide UpperHalf;
    hide Rep, WF, RepCtx, Accounted, Last, RepAll, WFAll, UntouchedAll, UntouchedCtx, Lasts, Refs, Filled;
    var a, b := kids[..g.half], kids[g.half..];
    SplitApart(up, ref, new_, kids, free, len);
    RepFrameAll(g, s, s', kids, {}, {ref, new_});
    RepCtxFrame(g, s, s', up, ref, Last(kids[|kids| - 1]), {}, {ref, new_});
    SplitCells(g, s.inner[ref], kids);
    SplitLasts(kids, g.half, ref, new_);
    SplitKids(g, s', kids, g.half, h);
    InnerRep(g, s', ref, a);
    InnerRep(g, s', new_, b);
    InnerWF(g, ref, a, h, g.half);
    InnerWF(g, new_, b, h, g.half);
  }

  /** What splitting a completely full node reads of it. */
  lemma {:induction false} FullNode<V>(g: Geometry, s: Store<V>, up: seq<Frame<V>>, ref: nat, kids: seq<Tree<V>>,
                                       h: nat)
    requires Widened(g, s, up, ref, kids, h) && |kids| == g.B()
    ensures ref < |s.inner| && s.inner[ref].Sized(g)
  {
    hide RepCtx, WFCtx, RepAll, WFAll;
  }

  lemma {:induction false} SplitLasts<V>(kids: seq<Tree<V>>, half: nat, ref: nat, new_: nat)
    requires 0 < half < |kids|
    ensures Last(Inner(ref, kids[..half])) == Last(kids[half - 1])
    ensures Last(Inner(new_, kids[half..])) == Last(kids[|kids| - 1])
  {
  }

  lemma {:induction false} SplitKids<V>(g: Geometry, s: Store<V>, kids: seq<Tree<V>>, half: nat, h: nat)
    requires RepAll(g, s, kids) && WFAll(g, kids, h) && half <= |kids|
    ensures RepAll(g, s, kids[..half]) && WFAll(g, kids[..half], h)
    ensures RepAll(g, s, kids[half..]) && WFAll(g, kids[half..], h)
  {
    hide Rep, WF;
  }

  lemma {:induction false} SplitApart<V>(up: seq<Frame<V>>, ref: nat, new_: nat, kids: seq<Tree<V>>, free: seq<nat>,
                                         len: nat)
    requires Accounted(multiset{ref} + InnerRefsAll(kids) + CtxRefs(up) + multiset{new_}, free, len)
    ensures UntouchedAll(kids, {}, {ref, new_}) && UntouchedCtx(up, {}, {ref, new_})
  {
    hide InnerRefsAll, LeavesAll, LeavesBefore, LeavesAfter, CtxRefs;
    var all := multiset{ref} + InnerRefsAll(kids) + CtxRefs(up) + multiset{new_};
    assert all[ref] <= 1 && all[new_] <= 1;
  }

  lemma {:induction false} SplitCells<V>(g: Geometry, c: Cell<nat>, kids: seq<Tree<V>>)
    requires InnerCell(g, c, Lasts(kids), Refs(kids)) && |kids| == g.B()
    ensures var d, a, b := Live(c.pivots[g.half - 1 := g.max], c.slots), kids[..g.half], kids[g.half..];
      && InnerCell(g, LowerHalf(g, d), Lasts(a), Refs(a))
      && InnerCell(g, UpperHalf(g, d), Lasts(b), Refs(b))
    ensures c.pivots[g.half - 1] == Last(kids[g.half - 1])
  {
    var a, b := kids[..g.half], kids[g.half..];
    InnerSplit(g, c, Lasts(kids), Refs(kids));
    assert Lasts(a) == Lasts(kids)[..g.half] && Lasts(b) == Lasts(kids)[g.half..];
    assert Refs(a) == Refs(kids)[..g.half] && Refs(b) == Refs(kids)[g.half..];
  }

  /** A split moves no entry and loses no node. */
  lemma {:induction false} SplitKeeps<V>(kids: seq<Tree<V>>, half: nat, ref: nat, new_: nat)
    requires half <= |kids|
    ensures InnerRefs(Inner(ref, kids[..half])) + InnerRefs(Inner(new_, kids[half..]))
         == multiset{ref} + InnerRefsAll(kids) + multiset{new_}
    ensures Leaves(Inner(ref, kids[..half])) + Leaves(Inner(new_, kids[half..])) == LeavesAll(kids)
  {
    assert kids == kids[..half] + kids[half..];
    InnerRefsAllAppend(kids[..half], kids[half..]);
    LeavesAllAppend(kids[..half], kids[half..]);
  }

  // ---- Leaves ----

  /** Nothing but the current leaf refers to the current leaf's node. */
  lemma {:induction false} LeafApart<V>(l: LeafNode<V>, ctx: seq<Frame<V>>, free: seq<nat>, len: nat)
    requires Accounted(multiset(RefSeq(LeavesBefore(ctx) + [l] + LeavesAfter(ctx))), free, len)
    ensures UntouchedCtx(ctx, {l.ref}, {})
  {
    hide LeavesBefore, LeavesAfter, CtxRefs;
    var b, a := RefSeq(LeavesBefore(ctx)), RefSeq(LeavesAfter(ctx));
    assert RefSeq(LeavesBefore(ctx) + [l] + LeavesAfter(ctx)) == b + [l.ref] + a;
    var refs: multiset<nat> := multiset(b) + multiset{l.ref} + multiset(a);
    assert refs == multiset(b + [l.ref] + a);
    assert refs[l.ref] <= 1;
  }

  /** On the right edge no separator depends on the right-most pivot. */
  lemma {:induction false} EdgeLast<V>(g: Geometry, s: Store<V>, ctx: seq<Frame<V>>, ref: nat, last: nat, last': nat)
    requires RepCtx(g, s, ctx, ref, last) && (RightEdge(ctx) || last == last')
    ensures RepCtx(g, s, ctx, ref, last')
    decreases |ctx|
  {
    hide RepAll;
    if ctx != [] && last != last' {
      var f := ctx[0];
      assert f.right == [];
      EdgeCell(g, s.inner[f.ref], Lasts(f.left), last, last', Refs(f.left) + [ref]);
      assert Lasts(f.left) + [last] + Lasts(f.right) == Lasts(f.left) + [last];
      assert Lasts(f.left) + [last'] + Lasts(f.right) == Lasts(f.left) + [last'];
      assert Refs(f.left) + [ref] + Refs(f.right) == Refs(f.left) + [ref];
      EdgeLast(g, s, ctx[1..], f.ref, last, last');
    }
  }

  lemma {:induction false} EdgeCell(g: Geometry, c: Cell<nat>, lasts: seq<nat>, last: nat, last': nat, refs: seq<nat>)
    requires InnerCell(g, c, lasts + [last], refs)
    ensures InnerCell(g, c, lasts + [last'], refs)
  {
  }

  /** Writing one leaf keeps the path above it. */
  lemma {:induction false} LeafWritten<V>(g: Geometry, s: Store<V>, s': Store<V>, l: LeafNode<V>, ctx: seq<Frame<V>>,
                                          last: nat, touched: set<nat>)
    requires TreeOK(g, s, Plug(Leaf(l), ctx), |ctx|)
    requires StoreAgree(s, s', touched, {}) && UntouchedCtx(ctx, touched, {})
    requires RightEdge(ctx) || last == Last(Leaf(l))
    ensures RepCtx(g, s', ctx, l.ref, last) && WFCtx(g, ctx, 0)
  {
    hide TreeOK, WFCtx, Plug, UntouchedCtx, RightEdge, Last;
    OpenRest(g, s, l, ctx);
    EdgeLast(g, s, ctx, l.ref, Last(Leaf(l)), last);
    RepCtxFrame(g, s, s', ctx, l.ref, last, touched, {});
  }

  lemma {:induction false} OpenRest<V>(g: Geometry, s: Store<V>, l: LeafNode<V>, ctx: seq<Frame<V>>)
    requires TreeOK(g, s, Plug(Leaf(l), ctx), |ctx|)
    ensures RepCtx(g, s, ctx, l.ref, Last(Leaf(l))) && WFCtx(g, ctx, 0)
  {
    hide RepCtx, WFCtx, Plug, Last;
    Open(g, s, Leaf(l), ctx, 0);
  }

  // ---- Keeping track of the cursor while nodes split ----

  /**
   Below `rest` the leaves are those of `l` and `r`; the path `low` leads to `leaf` inside
   one of them. `ls` lists all leaves of the tree, `before` those left of `leaf`.
   */
  ghost predicate Tracking<V>(ls: seq<LeafNode<V>>, before: seq<LeafNode<V>>, rest: seq<Frame<V>>, l: Tree<V>,
                              r: Tree<V>, inRight: bool, low: seq<Frame<V>>, leaf: LeafNode<V>) {
    && LeavesBefore(rest) + (Leaves(l) + Leaves(r)) + LeavesAfter(rest) == ls
    && LeavesBefore(rest) + ((if inRight then Leaves(l) else []) + LeavesBefore(low)) == before
    && Plug(Leaf(leaf), low) == if inRight then r else l
  }

  lemma {:induction false} OneTree<V>(t: Tree<V>)
    ensures LeavesAll([t]) == Leaves(t) && InnerRefsAll([t]) == InnerRefs(t)
  {
    assert LeavesAll([t]) == Leaves(t) + LeavesAll<V>([]);
    assert InnerRefsAll([t]) == InnerRefs(t) + InnerRefsAll<V>([]);
  }

  /** A path into child `p` of `t` continues into `t`. */
  lemma {:induction false} ExtendLow<V>(leaf: LeafNode<V>, low: seq<Frame<V>>, t: Tree<V>, p: nat)
    requires t.Inner? && p < |t.kids| && Plug(Leaf(leaf), low) == t.kids[p]
    ensures Plug(Leaf(leaf), low + [FrameAt(t, p)]) == t
    ensures LeavesBefore(low + [FrameAt(t, p)]) == LeavesAll(t.kids[..p]) + LeavesBefore(low)
  {
    var f := FrameAt(t, p);
    PlugAppend(Leaf(leaf), low, [f]);
    Down(t, [], p);
    assert [f] + [] == [f];
    BeforeAppend(low, [f]);
    assert [f][1..] == [];
    assert LeavesBefore([f]) == LeavesBefore<V>([]) + LeavesAll(f.left);
  }

  function PathPos<V>(f: Frame<V>, inRight: bool): nat {
    |f.left| + if inRight then 1 else 0
  }

  /** Listing the new node keeps all leaves and the cursor's place among them. */
  lemma {:induction false} TrackWider<V>(ls: seq<LeafNode<V>>, before: seq<LeafNode<V>>, rest: seq<Frame<V>>,
                                         l: Tree<V>, r: Tree<V>, inRight: bool, low: seq<Frame<V>>, leaf: LeafNode<V>)
    requires Tracking(ls, before, rest, l, r, inRight, low, leaf) && rest != []
    ensures var f := rest[0]; var kids, p := Wider(f, l, r), PathPos(f, inRight);
      && p < |kids| && Plug(Leaf(leaf), low) == kids[p]
      && LeavesBefore(rest[1..]) + LeavesAll(kids) + LeavesAfter(rest[1..]) == ls
      && LeavesBefore(rest[1..]) + (LeavesAll(kids[..p]) + LeavesBefore(low)) == before
  {
    hide Leaves, LeavesAll, LeavesBefore, LeavesAfter, Plug;
    var f := rest[0];
    var kids, p := Wider(f, l, r), PathPos(f, inRight);
    var b, a, x, y := LeavesBefore(rest[1..]), LeavesAfter(rest[1..]), LeavesAll(f.left), LeavesAll(f.right);
    CtxUnfold(rest);
    WiderLeaves(f, l, r);
    Regroup6(b, x, Leaves(l), Leaves(r), y, a);
    LeftOfPath(f, l, r, inRight);
    Regroup4(b, x, if inRight then Leaves(l) else [], LeavesBefore(low));
  }

  lemma {:induction false} CtxUnfold<V>(ctx: seq<Frame<V>>)
    requires ctx != []
    ensures LeavesBefore(ctx) == LeavesBefore(ctx[1..]) + LeavesAll(ctx[0].left)
    ensures LeavesAfter(ctx) == LeavesAll(ctx[0].right) + LeavesAfter(ctx[1..])
  {
  }

  lemma {:induction false} Regroup6<X>(b: seq<X>, x: seq<X>, l: seq<X>, r: seq<X>, y: seq<X>, a: seq<X>)
    ensures (b + x) + (l + r) + (y + a) == b + (x + l + r + y) + a
  {
  }

  lemma {:induction false} Regroup4<X>(b: seq<X>, x: seq<X>, l: seq<X>, w: seq<X>)
    ensures (b + x) + (l + w) == b + ((x + l) + w)
  {
  }

  lemma {:induction false} LeftOfPath<V>(f: Frame<V>, l: Tree<V>, r: Tree<V>, inRight: bool)
    ensures LeavesAll(Wider(f, l, r)[..PathPos(f, inRight)]) == LeavesAll(f.left) + if inRight then Leaves(l) else []
  {
    var left := Wider(f, l, r)[..PathPos(f, inRight)];
    if inRight {
      assert left == f.left + [l] + [];
      LeavesAround(f.left, l, []);
    } else {
      assert left == f.left;
    }
  }

  /** After a split the path leads into the half that holds position `p`. */
  lemma {:induction false} TrackSplit<V>(ls: seq<LeafNode<V>>, before: seq<LeafNode<V>>, up: seq<Frame<V>>, ref: nat,
                                         new_: nat, kids: seq<Tree<V>>, half: nat, p: nat, low: seq<Frame<V>>,
                                         leaf: LeafNode<V>)
    requires half <= |kids| && p < |kids| && Plug(Leaf(leaf), low) == kids[p]
    requires LeavesBefore(up) + LeavesAll(kids) + LeavesAfter(up) == ls
    requires LeavesBefore(up) + (LeavesAll(kids[..p]) + LeavesBefore(low)) == before
    ensures var l, r := Inner(ref, kids[..half]), Inner(new_, kids[half..]);
      Tracking(ls, before, up, l, r, half <= p, low + [if half <= p then FrameAt(r, p - half) else FrameAt(l, p)], leaf)
  {
    hide Leaves, LeavesAll, LeavesBefore, LeavesAfter, Plug;
    var l, r := Inner(ref, kids[..half]), Inner(new_, kids[half..]);
    SplitKeeps(kids, half, ref, new_);
    if half <= p {
      ExtendLow(leaf, low, r, p - half);
      assert kids[..p] == kids[..half] + r.kids[..p - half];
      LeavesAllAppend(kids[..half], r.kids[..p - half]);
      InnerLeaves(ref, kids[..half]);
      Assoc(Leaves(l), LeavesAll(r.kids[..p - half]), LeavesBefore(low));
    } else {
      ExtendLow(leaf, low, l, p);
      assert kids[..p] == l.kids[..p];
      assert [] + LeavesBefore(low + [FrameAt(l, p)]) == LeavesBefore(low + [FrameAt(l, p)]);
    }
  }

  lemma {:induction false} InnerLeaves<V>(ref: nat, kids: seq<Tree<V>>)
    ensures Leaves(Inner(ref, kids)) == LeavesAll(kids)
  {
  }

  // ---- Whole steps at the leaf ----

  lemma {:induction false} LinkOf<V>(g: Geometry, s: Store<V>, l: LeafNode<V>, ctx: seq<Frame<V>>)
    requires TreeOK(g, s, Plug(Leaf(l), ctx), |ctx|)
    ensures l.ref < |s.leaf| && s.leaf[l.ref].Sized(g) && s.leaf[l.ref].slots[g.B() - 1].NextLeaf?
  {
    hide TreeOK, LeavesBefore, LeavesAfter, Plug;
    OpenChain(g, s, Leaf(l), ctx, 0);
    var refs := RefSeq(LeavesBefore(ctx) + [l] + LeavesAfter(ctx));
    var i := |LeavesBefore(ctx)|;
    assert refs[i] == l.ref;
    assert i + 1 < |refs| ==> Link(g, s.leaf, refs[i]) == NextLeaf(Some(refs[i + 1]));
  }

  /** Rewriting the current leaf, and nothing else, with entries that fit. */
  lemma {:induction false} RewriteLeaf<V>(g: Geometry, s: Store<V>, s': Store<V>, l: LeafNode<V>, l': LeafNode<V>,
                                          ctx: seq<Frame<V>>)
    requires TreeOK(g, s, Plug(Leaf(l), ctx), |ctx|) && l'.ref == l.ref < |s'.leaf|
    requires WF(g, Leaf(l'), 0, if ctx == [] then 0 else g.half) && LeafCell(g, s'.leaf[l.ref], l'.es)
    requires RepCtx(g, s', ctx, l.ref, Last(Leaf(l')))
    requires Agree(s.leaf, s'.leaf, {l.ref})
    requires l.ref < |s.leaf| && s.leaf[l.ref].Sized(g) && s'.leaf[l.ref].Sized(g)
    requires Link(g, s'.leaf, l.ref) == Link(g, s.leaf, l.ref)
    ensures TreeOK(g, s', Plug(Leaf(l'), ctx), |ctx|)
  {
    hide TreeOK, LeavesBefore, LeavesAfter, Plug, WF, WFCtx, RepCtx, LeafCell, ChainFromZero, Agree, Leaves, Last, Link;
    OpenRest(g, s, l, ctx);
    OpenChain(g, s, Leaf(l), ctx, 0);
    RewriteKeepsChain(g, s.leaf, s'.leaf, l, l', LeavesBefore(ctx), LeavesAfter(ctx));
    Close(g, s', Leaf(l'), ctx, 0);
  }

  lemma {:induction false} RewriteKeepsChain<V>(g: Geometry, cells: seq<Cell<Item<V>>>, cells': seq<Cell<Item<V>>>,
                                                l: LeafNode<V>, l': LeafNode<V>, b: seq<LeafNode<V>>,
                                                a: seq<LeafNode<V>>)
    requires ChainFromZero(g, cells, RefSeq(b + Leaves(Leaf(l)) + a)) && Agree(cells, cells', {l.ref})
    requires l'.ref == l.ref < |cells| && cells[l.ref].Sized(g) && cells'[l.ref].Sized(g)
    requires Link(g, cells', l.ref) == Link(g, cells, l.ref)
    ensures ChainFromZero(g, cells', RefSeq(b + Leaves(Leaf(l')) + a))
  {
    hide Chain;
    var refs := RefSeq(b + [l] + a);
    assert refs == RefSeq(b + [l'] + a);
    ChainKeep(g, cells, cells', refs, {l.ref});
  }

  lemma {:induction false} PlugOwners<V>(l: LeafNode<V>, l': LeafNode<V>, ctx: seq<Frame<V>>)
    requires l'.ref == l.ref
    ensures RefSeq(Leaves(Plug(Leaf(l'), ctx))) == RefSeq(Leaves(Plug(Leaf(l), ctx)))
    ensures InnerRefs(Plug(Leaf(l'), ctx)) == InnerRefs(Plug(Leaf(l), ctx))
    ensures Plug(Leaf(l'), ctx).Ref() == Plug(Leaf(l), ctx).Ref()
  {
    hide LeavesBefore, LeavesAfter, Plug, CtxRefs;
    PlugLeaves(Leaf(l), ctx);
    PlugLeaves(Leaf(l'), ctx);
    PlugRefs(Leaf(l), ctx);
    PlugRefs(Leaf(l'), ctx);
    PlugRoot(Leaf(l), ctx);
    PlugRoot(Leaf(l'), ctx);
  }

  /** Splitting a completely full leaf and linking the new leaf behind it. */
  lemma {:induction false} SplitLeaf<V>(g: Geometry, s: Store<V>, s': Store<V>, l: LeafNode<V>, ctx: seq<Frame<V>>,
                                        es: seq<Entry<V>>, new_: nat, free: seq<nat>, len: nat, free': seq<nat>,
                                        len': nat)
    requires TreeOK(g, s, Plug(Leaf(l), ctx), |ctx|)
    requires Accounted(multiset(RefSeq(Leaves(Plug(Leaf(l), ctx)))), free, len)
    requires Accounted(multiset(RefSeq(Leaves(Plug(Leaf(l), ctx)))) + multiset{new_}, free', len')
    requires |es| == g.B() && (forall i | 0 <= i < |es| :: es[i].last < g.max)
    requires RightEdge(ctx) || es[|es| - 1].last == Last(Leaf(l))
    requires StoreAgree(s, s', {l.ref, new_}, {}) && new_ < |s'.leaf| && l.ref < |s.leaf| && s.leaf[l.ref].Sized(g)
    requires s'.leaf[l.ref].Sized(g) && s'.leaf[new_].Sized(g)
    requires LeafCell(g, s'.leaf[l.ref], es[..g.half]) && Link(g, s'.leaf, l.ref) == NextLeaf(Some(new_))
    requires LeafCell(g, s'.leaf[new_], es[g.half..]) && Link(g, s'.leaf, new_) == Link(g, s.leaf, l.ref)
    ensures var a, b := LeafNode(l.ref, es[..g.half]), LeafNode(new_, es[g.half..]);
      var ls := LeavesBefore(ctx) + [a, b] + LeavesAfter(ctx);
      && Splitting(g, s', ctx, Leaf(a), Leaf(b), 0)
      && ChainFromZero(g, s'.leaf, RefSeq(ls))
      && Accounted(multiset(RefSeq(ls)), free', len')
  {
    hide TreeOK, LeavesBefore, LeavesAfter, Plug, WFCtx, RepCtx, ChainFromZero, LeafCell, RightEdge, InnerRefs, CtxRefs;
    hide Link, Accounted, UntouchedCtx, Leaves;
    var b, a := LeavesBefore(ctx), LeavesAfter(ctx);
    PlugLeaves(Leaf(l), ctx);
    LeafFlat(l);
    NewLeafApart(l, ctx, new_, free, len, free', len');
    OpenChain(g, s, Leaf(l), ctx, 0);
    LinkNewLeaf(g, s.leaf, s'.leaf, l, LeafNode(l.ref, es[..g.half]), LeafNode(new_, es[g.half..]), b, a, free, len,
                free', len');
    LeafWritten(g, s, s', l, ctx, es[|es| - 1].last, {l.ref, new_});
    HalfLeaves(g, s', l.ref, new_, es);
  }

  lemma {:induction false} HalfLeaves<V>(g: Geometry, s: Store<V>, ref: nat, new_: nat, es: seq<Entry<V>>)
    requires |es| == g.B() && (forall i | 0 <= i < |es| :: es[i].last < g.max)
    requires ref < |s.leaf| && LeafCell(g, s.leaf[ref], es[..g.half])
    requires new_ < |s.leaf| && LeafCell(g, s.leaf[new_], es[g.half..])
    ensures var a, b := Leaf(LeafNode(ref, es[..g.half])), Leaf(LeafNode(new_, es[g.half..]));
      WF(g, a, 0, g.half) && WF(g, b, 0, g.half) && Rep(g, s, a) && Rep(g, s, b) && Last(b) == es[|es| - 1].last
  {
  }

  lemma {:induction false} LinkNewLeaf<V>(g: Geometry, cells: seq<Cell<Item<V>>>, cells': seq<Cell<Item<V>>>,
                                          l: LeafNode<V>, x: LeafNode<V>, y: LeafNode<V>, b: seq<LeafNode<V>>,
                                          a: seq<LeafNode<V>>, free: seq<nat>, len: nat, free': seq<nat>, len': nat)
    requires ChainFromZero(g, cells, RefSeq(b + [l] + a)) && Agree(cells, cells', {l.ref, y.ref})
    requires Accounted(multiset(RefSeq(b + [l] + a)), free, len)
    requires Accounted(multiset(RefSeq(b + [l] + a)) + multiset{y.ref}, free', len')
    requires x.ref == l.ref < |cells| <= |cells'| && y.ref < |cells'| && y.ref !in RefSeq(b + [l] + a)
    requires cells[l.ref].Sized(g) && cells'[l.ref].Sized(g) && cells'[y.ref].Sized(g)
    requires Link(g, cells', l.ref) == NextLeaf(Some(y.ref)) && Link(g, cells', y.ref) == Link(g, cells, l.ref)
    ensures ChainFromZero(g, cells', RefSeq(b + [x, y] + a))
    ensures Accounted(multiset(RefSeq(b + [x, y] + a)), free', len')
  {
    hide Chain, Accounted;
    var refs := RefSeq(b + [l] + a);
    NewLeafRefs(b, a, l, x, y);
    AccountedDistinct(refs, free, len);
    assert refs[|b|] == l.ref;
    ChainInsert(g, cells, cells', refs, |b|, y.ref);
  }

  lemma {:induction false} NewLeafRefs<V>(b: seq<LeafNode<V>>, a: seq<LeafNode<V>>, l: LeafNode<V>, x: LeafNode<V>,
                                          y: LeafNode<V>)
    requires x.ref == l.ref
    ensures RefSeq(b + [x, y] + a) == InsertedAt(RefSeq(b + [l] + a), |b| + 1, y.ref)
    ensures multiset(RefSeq(b + [x, y] + a)) == multiset(RefSeq(b + [l] + a)) + multiset{y.ref}
  {
    InsertedMultiset(RefSeq(b + [l] + a), |b| + 1, y.ref);
  }

  lemma {:induction false} NewLeafApart<V>(l: LeafNode<V>, ctx: seq<Frame<V>>, new_: nat, free: seq<nat>, len: nat,
                                           free': seq<nat>, len': nat)
    requires Accounted(multiset(RefSeq(LeavesBefore(ctx) + [l] + LeavesAfter(ctx))), free, len)
    requires Accounted(multiset(RefSeq(LeavesBefore(ctx) + [l] + LeavesAfter(ctx))) + multiset{new_}, free', len')
    ensures UntouchedCtx(ctx, {l.ref, new_}, {}) && new_ !in RefSeq(LeavesBefore(ctx) + [l] + LeavesAfter(ctx))
  {
    hide LeavesBefore, LeavesAfter, CtxRefs;
    LeafApart(l, ctx, free, len);
    var refs := RefSeq(LeavesBefore(ctx) + [l] + LeavesAfter(ctx));
    var owners: multiset<nat> := multiset(refs);
    assert (owners + multiset{new_})[new_] <= 1;
    assert new_ !in owners;
    RefSeqAppend(LeavesBefore(ctx) + [l], LeavesAfter(ctx));
    RefSeqAppend(LeavesBefore(ctx), [l]);
  }

  lemma {:induction false} ContentsInserted<V>(before: seq<Entry<V>>, es: seq<Entry<V>>, after: seq<Entry<V>>, i: nat,
                                               e: Entry<V>)
    requires i <= |es|
    ensures before + InsertedAt(es, i, e) + after == InsertedAt(before + es + after, |before| + i, e)
  {
  }

  /** A new root over the two halves of the old one. */
  lemma {:induction false} GrowRoot<V>(g: Geometry, s: Store<V>, s': Store<V>, l: Tree<V>, r: Tree<V>, h: nat,
                                       root: nat, free: seq<nat>, len: nat)
    requires Splitting(g, s, [], l, r, h) && StoreAgree(s, s', {}, {root}) && root < |s'.inner|
    requires Accounted(InnerRefs(l) + InnerRefs(r) + multiset{root}, free, len)
    requires s'.inner[root] ==
      Live(Filled(g.B(), g.max)[0 := Last(l)], Filled(g.B(), Empty)[0 := Value(l.Ref())][1 := Value(r.Ref())])
    ensures Widened(g, s', [], root, [l, r], h)
  {
    hide InnerRefs, Leaves, Rep, WF, Last;
    var refs := InnerRefs(l) + InnerRefs(r) + multiset{root};
    assert refs[root] <= 1;
    RepFrame(g, s, s', l, {}, {root});
    RepFrame(g, s, s', r, {}, {root});
  }

  /** A widened node that is not completely full completes the insertion. */
  lemma {:induction false} FinishWidened<V>(g: Geometry, s: Store<V>, up: seq<Frame<V>>, ref: nat, kids: seq<Tree<V>>,
                                            h: nat, ls: seq<LeafNode<V>>, before: seq<LeafNode<V>>, low: seq<Frame<V>>,
                                            leaf: LeafNode<V>, p: nat)
    requires Widened(g, s, up, ref, kids, h) && |kids| < g.B() && ChainFromZero(g, s.leaf, RefSeq(ls))
    requires p < |kids| && Plug(Leaf(leaf), low) == kids[p]
    requires LeavesBefore(up) + LeavesAll(kids) + LeavesAfter(up) == ls
    requires LeavesBefore(up) + (LeavesAll(kids[..p]) + LeavesBefore(low)) == before
    ensures var ctx := (low + [FrameAt(Inner(ref, kids), p)]) + up; var t := Plug(Leaf(leaf), ctx);
      && TreeOK(g, s, t, h + 1 + |up|) && Leaves(t) == ls && LeavesBefore(ctx) == before
      && t == Plug(Inner(ref, kids), up)
      && InnerRefs(t) == multiset{ref} + InnerRefsAll(kids) + CtxRefs(up)
      && t.Ref() == if up == [] then ref else up[|up| - 1].ref
  {
    hide Rep, WF, Leaves, LeavesAll, LeavesBefore, LeavesAfter, InnerRefs, InnerRefsAll, CtxRefs, Plug, ChainFromZero;
    hide InnerCell, RepAll, WFAll, RepCtx, WFCtx, Last, TreeOK;
    var n := Inner(ref, kids);
    var low' := low + [FrameAt(n, p)];
    ExtendLow(leaf, low, n, p);
    PlugAppend(Leaf(leaf), low', up);
    BeforeAppend(low', up);
    InnerRep(g, s, ref, kids);
    InnerWF(g, ref, kids, h, if up == [] then 2 else g.half);
    InnerFacts(ref, kids);
    Close(g, s, n, up, h + 1);
    PlugLeaves(n, up);
    PlugRefs(n, up);
    PlugRoot(n, up);
  }

  lemma {:induction false} InnerFacts<V>(ref: nat, kids: seq<Tree<V>>)
    requires kids != []
    ensures Leaves(Inner(ref, kids)) == LeavesAll(kids)
    ensures InnerRefs(Inner(ref, kids)) == multiset{ref} + InnerRefsAll(kids)
    ensures Last(Inner(ref, kids)) == Last(kids[|kids| - 1])
  {
  }

  /** The owners of the nodes, before and after the parent lists the new child. */
  lemma {:induction false} WiderOwners<V>(rest: seq<Frame<V>>, l: Tree<V>, r: Tree<V>)
    requires rest != []
    ensures multiset{rest[0].ref} + InnerRefsAll(Wider(rest[0], l, r)) + CtxRefs(rest[1..]) ==
      InnerRefs(l) + InnerRefs(r) + CtxRefs(rest)
  {
    hide InnerRefs, InnerRefsAll;
    WiderRefs(rest[0], l, r);
  }

  lemma {:induction false} StackStep<V>(stack: seq<(nat, nat)>, low: seq<Frame<V>>, rest: seq<Frame<V>>, f: Frame<V>)
    requires OnStack(stack, 0, low + rest) && rest != []
    ensures |low| + 1 < |stack| && stack[|low| + 1] == Spot(rest[0])
    ensures OnStack(stack[|low| + 1 := Spot(f)], 0, (low + [f]) + rest[1..])
  {
    var path, path' := low + rest, (low + [f]) + rest[1..];
    assert path[|low|] == rest[0];
    assert forall i | 0 <= i < |path'| :: path'[i] == if i == |low| then f else path[i];
  }

  lemma {:induction false} StackReplace<V>(stack: seq<(nat, nat)>, low: seq<Frame<V>>, up: seq<Frame<V>>, f: Frame<V>,
                                           f': Frame<V>)
    requires OnStack(stack, 0, (low + [f]) + up)
    ensures |low| + 1 < |stack| && OnStack(stack[|low| + 1 := Spot(f')], 0, (low + [f']) + up)
    ensures Spot(f') == Spot(f) ==> OnStack(stack, 0, (low + [f']) + up)
  {
    var path, path' := (low + [f]) + up, (low + [f']) + up;
    assert forall i | 0 <= i < |path'| :: path'[i] == if i == |low| then f' else path[i];
  }

  lemma {:induction false} StackGrow<V>(stack: seq<(nat, nat)>, low: seq<Frame<V>>, f: Frame<V>)
    requires OnStack(stack, 0, low + [])
    ensures OnStack(stack + [Spot(f)], 0, (low + [f]) + [])
  {
    assert low + [] == low;
    assert (low + [f]) + [] == low + [f];
  }

  /** Below no frame at all there are just the two halves. */
  lemma {:induction false} TrackRoot<V>(ls: seq<LeafNode<V>>, before: seq<LeafNode<V>>, l: Tree<V>, r: Tree<V>,
                                        inRight: bool, low: seq<Frame<V>>, leaf: LeafNode<V>, root: nat)
    requires Tracking(ls, before, [], l, r, inRight, low, leaf)
    ensures var kids, p := [l, r], if inRight then 1 else 0;
      && Plug(Leaf(leaf), low) == kids[p]
      && LeavesBefore<V>([]) + LeavesAll(kids) + LeavesAfter<V>([]) == ls
      && LeavesBefore<V>([]) + (LeavesAll(kids[..p]) + LeavesBefore(low)) == before
      && multiset{root} + InnerRefsAll(kids) + CtxRefs<V>([]) ==
         InnerRefs(l) + InnerRefs(r) + CtxRefs<V>([]) + multiset{root}
  {
    hide Leaves, InnerRefs;
    TwoKids(root, l, r);
    InnerFacts(root, [l, r]);
    if inRight {
      assert [l, r][..1] == [l];
      assert LeavesAll([l]) == Leaves(l) + LeavesAll<V>([]);
    } else {
      assert [l, r][..0] == [];
    }
  }

  lemma {:induction false} NoFrames<V>()
    ensures CtxRefs<V>([]) == multiset{} && LeavesBefore<V>([]) == [] && LeavesAfter<V>([]) == []
  {
  }

  lemma {:induction false} TwoKids<V>(root: nat, l: Tree<V>, r: Tree<V>)
    ensures InnerRefs(Inner(root, [l, r])) == InnerRefs(l) + InnerRefs(r) + multiset{root}
    ensures Leaves(Inner(root, [l, r])) == Leaves(l) + Leaves(r)
  {
    assert [l, r] == [] + [l] + [r];
    InnerRefsAround([], l, [r]);
    LeavesAround([], l, [r]);
    assert InnerRefsAll([r]) == InnerRefs(r) + InnerRefsAll<V>([]);
    assert LeavesAll([r]) == Leaves(r) + LeavesAll<V>([]);
  }

  // ---- The insertion as a whole ----

  /** What is known of the enlarged leaf and of the contents before anything is written. */
  lemma {:induction false} InsertFacts<V>(g: Geometry, s: Store<V>, l: LeafNode<V>, ctx: seq<Frame<V>>, pos: nat,
                                          e: Entry<V>)
    requires TreeOK(g, s, Plug(Leaf(l), ctx), |ctx|) && pos <= |l.es| && (pos == |l.es| ==> RightEdge(ctx))
    requires e.last < g.max
    ensures |Before(ctx)| + pos <= |Flat(Plug(Leaf(l), ctx))|
    ensures l.ref in RefSeq(Leaves(Plug(Leaf(l), ctx)))
    ensures var es := InsertedAt(l.es, pos, e);
      && |es| <= g.B() && (forall i | 0 <= i < |es| :: es[i].last < g.max)
      && (ctx != [] ==> g.half <= |es|)
      && (RightEdge(ctx) || es[|es| - 1].last == Last(Leaf(l)))
      && Before(ctx) + es + After(ctx) == InsertedAt(Flat(Plug(Leaf(l), ctx)), |Before(ctx)| + pos, e)
  {
    hide TreeOK, Plug, RightEdge, LeafCell, Concat, LeavesBefore, LeavesAfter, Leaves;
    OpenLeaf(g, s, Leaf(l), ctx);
    PlugFlat(Leaf(l), ctx);
    LeafFlat(l);
    LeafOwned(l, ctx);
    ContentsInserted(Before(ctx), l.es, After(ctx), pos, e);
  }

  lemma {:induction false} PlainInsert<V>(g: Geometry, s: Store<V>, s': Store<V>, l: LeafNode<V>, ctx: seq<Frame<V>>,
                                          es: seq<Entry<V>>, free: seq<nat>, len: nat)
    requires TreeOK(g, s, Plug(Leaf(l), ctx), |ctx|)
    requires Accounted(multiset(RefSeq(Leaves(Plug(Leaf(l), ctx)))), free, len)
    requires |es| < g.B() && (forall i | 0 <= i < |es| :: es[i].last < g.max) && (ctx != [] ==> g.half <= |es|)
    requires es != []
    requires RightEdge(ctx) || es[|es| - 1].last == Last(Leaf(l))
    requires StoreAgree(s, s', {l.ref}, {}) && l.ref < |s.leaf| && s.leaf[l.ref].Sized(g)
    requires LeafCell(g, s'.leaf[l.ref], es) && Link(g, s'.leaf, l.ref) == Link(g, s.leaf, l.ref)
    ensures var t := Plug(Leaf(LeafNode(l.ref, es)), ctx);
      && TreeOK(g, s', t, |ctx|) && t.Ref() == Plug(Leaf(l), ctx).Ref()
      && RefSeq(Leaves(t)) == RefSeq(Leaves(Plug(Leaf(l), ctx))) && InnerRefs(t) == InnerRefs(Plug(Leaf(l), ctx))
      && Flat(t) == Before(ctx) + es + After(ctx)
  {
    hide TreeOK, LeavesBefore, LeavesAfter, Plug, WFCtx, RepCtx, RightEdge, InnerRefs, CtxRefs, UntouchedCtx, Accounted;
    hide Concat;
    var l' := LeafNode(l.ref, es);
    PlugLeaves(Leaf(l), ctx);
    LeafFlat(l);
    LeafFlat(l');
    LeafApart(l, ctx, free, len);
    LeafWritten(g, s, s', l, ctx, es[|es| - 1].last, {l.ref});
    RewriteLeaf(g, s, s', l, l', ctx);
    PlugOwners(l, l', ctx);
    PlugFlat(Leaf(l'), ctx);
  }

  lemma {:induction false} LeafOwned<V>(l: LeafNode<V>, ctx: seq<Frame<V>>)
    ensures l.ref in RefSeq(Leaves(Plug(Leaf(l), ctx)))
  {
    hide Plug, LeavesBefore, LeavesAfter;
    PlugLeaves(Leaf(l), ctx);
    var ls := LeavesBefore(ctx) + [l] + LeavesAfter(ctx);
    assert RefSeq(ls)[|LeavesBefore(ctx)|] == l.ref;
  }

  lemma {:induction false} SplitTracks<V>(ctx: seq<Frame<V>>, x: LeafNode<V>, y: LeafNode<V>, inRight: bool)
    ensures Tracking(LeavesBefore(ctx) + [x, y] + LeavesAfter(ctx), LeavesBefore(ctx) + if inRight then [x] else [],
                     ctx, Leaf(x), Leaf(y), inRight, [], if inRight then y else x)
  {
    hide Leaves, LeavesBefore, LeavesAfter, Plug, CtxRefs;
    PlugNil(Leaf(x));
    PlugNil(Leaf(y));
    LeafFlat(x);
    LeafFlat(y);
    NoFrames<V>();
    assert [x] + [y] == [x, y];
    assert (if inRight then [x] else []) + [] == if inRight then [x] else [];
  }

  lemma {:induction false} SplitOwners<V>(l: LeafNode<V>, ctx: seq<Frame<V>>, x: LeafNode<V>, y: LeafNode<V>)
    requires x.ref == l.ref
    ensures InnerRefs(Leaf(x)) + InnerRefs(Leaf(y)) + CtxRefs(ctx) == InnerRefs(Plug(Leaf(l), ctx))
    ensures Plug(Leaf(l), ctx).Ref() == if ctx == [] then l.ref else ctx[|ctx| - 1].ref
    ensures Last(Leaf(x)) == if x.es == [] then 0 else x.es[|x.es| - 1].last
  {
    hide Plug, CtxRefs;
    PlugRefs(Leaf(l), ctx);
    PlugRoot(Leaf(l), ctx);
  }

  lemma {:induction false} SplitContents<V>(b: seq<LeafNode<V>>, x: LeafNode<V>, y: LeafNode<V>, a: seq<LeafNode<V>>,
                                            inRight: bool)
    ensures Concat(b + [x, y] + a) == Concat(b) + (x.es + y.es) + Concat(a)
    ensures Concat(b + if inRight then [x] else []) == Concat(b) + if inRight then x.es else []
  {
    ConcatAppend(b + [x, y], a);
    assert b + [x, y] == (b + [x]) + [y];
    BeforeLeaf(b + [x], y);
    BeforeLeaf(b, x);
    assert b + [] == b;
  }
}
