/**
 The tree that a pair of node pools represents, seen as a value, and the path from
 its root to one leaf seen as a zipper. Everything the range tree promises about its
 nodes (lib/range-tree/src/node.rs:6-40, lib/range-tree/src/lib.rs:337-482) is stated here:
 fill limits, uniform depth, separators, the leaf chain and who owns which node.
 */
module Shapes {
  import opened Options
  import opened Nodes

  datatype Entry<V> = Entry(start: nat, last: nat, value: V)

  /** What a leaf stores beside the pivot `last`. */
  datatype Item<V> = Item(start: nat, value: V)

  datatype LeafNode<V> = LeafNode(ref: nat, es: seq<Entry<V>>)

  datatype Tree<V> = Leaf(leaf: LeafNode<V>) | Inner(id: nat, kids: seq<Tree<V>>) {
    function Ref(): nat {
      match this
      case Leaf(l) => l.ref
      case Inner(id, _) => id
    }
  }

  /** One level of a path: the node `ref`, and its children to both sides of the path. */
  datatype Frame<V> = Frame(ref: nat, left: seq<Tree<V>>, right: seq<Tree<V>>) {
    function Fill(t: Tree<V>): Tree<V> {
      Inner(ref, left + [t] + right)
    }
    function Size(): nat {
      |left| + 1 + |right|
    }
  }

  // ---- Contents ----

  function Leaves<V>(t: Tree<V>): seq<LeafNode<V>>
    decreases t, 1
  {
    match t
    case Leaf(l) => [l]
    case Inner(_, kids) => LeavesAll(kids)
  }

  function LeavesAll<V>(ts: seq<Tree<V>>): seq<LeafNode<V>>
    decreases ts, 0
  {
    if ts == [] then [] else Leaves(ts[0]) + LeavesAll(ts[1..])
  }

  function Concat<V>(ls: seq<LeafNode<V>>): seq<Entry<V>> {
    if ls == [] then [] else ls[0].es + Concat(ls[1..])
  }

  function RefSeq<V>(ls: seq<LeafNode<V>>): (r: seq<nat>)
    ensures |r| == |ls|
    ensures forall i | 0 <= i < |ls| :: r[i] == ls[i].ref
  {
    seq(|ls|, i requires 0 <= i < |ls| => ls[i].ref)
  }

  /** The in-order sequence of entries. */
  function Flat<V>(t: Tree<V>): seq<Entry<V>> {
    Concat(Leaves(t))
  }

  function FlatAll<V>(ts: seq<Tree<V>>): seq<Entry<V>> {
    Concat(LeavesAll(ts))
  }

  /** The pivot of the right-most entry, which is what a parent stores for a child. */
  function Last<V>(t: Tree<V>): nat {
    match t
    case Leaf(l) => if l.es == [] then 0 else l.es[|l.es| - 1].last
    case Inner(_, kids) => if kids == [] then 0 else Last(kids[|kids| - 1])
  }

  function Lasts<V>(ts: seq<Tree<V>>): (r: seq<nat>)
    ensures |r| == |ts|
    ensures forall i | 0 <= i < |ts| :: r[i] == Last(ts[i])
  {
    seq(|ts|, i requires 0 <= i < |ts| => Last(ts[i]))
  }

  function Refs<V>(ts: seq<Tree<V>>): (r: seq<nat>)
    ensures |r| == |ts|
    ensures forall i | 0 <= i < |ts| :: r[i] == ts[i].Ref()
  {
    seq(|ts|, i requires 0 <= i < |ts| => ts[i].Ref())
  }

  ghost function InnerRefs<V>(t: Tree<V>): multiset<nat>
    decreases t, 1
  {
    match t
    case Leaf(_) => multiset{}
    case Inner(id, kids) => multiset{id} + InnerRefsAll(kids)
  }

  ghost function InnerRefsAll<V>(ts: seq<Tree<V>>): multiset<nat>
    decreases ts, 0
  {
    if ts == [] then multiset{} else InnerRefs(ts[0]) + InnerRefsAll(ts[1..])
  }

  lemma {:induction false} LeavesAllAppend<V>(a: seq<Tree<V>>, b: seq<Tree<V>>)
    ensures LeavesAll(a + b) == LeavesAll(a) + LeavesAll(b)
  {
    if a == [] {
      assert a + b == b;
    } else {
      assert (a + b)[1..] == a[1..] + b;
      LeavesAllAppend(a[1..], b);
    }
  }

  lemma {:induction false} InnerRefsAllAppend<V>(a: seq<Tree<V>>, b: seq<Tree<V>>)
    ensures InnerRefsAll(a + b) == InnerRefsAll(a) + InnerRefsAll(b)
  {
    if a == [] {
      assert a + b == b;
    } else {
      assert (a + b)[1..] == a[1..] + b;
      InnerRefsAllAppend(a[1..], b);
    }
  }

  lemma {:induction false} ConcatAppend<V>(a: seq<LeafNode<V>>, b: seq<LeafNode<V>>)
    ensures Concat(a + b) == Concat(a) + Concat(b)
  {
    if a == [] {
      assert a + b == b;
    } else {
      assert (a + b)[1..] == a[1..] + b;
      ConcatAppend(a[1..], b);
    }
  }

  lemma {:induction false} Assoc<X>(a: seq<X>, b: seq<X>, c: seq<X>)
    ensures a + (b + c) == (a + b) + c
  {
  }

  lemma {:induction false} LeavesAround<V>(left: seq<Tree<V>>, t: Tree<V>, right: seq<Tree<V>>)
    ensures LeavesAll(left + [t] + right) == LeavesAll(left) + Leaves(t) + LeavesAll(right)
  {
    LeavesAllAppend(left + [t], right);
    LeavesAllAppend(left, [t]);
    assert LeavesAll([t]) == Leaves(t) + LeavesAll<V>([]) == Leaves(t);
  }

  lemma {:induction false} InnerRefsAround<V>(left: seq<Tree<V>>, t: Tree<V>, right: seq<Tree<V>>)
    ensures InnerRefsAll(left + [t] + right) == InnerRefsAll(left) + InnerRefs(t) + InnerRefsAll(right)
  {
    InnerRefsAllAppend(left + [t], right);
    InnerRefsAllAppend(left, [t]);
    assert InnerRefsAll([t]) == InnerRefs(t) + InnerRefsAll<V>([]) == InnerRefs(t);
  }

  lemma {:induction false} PivotsAround<V>(left: seq<Tree<V>>, t: Tree<V>, right: seq<Tree<V>>)
    ensures Lasts(left + [t] + right) == Lasts(left) + [Last(t)] + Lasts(right)
    ensures Refs(left + [t] + right) == Refs(left) + [t.Ref()] + Refs(right)
  {
  }

  // ---- Node limits ----

  /** At least `min` and at most `B - 1` elements here, at least half full below, leaves at depth `h`. */
  ghost predicate WF<V>(g: Geometry, t: Tree<V>, h: nat, min: nat)
    decreases t
  {
    match t
    case Leaf(l) =>
      h == 0 && min <= |l.es| < g.B() && (forall i | 0 <= i < |l.es| :: l.es[i].last < g.max)
    case Inner(_, kids) =>
      h > 0 && min <= |kids| < g.B() && (forall i | 0 <= i < |kids| :: WF(g, kids[i], h - 1, g.half))
  }

  ghost predicate WFAll<V>(g: Geometry, ts: seq<Tree<V>>, h: nat) {
    forall i | 0 <= i < |ts| :: WF(g, ts[i], h, g.half)
  }

  /** A root leaf may be empty; an internal root has at least two children. */
  function RootMin(h: nat): nat { if h == 0 then 0 else 2 }

  // ---- What the pools must hold ----

  datatype Store<V> = Store(leaf: seq<Cell<Item<V>>>, inner: seq<Cell<nat>>)

  /** An internal node: every child but the last has its separator, the last and all later pivots are `max`. */
  ghost predicate InnerCell(g: Geometry, c: Cell<nat>, lasts: seq<nat>, refs: seq<nat>) {
    && c.Sized(g)
    && |lasts| == |refs| <= g.B()
    && (forall i | 0 <= i < g.B() :: c.pivots[i] == if i + 1 < |lasts| then lasts[i] else g.max)
    && (forall i | 0 <= i < |refs| :: c.slots[i] == Value(refs[i]))
  }

  ghost predicate LeafCell<V>(g: Geometry, c: Cell<Item<V>>, es: seq<Entry<V>>) {
    && c.Sized(g)
    && |es| <= g.B()
    && (forall i | 0 <= i < g.B() :: c.pivots[i] == if i < |es| then es[i].last else g.max)
    && (forall i | 0 <= i < |es| :: c.slots[i] == Value(Item(es[i].start, es[i].value)))
  }

  ghost predicate Rep<V>(g: Geometry, s: Store<V>, t: Tree<V>)
    decreases t
  {
    match t
    case Leaf(l) => l.ref < |s.leaf| && LeafCell(g, s.leaf[l.ref], l.es)
    case Inner(id, kids) =>
      && id < |s.inner|
      && InnerCell(g, s.inner[id], Lasts(kids), Refs(kids))
      && (forall i | 0 <= i < |kids| :: Rep(g, s, kids[i]))
  }

  ghost predicate RepAll<V>(g: Geometry, s: Store<V>, ts: seq<Tree<V>>) {
    forall i | 0 <= i < |ts| :: Rep(g, s, ts[i])
  }

  /** Each leaf links to the next one in order and the last links to nothing. */
  ghost predicate Chain<T>(g: Geometry, cells: seq<Cell<T>>, refs: seq<nat>) {
    && (forall i | 0 <= i < |refs| :: refs[i] < |cells| && cells[refs[i]].Sized(g))
    && (forall i, j | 0 <= i < j < |refs| && j == i + 1 :: Link(g, cells, refs[i]) == NextLeaf(Some(refs[j])))
    && (refs != [] ==> Link(g, cells, refs[|refs| - 1]) == NextLeaf(None))
  }

  /** The slot that a leaf shares between its last value and the link to the next leaf. */
  ghost function Link<T>(g: Geometry, cells: seq<Cell<T>>, r: nat): Slot<T>
    requires r < |cells| && cells[r].Sized(g)
  {
    cells[r].slots[g.B() - 1]
  }

  /** A whole tree of height `h` as the pools hold it. Leaf zero is always the left-most leaf. */
  ghost predicate TreeOK<V>(g: Geometry, s: Store<V>, t: Tree<V>, h: nat) {
    && WF(g, t, h, RootMin(h))
    && Rep(g, s, t)
    && ChainFromZero(g, s.leaf, RefSeq(Leaves(t)))
  }

  ghost predicate ChainFromZero<T>(g: Geometry, cells: seq<Cell<T>>, refs: seq<nat>) {
    Chain(g, cells, refs) && refs != [] && refs[0] == 0
  }

  // ---- Framing ----

  /** Nothing outside `touched` changed. */
  ghost predicate Agree<T>(a: seq<Cell<T>>, b: seq<Cell<T>>, touched: set<nat>) {
    |a| <= |b| && forall i | 0 <= i < |a| && i !in touched :: b[i] == a[i]
  }

  ghost predicate Untouched<V>(t: Tree<V>, leafs: set<nat>, inners: set<nat>) {
    && (forall r | r in leafs :: r !in RefSeq(Leaves(t)))
    && (forall r | r in inners :: r !in InnerRefs(t))
  }

  ghost predicate UntouchedAll<V>(ts: seq<Tree<V>>, leafs: set<nat>, inners: set<nat>) {
    && (forall r | r in leafs :: r !in RefSeq(LeavesAll(ts)))
    && (forall r | r in inners :: r !in InnerRefsAll(ts))
  }

  ghost predicate StoreAgree<V>(s: Store<V>, s': Store<V>, leafs: set<nat>, inners: set<nat>) {
    Agree(s.leaf, s'.leaf, leafs) && Agree(s.inner, s'.inner, inners)
  }

  lemma {:induction false} RefSeqAppend<V>(a: seq<LeafNode<V>>, b: seq<LeafNode<V>>)
    ensures RefSeq(a + b) == RefSeq(a) + RefSeq(b)
  {
  }

  lemma {:induction false} RepFrame<V>(g: Geometry, s: Store<V>, s': Store<V>, t: Tree<V>, leafs: set<nat>,
                                       inners: set<nat>)
    requires Rep(g, s, t) && StoreAgree(s, s', leafs, inners) && Untouched(t, leafs, inners)
    ensures Rep(g, s', t)
    decreases t, 1
  {
    match t
    case Leaf(l) =>
      assert RefSeq(Leaves(t))[0] == l.ref;
    case Inner(id, kids) =>
      assert id in InnerRefs(t);
      RepFrameAll(g, s, s', kids, leafs, inners);
  }

  lemma {:induction false} RepFrameAll<V>(g: Geometry, s: Store<V>, s': Store<V>, ts: seq<Tree<V>>, leafs: set<nat>,
                                          inners: set<nat>)
    requires RepAll(g, s, ts) && StoreAgree(s, s', leafs, inners) && UntouchedAll(ts, leafs, inners)
    ensures RepAll(g, s', ts)
    decreases ts, 0
  {
    if ts != [] {
      RefSeqAppend(Leaves(ts[0]), LeavesAll(ts[1..]));
      RepFrame(g, s, s', ts[0], leafs, inners);
      RepFrameAll(g, s, s', ts[1..], leafs, inners);
    }
  }

  lemma {:induction false} InnerRep<V>(g: Geometry, s: Store<V>, ref: nat, kids: seq<Tree<V>>)
    requires ref < |s.inner| && InnerCell(g, s.inner[ref], Lasts(kids), Refs(kids)) && RepAll(g, s, kids)
    ensures Rep(g, s, Inner(ref, kids))
  {
  }

  lemma {:induction false} InnerWF<V>(g: Geometry, ref: nat, kids: seq<Tree<V>>, h: nat, min: nat)
    requires min <= |kids| < g.B() && WFAll(g, kids, h)
    ensures WF(g, Inner(ref, kids), h + 1, min)
  {
  }

  // ---- Zippers ----

  /** `ctx[0]` is the parent of `t` and the last frame is the root. */
  function Plug<V>(t: Tree<V>, ctx: seq<Frame<V>>): Tree<V>
    decreases |ctx|
  {
    if ctx == [] then t else Plug(ctx[0].Fill(t), ctx[1..])
  }

  function LeavesBefore<V>(ctx: seq<Frame<V>>): seq<LeafNode<V>> {
    if ctx == [] then [] else LeavesBefore(ctx[1..]) + LeavesAll(ctx[0].left)
  }

  function LeavesAfter<V>(ctx: seq<Frame<V>>): seq<LeafNode<V>> {
    if ctx == [] then [] else LeavesAll(ctx[0].right) + LeavesAfter(ctx[1..])
  }

  ghost function CtxRefs<V>(ctx: seq<Frame<V>>): multiset<nat> {
    if ctx == [] then multiset{}
    else multiset{ctx[0].ref} + InnerRefsAll(ctx[0].left) + InnerRefsAll(ctx[0].right) + CtxRefs(ctx[1..])
  }

  /** The right-most pivot of a frame's node, when its focused child has right-most pivot `last`. */
  function FrameLast<V>(f: Frame<V>, last: nat): nat {
    if f.right == [] then last else Last(f.right[|f.right| - 1])
  }

  ghost predicate RepFrameNode<V>(g: Geometry, s: Store<V>, f: Frame<V>, ref: nat, last: nat) {
    && f.ref < |s.inner|
    && InnerCell(g, s.inner[f.ref], Lasts(f.left) + [last] + Lasts(f.right), Refs(f.left) + [ref] + Refs(f.right))
    && RepAll(g, s, f.left)
    && RepAll(g, s, f.right)
  }

  /** The pools hold `ctx` around a child `ref` whose right-most pivot is `last`. */
  ghost predicate RepCtx<V>(g: Geometry, s: Store<V>, ctx: seq<Frame<V>>, ref: nat, last: nat)
    decreases |ctx|
  {
    ctx == [] ||
    (&& RepFrameNode(g, s, ctx[0], ref, last)
     && RepCtx(g, s, ctx[1..], ctx[0].ref, FrameLast(ctx[0], last)))
  }

  ghost predicate WFFrame<V>(g: Geometry, f: Frame<V>, h: nat, min: nat) {
    min <= f.Size() < g.B() && WFAll(g, f.left, h) && WFAll(g, f.right, h)
  }

  /** `ctx` is well formed around a child at height `h`. */
  ghost predicate WFCtx<V>(g: Geometry, ctx: seq<Frame<V>>, h: nat)
    decreases |ctx|
  {
    ctx == [] ||
    (&& WFFrame(g, ctx[0], h, if |ctx| == 1 then 2 else g.half)
     && WFCtx(g, ctx[1..], h + 1))
  }

  lemma {:induction false} OneFrame<V>(t: Tree<V>, f: Frame<V>)
    ensures Plug(t, [f]) == f.Fill(t) && LeavesBefore([f]) == LeavesAll(f.left)
  {
    assert [f][1..] == [];
    assert LeavesBefore([f]) == LeavesBefore<V>([]) + LeavesAll(f.left);
  }

  lemma {:induction false} FillLeaves<V>(f: Frame<V>, t: Tree<V>)
    ensures Leaves(f.Fill(t)) == LeavesAll(f.left) + Leaves(t) + LeavesAll(f.right)
  {
    LeavesAround(f.left, t, f.right);
  }

  lemma {:induction false} FillRefs<V>(f: Frame<V>, t: Tree<V>)
    ensures InnerRefs(f.Fill(t)) == multiset{f.ref} + InnerRefsAll(f.left) + InnerRefs(t) + InnerRefsAll(f.right)
  {
    InnerRefsAround(f.left, t, f.right);
  }

  lemma {:induction false} FillLast<V>(f: Frame<V>, t: Tree<V>)
    ensures Last(f.Fill(t)) == FrameLast(f, Last(t))
  {
  }

  lemma {:induction false} FillRep<V>(g: Geometry, s: Store<V>, f: Frame<V>, t: Tree<V>)
    ensures Rep(g, s, f.Fill(t)) <==> Rep(g, s, t) && RepFrameNode(g, s, f, t.Ref(), Last(t))
  {
    PivotsAround(f.left, t, f.right);
    var kids := f.left + [t] + f.right;
    assert f.Fill(t) == Inner(f.ref, kids);
    assert kids[|f.left|] == t;
    assert forall i | 0 <= i < |f.left| :: kids[i] == f.left[i];
    assert forall i | 0 <= i < |f.right| :: kids[|f.left| + 1 + i] == f.right[i];
  }

  lemma {:induction false} FillWF<V>(g: Geometry, f: Frame<V>, t: Tree<V>, h: nat, min: nat)
    ensures WF(g, f.Fill(t), h + 1, min) <==> WF(g, t, h, g.half) && WFFrame(g, f, h, min)
  {
    var kids := f.left + [t] + f.right;
    assert f.Fill(t) == Inner(f.ref, kids);
    assert kids[|f.left|] == t;
    assert forall i | 0 <= i < |f.left| :: kids[i] == f.left[i];
    assert forall i | 0 <= i < |f.right| :: kids[|f.left| + 1 + i] == f.right[i];
  }

  lemma {:induction false} PlugLeaves<V>(t: Tree<V>, ctx: seq<Frame<V>>)
    ensures Leaves(Plug(t, ctx)) == LeavesBefore(ctx) + Leaves(t) + LeavesAfter(ctx)
    decreases |ctx|
  {
    if ctx != [] {
      var b, l, x, r, a := LeavesBefore(ctx[1..]), LeavesAll(ctx[0].left), Leaves(t), LeavesAll(ctx[0].right),
        LeavesAfter(ctx[1..]);
      calc {
        Leaves(Plug(t, ctx));
        { PlugLeaves(ctx[0].Fill(t), ctx[1..]); }
        b + Leaves(ctx[0].Fill(t)) + a;
        { FillLeaves(ctx[0], t); }
        b + (l + x + r) + a;
        { Regroup(b, l, x, r, a); }
        (b + l) + x + (r + a);
      }
    }
  }

  lemma {:induction false} Regroup<X>(b: seq<X>, l: seq<X>, x: seq<X>, r: seq<X>, a: seq<X>)
    ensures b + (l + x + r) + a == (b + l) + x + (r + a)
  {
  }

  lemma {:induction false} PlugRefs<V>(t: Tree<V>, ctx: seq<Frame<V>>)
    ensures InnerRefs(Plug(t, ctx)) == InnerRefs(t) + CtxRefs(ctx)
    decreases |ctx|
  {
    if ctx != [] {
      calc {
        InnerRefs(Plug(t, ctx));
        { PlugRefs(ctx[0].Fill(t), ctx[1..]); }
        InnerRefs(ctx[0].Fill(t)) + CtxRefs(ctx[1..]);
        { FillRefs(ctx[0], t); }
        multiset{ctx[0].ref} + InnerRefsAll(ctx[0].left) + InnerRefs(t) + InnerRefsAll(ctx[0].right)
          + CtxRefs(ctx[1..]);
      }
    }
  }

  lemma {:induction false} PlugRoot<V>(t: Tree<V>, ctx: seq<Frame<V>>)
    ensures Plug(t, ctx).Ref() == if ctx == [] then t.Ref() else ctx[|ctx| - 1].ref
    decreases |ctx|
  {
    if ctx != [] {
      PlugRoot(ctx[0].Fill(t), ctx[1..]);
    }
  }

  lemma {:induction false} PlugRep<V>(g: Geometry, s: Store<V>, t: Tree<V>, ctx: seq<Frame<V>>)
    ensures Rep(g, s, Plug(t, ctx)) <==> Rep(g, s, t) && RepCtx(g, s, ctx, t.Ref(), Last(t))
    decreases |ctx|
  {
    if ctx != [] {
      FillRep(g, s, ctx[0], t);
      FillLast(ctx[0], t);
      PlugRep(g, s, ctx[0].Fill(t), ctx[1..]);
    }
  }

  lemma {:induction false} PlugWF<V>(g: Geometry, t: Tree<V>, ctx: seq<Frame<V>>, h: nat)
    ensures WF(g, Plug(t, ctx), h + |ctx|, RootMin(h + |ctx|))
       <==> if ctx == [] then WF(g, t, h, RootMin(h)) else WF(g, t, h, g.half) && WFCtx(g, ctx, h)
    decreases |ctx|
  {
    if ctx != [] {
      FillWF(g, ctx[0], t, h, if |ctx| == 1 then 2 else g.half);
      PlugWF(g, ctx[0].Fill(t), ctx[1..], h + 1);
    }
  }

  /** Frames compose: plugging through `low` first and then `high`. */
  lemma {:induction false} PlugAppend<V>(t: Tree<V>, low: seq<Frame<V>>, high: seq<Frame<V>>)
    ensures Plug(t, low + high) == Plug(Plug(t, low), high)
    decreases |low|
  {
    if low == [] {
      assert low + high == high;
    } else {
      assert (low + high)[1..] == low[1..] + high;
      PlugAppend(low[0].Fill(t), low[1..], high);
    }
  }

  lemma {:induction false} BeforeAppend<V>(low: seq<Frame<V>>, high: seq<Frame<V>>)
    ensures LeavesBefore(low + high) == LeavesBefore(high) + LeavesBefore(low)
    decreases |low|
  {
    if low == [] {
      assert low + high == high;
    } else {
      assert (low + high)[1..] == low[1..] + high;
      BeforeAppend(low[1..], high);
      Assoc(LeavesBefore(high), LeavesBefore(low[1..]), LeavesAll(low[0].left));
    }
  }

  lemma {:induction false} AfterAppend<V>(low: seq<Frame<V>>, high: seq<Frame<V>>)
    ensures LeavesAfter(low + high) == LeavesAfter(low) + LeavesAfter(high)
    decreases |low|
  {
    if low == [] {
      assert low + high == high;
    } else {
      assert (low + high)[1..] == low[1..] + high;
      AfterAppend(low[1..], high);
      Assoc(LeavesAll(low[0].right), LeavesAfter(low[1..]), LeavesAfter(high));
    }
  }

  lemma {:induction false} CtxRefsAppend<V>(low: seq<Frame<V>>, high: seq<Frame<V>>)
    ensures CtxRefs(low + high) == CtxRefs(low) + CtxRefs(high)
    decreases |low|
  {
    if low == [] {
      assert low + high == high;
    } else {
      assert (low + high)[1..] == low[1..] + high;
      CtxRefsAppend(low[1..], high);
    }
  }

  ghost predicate UntouchedCtx<V>(ctx: seq<Frame<V>>, leafs: set<nat>, inners: set<nat>) {
    && (forall r | r in leafs :: r !in RefSeq(LeavesBefore(ctx)) && r !in RefSeq(LeavesAfter(ctx)))
    && (forall r | r in inners :: r !in CtxRefs(ctx))
  }

  lemma {:induction false} RepCtxFrame<V>(g: Geometry, s: Store<V>, s': Store<V>, ctx: seq<Frame<V>>, ref: nat,
                                          last: nat, leafs: set<nat>, inners: set<nat>)
    requires RepCtx(g, s, ctx, ref, last) && StoreAgree(s, s', leafs, inners) && UntouchedCtx(ctx, leafs, inners)
    ensures RepCtx(g, s', ctx, ref, last)
    decreases |ctx|
  {
    if ctx != [] {
      RefSeqAppend(LeavesBefore(ctx[1..]), LeavesAll(ctx[0].left));
      RefSeqAppend(LeavesAll(ctx[0].right), LeavesAfter(ctx[1..]));
      assert ctx[0].ref in CtxRefs(ctx);
      RepFrameAll(g, s, s', ctx[0].left, leafs, inners);
      RepFrameAll(g, s, s', ctx[0].right, leafs, inners);
      RepCtxFrame(g, s, s', ctx[1..], ctx[0].ref, FrameLast(ctx[0], last), leafs, inners);
    }
  }
}
