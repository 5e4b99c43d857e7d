/**
 Pools for any tree: whatever shape the node limits allow, with whatever entries, there are two pools that hold
 it (lib/range-tree/src/node.rs:6-40).
 */
module Realizing {
  import opened Options
  import opened Nodes
  import opened Shapes

  /** A tree in its two pools, each slot of which is owned once or free once. */
  ghost predicate Represented<V>(g: Geometry, s: Store<V>, t: Tree<V>, h: nat, leafFree: seq<nat>,
                                 innerFree: seq<nat>) {
    && TreeOK(g, s, t, h)
    && FreeChain(s.leaf, leafFree) && FreeChain(s.inner, innerFree)
    && Accounted(multiset(RefSeq(Leaves(t))), leafFree, |s.leaf|)
    && Accounted(InnerRefs(t), innerFree, |s.inner|)
  }

  // ---- How much there is in a tree ----

  function Entries<V>(t: Tree<V>): nat
    decreases t, 1
  {
    match t
    case Leaf(l) => |l.es|
    case Inner(_, kids) => EntriesAll(kids)
  }

  function EntriesAll<V>(ts: seq<Tree<V>>): nat
    decreases ts, 0
  {
    if ts == [] then 0 else Entries(ts[0]) + EntriesAll(ts[1..])
  }

  function Inners<V>(t: Tree<V>): nat
    decreases t, 1
  {
    match t
    case Leaf(_) => 0
    case Inner(_, kids) => InnersAll(kids) + 1
  }

  function InnersAll<V>(ts: seq<Tree<V>>): nat
    decreases ts, 0
  {
    if ts == [] then 0 else Inners(ts[0]) + InnersAll(ts[1..])
  }

  // ---- The same shape with other entries and its nodes numbered ----

  /** Leaves are numbered from `l` on in order, internal nodes from `i` on, children first. */
  function Relabel<V>(t: Tree<V>, es: seq<Entry<V>>, l: nat, i: nat): Tree<V>
    requires |es| == Entries(t)
    decreases t, 1
  {
    match t
    case Leaf(_) => Leaf(LeafNode(l, es))
    case Inner(_, kids) => Inner(i + InnersAll(kids), RelabelAll(kids, es, l, i))
  }

  function RelabelAll<V>(ts: seq<Tree<V>>, es: seq<Entry<V>>, l: nat, i: nat): (r: seq<Tree<V>>)
    requires |es| == EntriesAll(ts)
    ensures |r| == |ts|
    decreases ts, 0
  {
    if ts == [] then []
    else
      var n := Entries(ts[0]);
      [Relabel(ts[0], es[..n], l, i)] + RelabelAll(ts[1..], es[n..], l + |Leaves(ts[0])|, i + Inners(ts[0]))
  }

  ghost predicate Present<V>(g: Geometry, es: seq<Entry<V>>) {
    forall k | 0 <= k < |es| :: es[k].last < g.max
  }

  lemma {:induction false} RelabelWF<V>(g: Geometry, t: Tree<V>, es: seq<Entry<V>>, l: nat, i: nat, h: nat, min: nat)
    requires |es| == Entries(t) && WF(g, t, h, min) && Present(g, es)
    ensures WF(g, Relabel(t, es, l, i), h, min)
    decreases t, 1
  {
    match t
    case Leaf(_) =>
    case Inner(_, kids) => RelabelWFAll(g, kids, es, l, i, h - 1);
  }

  lemma {:induction false} RelabelWFAll<V>(g: Geometry, ts: seq<Tree<V>>, es: seq<Entry<V>>, l: nat, i: nat, h: nat)
    requires |es| == EntriesAll(ts) && WFAll(g, ts, h) && Present(g, es)
    ensures WFAll(g, RelabelAll(ts, es, l, i), h)
    decreases ts, 0
  {
    if ts != [] {
      var n := Entries(ts[0]);
      RelabelWF(g, ts[0], es[..n], l, i, h, g.half);
      RelabelWFAll(g, ts[1..], es[n..], l + |Leaves(ts[0])|, i + Inners(ts[0]), h);
    }
  }

  /** The leaves in order have consecutive numbers and hold `es`. */
  ghost predicate InARow<V>(ls: seq<LeafNode<V>>, es: seq<Entry<V>>, l: nat, n: nat) {
    |ls| == n && Concat(ls) == es && forall k | 0 <= k < n :: ls[k].ref == l + k
  }

  lemma {:induction false} RelabelLeaves<V>(t: Tree<V>, es: seq<Entry<V>>, l: nat, i: nat)
    requires |es| == Entries(t)
    ensures InARow(Leaves(Relabel(t, es, l, i)), es, l, |Leaves(t)|)
    decreases t, 1
  {
    match t
    case Leaf(n) =>
      assert Concat([LeafNode(l, es)]) == es + Concat<V>([]) == es;
    case Inner(_, kids) => RelabelLeavesAll(kids, es, l, i);
  }

  lemma {:induction false} RelabelLeavesAll<V>(ts: seq<Tree<V>>, es: seq<Entry<V>>, l: nat, i: nat)
    requires |es| == EntriesAll(ts)
    ensures InARow(LeavesAll(RelabelAll(ts, es, l, i)), es, l, |LeavesAll(ts)|)
    decreases ts, 0
  {
    if ts != [] {
      var n, m := Entries(ts[0]), |Leaves(ts[0])|;
      RelabelLeaves(ts[0], es[..n], l, i);
      RelabelLeavesAll(ts[1..], es[n..], l + m, i + Inners(ts[0]));
      var a := Leaves(Relabel(ts[0], es[..n], l, i));
      var b := LeavesAll(RelabelAll(ts[1..], es[n..], l + m, i + Inners(ts[0])));
      assert LeavesAll(RelabelAll(ts, es, l, i)) == a + b;
      ConcatAppend(a, b);
    }
  }

  ghost predicate Consecutive(refs: multiset<nat>, i: nat, n: nat) {
    forall x: nat :: refs[x] == if i <= x < i + n then 1 else 0
  }

  lemma {:induction false} RelabelRefs<V>(t: Tree<V>, es: seq<Entry<V>>, l: nat, i: nat)
    requires |es| == Entries(t)
    ensures Consecutive(InnerRefs(Relabel(t, es, l, i)), i, Inners(t))
    decreases t, 1
  {
    match t
    case Leaf(_) =>
    case Inner(_, kids) => RelabelRefsAll(kids, es, l, i);
  }

  lemma {:induction false} RelabelRefsAll<V>(ts: seq<Tree<V>>, es: seq<Entry<V>>, l: nat, i: nat)
    requires |es| == EntriesAll(ts)
    ensures Consecutive(InnerRefsAll(RelabelAll(ts, es, l, i)), i, InnersAll(ts))
    decreases ts, 0
  {
    if ts != [] {
      var n, m := Entries(ts[0]), |Leaves(ts[0])|;
      RelabelRefs(ts[0], es[..n], l, i);
      RelabelRefsAll(ts[1..], es[n..], l + m, i + Inners(ts[0]));
    }
  }

  // ---- The pools ----

  function MakeLeaf<V>(g: Geometry, es: seq<Entry<V>>, next: Option<nat>): Cell<Item<V>> {
    Live(seq(g.B(), k requires 0 <= k < g.B() => if k < |es| then es[k].last else g.max),
         seq(g.B(), k requires 0 <= k < g.B() =>
           if k == g.B() - 1 then NextLeaf(next) else if k < |es| then Value(Item(es[k].start, es[k].value))
             else Empty))
  }

  function MakeInner(g: Geometry, lasts: seq<nat>, refs: seq<nat>): Cell<nat>
    requires |lasts| == |refs|
  {
    Live(seq(g.B(), k requires 0 <= k < g.B() => if k + 1 < |lasts| then lasts[k] else g.max),
         seq(g.B(), k requires 0 <= k < g.B() => if k < |refs| then Value(refs[k]) else Empty))
  }

  function LeafPool<V>(g: Geometry, ls: seq<LeafNode<V>>): seq<Cell<Item<V>>> {
    seq(|ls|, k requires 0 <= k < |ls| => MakeLeaf(g, ls[k].es, if k + 1 < |ls| then Some(k + 1) else None))
  }

  function InnerPool<V>(g: Geometry, t: Tree<V>): seq<Cell<nat>>
    decreases t, 1
  {
    match t
    case Leaf(_) => []
    case Inner(_, kids) => InnerPoolAll(g, kids) + [MakeInner(g, Lasts(kids), Refs(kids))]
  }

  function InnerPoolAll<V>(g: Geometry, ts: seq<Tree<V>>): seq<Cell<nat>>
    decreases ts, 0
  {
    if ts == [] then [] else InnerPool(g, ts[0]) + InnerPoolAll(g, ts[1..])
  }

  lemma {:induction false} PoolSize<V>(g: Geometry, t: Tree<V>)
    ensures |InnerPool(g, t)| == Inners(t)
    decreases t, 1
  {
    match t
    case Leaf(_) =>
    case Inner(_, kids) => PoolSizeAll(g, kids);
  }

  lemma {:induction false} PoolSizeAll<V>(g: Geometry, ts: seq<Tree<V>>)
    ensures |InnerPoolAll(g, ts)| == InnersAll(ts)
    decreases ts, 0
  {
    if ts != [] {
      PoolSize(g, ts[0]);
      PoolSizeAll(g, ts[1..]);
    }
  }

  lemma {:induction false} RelabelInners<V>(t: Tree<V>, es: seq<Entry<V>>, l: nat, i: nat)
    requires |es| == Entries(t)
    ensures Inners(Relabel(t, es, l, i)) == Inners(t)
    decreases t, 1
  {
    match t
    case Leaf(_) =>
    case Inner(_, kids) => RelabelInnersAll(kids, es, l, i);
  }

  lemma {:induction false} RelabelInnersAll<V>(ts: seq<Tree<V>>, es: seq<Entry<V>>, l: nat, i: nat)
    requires |es| == EntriesAll(ts)
    ensures InnersAll(RelabelAll(ts, es, l, i)) == InnersAll(ts)
    decreases ts, 0
  {
    if ts != [] {
      var n := Entries(ts[0]);
      RelabelInners(ts[0], es[..n], l, i);
      RelabelInnersAll(ts[1..], es[n..], l + |Leaves(ts[0])|, i + Inners(ts[0]));
    }
  }

  /** The leaves are in the pool. */
  ghost predicate InPool<V>(g: Geometry, s: Store<V>, ls: seq<LeafNode<V>>) {
    forall k | 0 <= k < |ls| :: ls[k].ref < |s.leaf| && LeafCell(g, s.leaf[ls[k].ref], ls[k].es)
  }

  /** The pool has `cells` from `i` on. */
  ghost predicate From(pool: seq<Cell<nat>>, i: nat, cells: seq<Cell<nat>>) {
    i + |cells| <= |pool| && forall k | 0 <= k < |cells| :: pool[i + k] == cells[k]
  }

  lemma {:induction false} FromSplit(pool: seq<Cell<nat>>, i: nat, a: seq<Cell<nat>>, b: seq<Cell<nat>>)
    requires From(pool, i, a + b)
    ensures From(pool, i, a) && From(pool, i + |a|, b)
  {
    assert forall k | 0 <= k < |a| :: (a + b)[k] == a[k];
    assert forall k | 0 <= k < |b| :: (a + b)[|a| + k] == b[k] && pool[i + (|a| + k)] == b[k];
  }

  lemma {:induction false} BuiltRep<V>(g: Geometry, s: Store<V>, t: Tree<V>, es: seq<Entry<V>>, l: nat, i: nat, h: nat,
                                       min: nat)
    requires |es| == Entries(t) && WF(g, Relabel(t, es, l, i), h, min)
    requires InPool(g, s, Leaves(Relabel(t, es, l, i))) && From(s.inner, i, InnerPool(g, Relabel(t, es, l, i)))
    ensures Rep(g, s, Relabel(t, es, l, i))
    decreases t, 1
  {
    match t
    case Leaf(_) =>
      assert Leaves(Relabel(t, es, l, i))[0] == LeafNode(l, es);
    case Inner(_, kids) =>
      hide InnerPoolAll, InnerPool, WF, RelabelAll;
      var us, id := RelabelAll(kids, es, l, i), i + InnersAll(kids);
      var cell := MakeInner(g, Lasts(us), Refs(us));
      PoolOf(g, id, us);
      KidsWF(g, id, us, h, min);
      FromSplit(s.inner, i, InnerPoolAll(g, us), [cell]);
      PoolSizeAll(g, us);
      RelabelInnersAll(kids, es, l, i);
      BuiltRepAll(g, s, kids, es, l, i, h - 1);
      assert s.inner[id] == [cell][0];
      InnerRep(g, s, id, us);
  }

  lemma {:induction false} PoolOf<V>(g: Geometry, id: nat, kids: seq<Tree<V>>)
    ensures InnerPool(g, Inner(id, kids)) == InnerPoolAll(g, kids) + [MakeInner(g, Lasts(kids), Refs(kids))]
  {
  }

  lemma {:induction false} KidsWF<V>(g: Geometry, id: nat, kids: seq<Tree<V>>, h: nat, min: nat)
    requires WF(g, Inner(id, kids), h, min)
    ensures h > 0 && |kids| < g.B() && WFAll(g, kids, h - 1)
  {
  }

  lemma {:induction false} BuiltRepAll<V>(g: Geometry, s: Store<V>, ts: seq<Tree<V>>, es: seq<Entry<V>>, l: nat, i: nat,
                                          h: nat)
    requires |es| == EntriesAll(ts) && WFAll(g, RelabelAll(ts, es, l, i), h)
    requires InPool(g, s, LeavesAll(RelabelAll(ts, es, l, i)))
    requires From(s.inner, i, InnerPoolAll(g, RelabelAll(ts, es, l, i)))
    ensures RepAll(g, s, RelabelAll(ts, es, l, i))
    decreases ts, 0
  {
    if ts != [] {
      hide WF, Relabel, Leaves, InnerPool, Rep, RelabelAll, LeavesAll, InnerPoolAll, InPool, From, Inners;
      var n, m, j := Entries(ts[0]), |Leaves(ts[0])|, Inners(ts[0]);
      var u, us := Relabel(ts[0], es[..n], l, i), RelabelAll(ts[1..], es[n..], l + m, i + j);
      FirstAndRest(g, ts, es, l, i);
      FromSplit(s.inner, i, InnerPool(g, u), InnerPoolAll(g, us));
      PoolSize(g, u);
      RelabelInners(ts[0], es[..n], l, i);
      InPoolSplit(g, s, Leaves(u), LeavesAll(us));
      assert ([u] + us)[0] == u && forall x | 0 <= x < |us| :: ([u] + us)[x + 1] == us[x];
      BuiltRep(g, s, ts[0], es[..n], l, i, h, g.half);
      BuiltRepAll(g, s, ts[1..], es[n..], l + m, i + j, h);
    }
  }

  lemma {:induction false} FirstAndRest<V>(g: Geometry, ts: seq<Tree<V>>, es: seq<Entry<V>>, l: nat, i: nat)
    requires |es| == EntriesAll(ts) && ts != []
    ensures Entries(ts[0]) <= |es| && |es[Entries(ts[0])..]| == EntriesAll(ts[1..])
    ensures var n := Entries(ts[0]);
      var u, us := Relabel(ts[0], es[..n], l, i), RelabelAll(ts[1..], es[n..], l + |Leaves(ts[0])|, i + Inners(ts[0]));
      && RelabelAll(ts, es, l, i) == [u] + us
      && LeavesAll([u] + us) == Leaves(u) + LeavesAll(us)
      && InnerPoolAll(g, [u] + us) == InnerPool(g, u) + InnerPoolAll(g, us)
  {
    hide Leaves, InnerPool, Relabel;
    var n := Entries(ts[0]);
    var u, us := Relabel(ts[0], es[..n], l, i), RelabelAll(ts[1..], es[n..], l + |Leaves(ts[0])|, i + Inners(ts[0]));
    assert ([u] + us)[1..] == us;
  }

  lemma {:induction false} InPoolSplit<V>(g: Geometry, s: Store<V>, a: seq<LeafNode<V>>, b: seq<LeafNode<V>>)
    requires InPool(g, s, a + b)
    ensures InPool(g, s, a) && InPool(g, s, b)
  {
    hide LeafCell;
    assert forall k | 0 <= k < |a| :: (a + b)[k] == a[k];
    assert forall k | 0 <= k < |b| :: (a + b)[|a| + k] == b[k];
  }

  lemma {:induction false} LeavesFit<V>(g: Geometry, t: Tree<V>, h: nat, min: nat)
    requires WF(g, t, h, min)
    ensures forall k | 0 <= k < |Leaves(t)| :: |Leaves(t)[k].es| < g.B()
    decreases t, 1
  {
    match t
    case Leaf(_) =>
    case Inner(_, kids) => LeavesFitAll(g, kids, h - 1);
  }

  lemma {:induction false} LeavesFitAll<V>(g: Geometry, ts: seq<Tree<V>>, h: nat)
    requires WFAll(g, ts, h)
    ensures forall k | 0 <= k < |LeavesAll(ts)| :: |LeavesAll(ts)[k].es| < g.B()
    decreases ts, 0
  {
    if ts != [] {
      LeavesFit(g, ts[0], h, g.half);
      LeavesFitAll(g, ts[1..], h);
    }
  }

  lemma {:induction false} LeafPoolOK<V>(g: Geometry, ls: seq<LeafNode<V>>, inner: seq<Cell<nat>>)
    requires ls != [] && (forall k | 0 <= k < |ls| :: ls[k].ref == k && |ls[k].es| < g.B())
    ensures InPool(g, Store(LeafPool(g, ls), inner), ls) && ChainFromZero(g, LeafPool(g, ls), RefSeq(ls))
    ensures Accounted(multiset(RefSeq(ls)), [], |ls|)
  {
    hide Accounted, Present, LeafCell;
    var pool := LeafPool(g, ls);
    forall k | 0 <= k < |ls| ensures pool[k].Sized(g) && LeafCell(g, pool[k], ls[k].es)
      ensures pool[k].slots[g.B() - 1] == NextLeaf(if k + 1 < |ls| then Some(k + 1) else None)
    {
      LeafMade(g, ls[k].es, if k + 1 < |ls| then Some(k + 1) else None);
    }
    AccountedRow(RefSeq(ls));
  }

  lemma {:induction false} LeafMade<V>(g: Geometry, es: seq<Entry<V>>, next: Option<nat>)
    requires |es| < g.B()
    ensures var c := MakeLeaf(g, es, next);
      c.Sized(g) && LeafCell(g, c, es) && c.slots[g.B() - 1] == NextLeaf(next)
  {
  }

  lemma {:induction false} AccountedRow(refs: seq<nat>)
    requires forall k | 0 <= k < |refs| :: refs[k] == k
    ensures Accounted(multiset(refs), [], |refs|)
    decreases |refs|
  {
    if refs != [] {
      var n := |refs| - 1;
      AccountedRow(refs[..n]);
      assert refs == refs[..n] + [refs[n]];
    }
  }

  /** Every shape within the node limits, with any entries, is represented by pools with just as many nodes as it
      has. */
  lemma {:induction false} Realize<V>(g: Geometry, t: Tree<V>, h: nat, es: seq<Entry<V>>)
    returns (s: Store<V>, u: Tree<V>)
    requires WF(g, t, h, RootMin(h)) && |es| == Entries(t) && Present(g, es)
    ensures Represented(g, s, u, h, [], []) && Flat(u) == es && |s.leaf| == |Leaves(t)| && |s.inner| == Inners(t)
  {
    hide WF, Rep, Relabel, Leaves, InnerPool, LeafPool, InnerRefs, ChainFromZero, LeafCell;
    u := Relabel(t, es, 0, 0);
    RelabelWF(g, t, es, 0, 0, h, RootMin(h));
    RelabelLeaves(t, es, 0, 0);
    RelabelRefs(t, es, 0, 0);
    RelabelInners(t, es, 0, 0);
    LeavesFit(g, u, h, RootMin(h));
    SomeLeaf(g, t, h, RootMin(h));
    s := Store(LeafPool(g, Leaves(u)), InnerPool(g, u));
    LeafPoolOK(g, Leaves(u), s.inner);
    PoolSize(g, u);
    LeafPoolSize(g, Leaves(u));
    BuiltRep(g, s, t, es, 0, 0, h, RootMin(h));
  }

  lemma {:induction false} LeafPoolSize<V>(g: Geometry, ls: seq<LeafNode<V>>)
    ensures |LeafPool(g, ls)| == |ls|
  {
  }

  lemma {:induction false} SomeLeaf<V>(g: Geometry, t: Tree<V>, h: nat, min: nat)
    requires WF(g, t, h, min) && (h > 0 ==> min > 0)
    ensures Leaves(t) != []
    decreases t
  {
    if h > 0 {
      SomeLeaf(g, t.kids[0], h - 1, g.half);
    }
  }
}
