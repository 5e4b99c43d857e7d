/**
 Walking the leaves of a tree through their chain instead of through the internal nodes
 (lib/range-tree/src/iter.rs:29-87), and what lies between the stored ranges
 (lib/range-tree/src/iter.rs:376-420).
 */
module Chains {
  import opened Options
  import opened Nodes
  import opened Shapes
  import opened Paths
  import opened Models
  import opened Searching

  ghost predicate LeafGood<V>(g: Geometry, s: Store<V>, l: LeafNode<V>, min: nat) {
    && l.ref < |s.leaf| && LeafCell(g, s.leaf[l.ref], l.es)
    && min <= |l.es| < g.B() && (forall i | 0 <= i < |l.es| :: l.es[i].last < g.max)
  }

  ghost predicate LeavesGood<V>(g: Geometry, s: Store<V>, ls: seq<LeafNode<V>>, min: nat) {
    forall k | 0 <= k < |ls| :: LeafGood(g, s, ls[k], min)
  }

  /** Every leaf of a tree holds at least as many entries as its kind of node must. */
  lemma {:induction false} TreeLeaves<V>(g: Geometry, s: Store<V>, t: Tree<V>, h: nat, min: nat)
    requires WF(g, t, h, min) && Rep(g, s, t)
    ensures LeavesGood(g, s, Leaves(t), if h == 0 then min else g.half)
    decreases t, 1
  {
    hide LeafCell, InnerCell, LeafGood;
    match t
    case Leaf(l) => assert LeafGood(g, s, l, min) by { LeafIsGood(g, s, l, min); }
    case Inner(id, kids) => KidsLeaves(g, s, kids, h - 1);
  }

  lemma {:induction false} LeafIsGood<V>(g: Geometry, s: Store<V>, l: LeafNode<V>, min: nat)
    requires WF(g, Leaf(l), 0, min) && Rep(g, s, Leaf(l))
    ensures LeafGood(g, s, l, min)
  {
  }

  lemma {:induction false} KidsLeaves<V>(g: Geometry, s: Store<V>, ts: seq<Tree<V>>, h: nat)
    requires WFAll(g, ts, h) && RepAll(g, s, ts)
    ensures LeavesGood(g, s, LeavesAll(ts), g.half)
    decreases ts, 0
  {
    hide LeafGood;
    if ts != [] {
      TreeLeaves(g, s, ts[0], h, g.half);
      KidsLeaves(g, s, ts[1..], h);
    }
  }

  /** Entries before, in and after the leaf `at`. */
  lemma {:induction false} ConcatAt<V>(ls: seq<LeafNode<V>>, at: nat)
    requires at < |ls|
    ensures Concat(ls) == Concat(ls[..at]) + ls[at].es + Concat(ls[at + 1..])
    ensures Concat(ls[..at + 1]) == Concat(ls[..at]) + ls[at].es
  {
    hide Concat;
    assert ls[..at + 1] == ls[..at] + [ls[at]];
    assert ls == ls[..at + 1] + ls[at + 1..];
    ConcatAppend(ls[..at + 1], ls[at + 1..]);
    BeforeLeaf(ls[..at], ls[at]);
  }

  lemma {:induction false} NoEntries<V>(ls: seq<LeafNode<V>>)
    requires ls == []
    ensures Concat(ls) == []
  {
  }

  /** What the chain and the leaf `at` show to an iterator. */
  lemma {:induction false} LeafInChain<V>(g: Geometry, s: Store<V>, t: Tree<V>, h: nat, at: nat)
    requires TreeOK(g, s, t, h) && at < |Leaves(t)|
    ensures var ls := Leaves(t); var l := ls[at];
      && LeafGood(g, s, l, if |ls| == 1 then 0 else g.half) && s.leaf[l.ref].Sized(g)
      && Link(g, s.leaf, l.ref) == NextLeaf(if at + 1 < |ls| then Some(ls[at + 1].ref) else None)
      && Flat(t) == Concat(ls[..at]) + l.es + Concat(ls[at + 1..])
      && Concat(ls[..at + 1]) == Concat(ls[..at]) + l.es
  {
    hide WF, Rep, Leaves, LeafCell, Concat;
    var ls := Leaves(t);
    TreeLeaves(g, s, t, h, RootMin(h));
    SingleLeaf(t, h, g);
    assert LeafGood(g, s, ls[at], if h == 0 then 0 else g.half);
    var refs := RefSeq(ls);
    assert refs[at] == ls[at].ref;
    if at + 1 < |ls| {
      assert refs[at + 1] == ls[at + 1].ref;
    }
    ConcatAt(ls, at);
  }

  lemma {:induction false} SingleLeaf<V>(t: Tree<V>, h: nat, g: Geometry)
    requires WF(g, t, h, RootMin(h))
    ensures h == 0 ==> |Leaves(t)| == 1
  {
  }

  /** The left-most leaf is node zero. */
  lemma {:induction false} FirstLeaf<V>(g: Geometry, s: Store<V>, t: Tree<V>, h: nat)
    requires TreeOK(g, s, t, h)
    ensures Leaves(t) != [] && Leaves(t)[0].ref == 0 && Concat(Leaves(t)[..0]) == []
  {
    hide WF, Rep, Leaves, Chain;
    assert RefSeq(Leaves(t))[0] == Leaves(t)[0].ref;
  }

  /** A tree with internal nodes is not empty; a root leaf shows in its first pivot whether it is. */
  lemma {:induction false} EmptyTest<V>(g: Geometry, s: Store<V>, t: Tree<V>, h: nat)
    requires TreeOK(g, s, t, h)
    ensures h > 0 ==> Flat(t) != []
    ensures h == 0 ==>
      t.Ref() < |s.leaf| && s.leaf[t.Ref()].Sized(g) && (s.leaf[t.Ref()].pivots[0] == g.max <==> Flat(t) == [])
  {
    hide Chain, Concat;
    FirstLeaf(g, s, t, h);
    LeafInChain(g, s, t, h, 0);
    TreeLeaves(g, s, t, h, RootMin(h));
    assert LeafGood(g, s, Leaves(t)[0], if h == 0 then 0 else g.half);
    if h == 0 {
      NoEntries(Leaves(t)[1..]);
    }
  }

  // ---- Bounds and gaps ----

  datatype Bound = Included(x: nat) | Excluded(x: nat) | Unbounded

  /** The raw pivot from which to iterate; nothing for the very start. */
  function BoundsStart(b: Bound): Option<nat> {
    match b
    case Included(x) => Some(x)
    case Excluded(x) => Some(x + 1)
    case Unbounded => None
  }

  /** The raw pivot before which to stop. */
  function BoundsEnd(b: Bound, max: nat): nat {
    match b
    case Included(x) => x + 1
    case Excluded(x) => x
    case Unbounded => max
  }

  /** A position in the key space where a gap may start; none behind the last key. */
  function Behind(last: nat, max: nat): Option<Bound> {
    if last + 1 == max then None else Some(Included(last + 1))
  }

  /** Whether a gap that reaches up to a range is empty; gaps open at one side never count as empty. */
  predicate EmptyGap(from: Bound, to: Bound) {
    from.Included? && to.Excluded? && from.x >= to.x
  }

  /** The gaps that follow from `from` on, given the ranges that are still to come. */
  function GapsFrom<V>(from: Option<Bound>, es: seq<Entry<V>>, max: nat): seq<(Bound, Bound)>
    decreases |es|
  {
    match from
    case None => []
    case Some(b) =>
      if es == [] then [(b, Unbounded)]
      else (if EmptyGap(b, Excluded(es[0].start)) then [] else [(b, Excluded(es[0].start))])
           + GapsFrom(Behind(es[0].last, max), es[1..], max)
  }

  predicate InGap(gap: (Bound, Bound), x: nat) {
    && (gap.0.Included? ==> gap.0.x <= x) && (gap.0.Excluded? ==> gap.0.x < x)
    && (gap.1.Included? ==> x <= gap.1.x) && (gap.1.Excluded? ==> x < gap.1.x)
  }

  predicate Reaches(from: Option<Bound>, x: nat) {
    from.Some? && InGap((from.value, Unbounded), x)
  }

  ghost predicate InSomeGap(gaps: seq<(Bound, Bound)>, x: nat) {
    exists k :: 0 <= k < |gaps| && InGap(gaps[k], x)
  }

  ghost predicate InSomeRange<V>(es: seq<Entry<V>>, x: nat) {
    exists k :: 0 <= k < |es| && Contains(es[k], x)
  }

  lemma {:induction false} InSomeGapAppend(a: seq<(Bound, Bound)>, b: seq<(Bound, Bound)>, x: nat)
    ensures InSomeGap(a + b, x) <==> InSomeGap(a, x) || InSomeGap(b, x)
  {
    var ab := a + b;
    if InSomeGap(a, x) {
      var k :| 0 <= k < |a| && InGap(a[k], x);
      assert ab[k] == a[k];
    }
    if InSomeGap(b, x) {
      var k :| 0 <= k < |b| && InGap(b[k], x);
      assert ab[|a| + k] == b[k];
    }
    if InSomeGap(ab, x) {
      var k :| 0 <= k < |ab| && InGap(ab[k], x);
      assert ab[k] == if k < |a| then a[k] else b[k - |a|];
    }
  }

  lemma {:induction false} InSomeRangeCons<V>(es: seq<Entry<V>>, x: nat)
    requires es != []
    ensures InSomeRange(es, x) <==> Contains(es[0], x) || InSomeRange(es[1..], x)
  {
    if InSomeRange(es[1..], x) {
      var k :| 0 <= k < |es[1..]| && Contains(es[1..][k], x);
      assert Contains(es[k + 1], x);
    }
    if InSomeRange(es, x) {
      var k :| 0 <= k < |es| && Contains(es[k], x);
      assert k > 0 ==> es[1..][k - 1] == es[k];
    }
  }

  /** From any starting point on, a key lies in a gap exactly when it lies in no stored range. */
  lemma {:induction false} GapsFill<V>(from: Option<Bound>, es: seq<Entry<V>>, max: nat, x: nat)
    requires Ordered(es) && (forall i | 0 <= i < |es| :: es[i].last < max) && x < max
    requires from.Some? ==>
      !from.value.Excluded? && (from.value.Included? && es != [] ==> from.value.x <= es[0].start + 1)
    ensures InSomeGap(GapsFrom(from, es, max), x) <==> Reaches(from, x) && !InSomeRange(es, x)
    decreases |es|
  {
    if from.Some? {
      var b := from.value;
      if es == [] {
        assert GapsFrom(from, es, max)[0] == (b, Unbounded);
      } else {
        var gap, rest := (b, Excluded(es[0].start)), es[1..];
        var first := if EmptyGap(b, gap.1) then [] else [gap];
        var next := Behind(es[0].last, max);
        InSomeGapAppend(first, GapsFrom(next, rest, max), x);
        InSomeRangeCons(es, x);
        assert InSomeGap([gap], x) <==> InGap(gap, x) by { assert [gap][0] == gap; }
        assert rest != [] ==> rest[0] == es[1];
        GapsFill(next, rest, max, x);
        assert x < es[0].start ==> !InSomeRange(es, x);
      }
    }
  }

  /**
   The gaps of a tree are exactly the keys that no stored range contains; the first one is open
   below; the last one is open above exactly when the key space does not end with a stored range.
   */
  lemma {:induction false} GapsAreTheRest<V>(es: seq<Entry<V>>, max: nat)
    requires Ordered(es) && forall i | 0 <= i < |es| :: es[i].last < max
    ensures var gaps := GapsFrom(Some(Unbounded), es, max);
      && (forall x | 0 <= x < max :: InSomeGap(gaps, x) <==> !InSomeRange(es, x))
      && gaps != [] && gaps[0].0 == Unbounded
      && (gaps[|gaps| - 1].1 == Unbounded <==> es == [] || es[|es| - 1].last + 1 < max)
  {
    forall x | 0 <= x < max ensures InSomeGap(GapsFrom(Some(Unbounded), es, max), x) <==> !InSomeRange(es, x) {
      GapsFill(Some(Unbounded), es, max, x);
    }
    GapsEnd(Unbounded, es, max);
  }

  lemma {:induction false} GapsEnd<V>(b: Bound, es: seq<Entry<V>>, max: nat)
    requires forall i | 0 <= i < |es| :: es[i].last < max
    requires Ordered(es)
    ensures var gaps := GapsFrom(Some(b), es, max);
      && (b == Unbounded ==> gaps != [] && gaps[0].0 == Unbounded)
      && (es == [] || es[|es| - 1].last + 1 < max ==> gaps != [] && gaps[|gaps| - 1].1 == Unbounded)
      && (es != [] && es[|es| - 1].last + 1 == max ==> forall k | 0 <= k < |gaps| :: gaps[k].1 != Unbounded)
    decreases |es|
  {
    if es != [] {
      var rest, next := es[1..], Behind(es[0].last, max);
      assert rest != [] ==> rest[|rest| - 1] == es[|es| - 1];
      if next.Some? {
        GapsEnd(next.value, rest, max);
      }
    }
  }

  // ---- What iterators use ----

  /** The place of a path's leaf in the chain. */
  lemma {:induction false} PathToChain<V>(l: LeafNode<V>, ctx: seq<Frame<V>>, pos: nat)
    requires pos <= |l.es| && (pos == |l.es| ==> RightEdge(ctx))
    ensures var ls, at := Leaves(Plug(Leaf(l), ctx)), |LeavesBefore(ctx)|;
      && at < |ls| && ls[at] == l && ls[..at] == LeavesBefore(ctx) && (pos == |l.es| ==> at + 1 == |ls|)
  {
    hide Plug, LeavesBefore, LeavesAfter, RightEdge, Leaves;
    PlugLeaves(Leaf(l), ctx);
    LeafFlat(l);
    if pos == |l.es| {
      EndIsLast(ctx);
    }
  }

  lemma {:induction false} KeysBelowMax<V>(g: Geometry, s: Store<V>, t: Tree<V>, h: nat)
    requires TreeOK(g, s, t, h)
    ensures forall i | 0 <= i < |Flat(t)| :: Flat(t)[i].last < g.max
  {
    hide Chain, Concat, Leaves;
    TreeLeaves(g, s, t, h, RootMin(h));
    ConcatBelowMax(g, s, Leaves(t));
  }

  lemma {:induction false} ConcatBelowMax<V>(g: Geometry, s: Store<V>, ls: seq<LeafNode<V>>)
    requires LeavesGood(g, s, ls, 0) || LeavesGood(g, s, ls, g.half)
    ensures forall i | 0 <= i < |Concat(ls)| :: Concat(ls)[i].last < g.max
  {
    hide LeafCell;
    if ls != [] {
      assert forall m | LeafGood(g, s, ls[0], m) :: forall i | 0 <= i < |ls[0].es| :: ls[0].es[i].last < g.max;
      ConcatBelowMax(g, s, ls[1..]);
    }
  }

  /** In a sorted sequence the entries below a key form a prefix. */
  lemma {:induction false} UpTo<V>(all: seq<Entry<V>>, from: nat, i: nat, end: nat)
    requires Sorted(all) && from <= i <= |all| && (i == from || all[i - 1].last < end)
    requires (i < |all| ==> end <= all[i].last)
    ensures var j := PartitionPoint(all, end); j <= |all| && i == if from <= j then j else from
  {
    var j := PartitionPoint(all, end);
    assert forall k | 0 <= k < j :: all[..j][k] == all[k] && all[k].last < end;
    if j < i - 1 {
      assert all[j].last <= all[i - 1].last;
    }
  }

  lemma {:induction false} GapsUnfold<V>(from: Bound, all: seq<Entry<V>>, i: nat, max: nat)
    requires i <= |all|
    ensures i == |all| ==>
      GapsFrom(Some(from), all[i..], max) == [(from, Unbounded)] && GapsFrom(None, all[i..], max) == []
    ensures i < |all| ==>
      var rest := GapsFrom(Behind(all[i].last, max), all[i + 1..], max);
      GapsFrom(Some(from), all[i..], max) == if EmptyGap(from, Excluded(all[i].start)) then rest
        else [(from, Excluded(all[i].start))] + rest
  {
    if i < |all| {
      assert all[i..][1..] == all[i + 1..] && all[i..][0] == all[i];
    }
  }

  lemma {:induction false} NoGaps<V>(es: seq<Entry<V>>, max: nat)
    ensures GapsFrom(None, es, max) == []
  {
  }

  // ---- Sorted trees have sorted nodes ----

  /** The right-most pivots of a node's children ascend with the sequence. */
  lemma {:induction false} LastsAscend<V>(g: Geometry, kids: seq<Tree<V>>, h: nat, i: nat, j: nat)
    requires WFAll(g, kids, h) && 0 <= i < j < |kids| && Sorted(FlatAll(kids))
    ensures Last(kids[i]) <= Last(kids[j])
  {
    hide WF, Last, LeavesAll, Concat;
    var a, b, c := kids[..i + 1], kids[i + 1..j + 1], kids[j + 1..];
    assert kids[..j + 1] == a + b && kids == (a + b) + c;
    FinalOfAll(g, a, h);
    FinalOfAll(g, a + b, h);
    LeavesAllAppend(a, b);
    ConcatAppend(LeavesAll(a), LeavesAll(b));
    LeavesAllAppend(a + b, c);
    ConcatAppend(LeavesAll(a + b), LeavesAll(c));
    var all, x, y := FlatAll(kids), |FlatAll(a)| - 1, |FlatAll(a + b)| - 1;
    assert all[x] == FlatAll(a)[x] && all[y] == FlatAll(a + b)[y];
  }

  lemma {:induction false} InnerAscends<V>(g: Geometry, c: Cell<nat>, kids: seq<Tree<V>>, h: nat)
    requires WFAll(g, kids, h) && Sorted(FlatAll(kids)) && InnerCell(g, c, Lasts(kids), Refs(kids))
    ensures Ascending(c.pivots)
  {
    hide WF, Last, FlatAll, Sorted, Refs;
    forall i | 0 <= i < |kids| ensures Last(kids[i]) < g.max {
      LastIsFinal(g, kids[i], h, g.half);
    }
    forall i, j | 0 <= i < j < |kids| ensures Last(kids[i]) <= Last(kids[j]) {
      LastsAscend(g, kids, h, i, j);
    }
  }

  lemma {:induction false} SortedPart<V>(b: seq<Entry<V>>, es: seq<Entry<V>>, a: seq<Entry<V>>)
    requires Sorted(b + es + a)
    ensures Sorted(es)
  {
    assert forall i | 0 <= i < |es| :: es[i] == (b + es + a)[|b| + i];
  }

  /** So in a sorted tree the pivots of every node are sorted, which searching a node relies on. */
  lemma {:induction false} NodesAscend<V>(g: Geometry, s: Store<V>, t: Tree<V>, ctx: seq<Frame<V>>, h: nat)
    requires TreeOK(g, s, Plug(t, ctx), h + |ctx|) && Sorted(Flat(Plug(t, ctx)))
    ensures t.Leaf? ==> t.leaf.ref < |s.leaf| && s.leaf[t.leaf.ref].Sized(g) && Ascending(s.leaf[t.leaf.ref].pivots)
    ensures t.Inner? ==> t.id < |s.inner| && s.inner[t.id].Sized(g) && Ascending(s.inner[t.id].pivots)
  {
    hide TreeOK, Plug, Last, LeavesAll, Concat, Sorted, Ascending, RepCtx, WFCtx, Before, After;
    Open(g, s, t, ctx, h);
    PlugFlat(t, ctx);
    SortedPart(Before(ctx), Flat(t), After(ctx));
    match t
    case Leaf(l) =>
      LeafFlat(l);
      LeafAscends(g, s.leaf[l.ref], l.es);
    case Inner(id, kids) =>
      InnerAscends(g, s.inner[id], kids, h - 1);
  }

  lemma {:induction false} LeafAscends<V>(g: Geometry, c: Cell<Item<V>>, es: seq<Entry<V>>)
    requires LeafCell(g, c, es) && Sorted(es) && forall i | 0 <= i < |es| :: es[i].last < g.max
    ensures Ascending(c.pivots)
  {
  }

  /** Every search of a node is right: for any key in a sorted tree, and for the absent key in every tree. */
  lemma {:induction false} NodesSearchable<V>(g: Geometry, s: Store<V>, t: Tree<V>, ctx: seq<Frame<V>>, h: nat,
                                              key: nat)
    requires TreeOK(g, s, Plug(t, ctx), h + |ctx|) && (Sorted(Flat(Plug(t, ctx))) || key == g.max)
    ensures t.Leaf? ==>
      t.leaf.ref < |s.leaf| && s.leaf[t.leaf.ref].Sized(g) && Partitioned(s.leaf[t.leaf.ref].pivots, key)
    ensures t.Inner? ==> t.id < |s.inner| && s.inner[t.id].Sized(g) && Partitioned(s.inner[t.id].pivots, key)
  {
    hide TreeOK, Plug, Last, LeavesAll, Concat, Sorted, Ascending, RepCtx, WFCtx, Before, After, Partitioned;
    Open(g, s, t, ctx, h);
    if Sorted(Flat(Plug(t, ctx))) {
      NodesAscend(g, s, t, ctx, h);
      AscendingPartitioned(if t.Leaf? then s.leaf[t.leaf.ref].pivots else s.inner[t.id].pivots, key);
    } else {
      match t
      case Leaf(l) =>
        AbsentLast(s.leaf[l.ref].pivots, |l.es|, g.max);
      case Inner(id, kids) =>
        forall i | 0 <= i < |kids| ensures Last(kids[i]) < g.max {
          LastIsFinal(g, kids[i], h - 1, g.half);
        }
        AbsentLast(s.inner[id].pivots, |kids| - 1, g.max);
    }
  }

  /** With nothing but the largest key stored, the only gap is below it. */
  lemma {:induction false} NoOpenGap<V>(max: nat, v: V)
    requires max > 0
    ensures GapsFrom(Some(Unbounded), [Entry(max - 1, max - 1, v)], max) == [(Unbounded, Excluded(max - 1))]
  {
    var e := Entry(max - 1, max - 1, v);
    assert [e][1..] == [];
    assert GapsFrom<V>(None, [], max) == [];
  }

  // ---- What bounds select ----

  /** The entries whose last element the bounds admit, in order. */
  function Selected<V>(es: seq<Entry<V>>, from: Bound, to: Bound): seq<Entry<V>> {
    if es == [] then []
    else (if InGap((from, to), es[0].last) then [es[0]] else []) + Selected(es[1..], from, to)
  }

  /** Where they are the entries of one slice, they are that slice. */
  lemma {:induction false} SelectedSlice<V>(es: seq<Entry<V>>, from: Bound, to: Bound, i: nat, j: nat)
    requires i <= j <= |es| && forall k | 0 <= k < |es| :: InGap((from, to), es[k].last) <==> i <= k < j
    ensures Selected(es, from, to) == es[i..j]
    decreases |es|
  {
    hide InGap;
    if es != [] {
      var rest := es[1..];
      var i', j' := if i == 0 then 0 else i - 1, if j == 0 then 0 else j - 1;
      forall k | 0 <= k < |rest| ensures InGap((from, to), rest[k].last) <==> i' <= k < j' {
        assert rest[k] == es[k + 1];
      }
      SelectedSlice(rest, from, to, i', j');
      assert InGap((from, to), es[0].last) <==> i <= 0 < j;
      assert es == [es[0]] + rest;
    }
  }

  /** The positions of the two bounds enclose what they select. */
  lemma {:induction false} BoundsSelect<V>(es: seq<Entry<V>>, from: Bound, to: Bound, max: nat, i: nat, j: nat)
    requires Sorted(es) && forall k | 0 <= k < |es| :: es[k].last < max
    requires i == match BoundsStart(from) { case None => 0 case Some(k) => PartitionPoint(es, k) }
    requires j == PartitionPoint(es, BoundsEnd(to, max)) && i <= |es|
    ensures Selected(es, from, to) == es[i..if i <= j then j else i]
  {
    var start, end := BoundsStart(from), BoundsEnd(to, max);
    forall k | 0 <= k < |es| ensures InGap((from, to), es[k].last) <==> i <= k < if i <= j then j else i {
      if start.Some? {
        AtOrBehind(es, start.value, i, k);
      }
      AtOrBehind(es, end, j, k);
    }
    SelectedSlice(es, from, to, i, if i <= j then j else i);
  }

  lemma {:induction false} AtOrBehind<V>(es: seq<Entry<V>>, key: nat, i: nat, k: nat)
    requires Sorted(es) && i == PartitionPoint(es, key) && k < |es|
    ensures i <= |es| && (i <= k <==> key <= es[k].last)
  {
    assert IsLowerBound(es, i, key);
    if k < i {
      assert es[..i][k] == es[k];
    } else if i < k {
      assert es[i].last <= es[k].last;
    }
  }

  // ---- No gap is empty, and none comes twice ----

  ghost predicate HasKey(gap: (Bound, Bound), max: nat) {
    exists x: nat :: x < max && InGap(gap, x)
  }

  /** Every key of an earlier gap is below every key of a later one. */
  ghost predicate Apart(gaps: seq<(Bound, Bound)>) {
    forall i, j, x: nat, y: nat | 0 <= i < j < |gaps| && InGap(gaps[i], x) && InGap(gaps[j], y) :: x < y
  }

  /** No gap has a key below `lo`. */
  ghost predicate AllFrom(gaps: seq<(Bound, Bound)>, lo: nat) {
    forall k, x: nat | 0 <= k < |gaps| && InGap(gaps[k], x) :: lo <= x
  }

  ghost predicate AllHaveKeys(gaps: seq<(Bound, Bound)>, max: nat) {
    forall k | 0 <= k < |gaps| :: HasKey(gaps[k], max)
  }

  lemma {:induction false} ApartCons(gap: (Bound, Bound), tail: seq<(Bound, Bound)>, lo: nat)
    requires Apart(tail) && AllFrom(tail, lo) && forall x: nat | InGap(gap, x) :: x < lo
    ensures Apart([gap] + tail)
  {
    hide InGap;
    var gaps := [gap] + tail;
    forall i, j, x: nat, y: nat | 0 <= i < j < |gaps| && InGap(gaps[i], x) && InGap(gaps[j], y) ensures x < y {
      assert gaps[j] == tail[j - 1] && (i > 0 ==> gaps[i] == tail[i - 1]);
    }
  }

  lemma {:induction false} AllFromCons(gap: (Bound, Bound), tail: seq<(Bound, Bound)>, lo: nat, max: nat)
    ensures AllFrom([gap] + tail, lo) <==> (forall x: nat | InGap(gap, x) :: lo <= x) && AllFrom(tail, lo)
    ensures AllHaveKeys([gap] + tail, max) <==> HasKey(gap, max) && AllHaveKeys(tail, max)
  {
    hide InGap, HasKey;
    var gaps := [gap] + tail;
    assert gaps[0] == gap && forall k | 0 <= k < |tail| :: gaps[k + 1] == tail[k];
    assert forall k | 0 < k < |gaps| :: gaps[k] == tail[k - 1];
  }

  lemma {:induction false} FewGaps(gap: (Bound, Bound), lo: nat, max: nat)
    ensures AllHaveKeys([], max) && Apart([]) && AllFrom([], lo) && Apart([gap])
  {
  }

  lemma {:induction false} AllFromLess(gaps: seq<(Bound, Bound)>, lo: nat, lo': nat)
    requires AllFrom(gaps, lo) && lo' <= lo
    ensures AllFrom(gaps, lo')
  {
  }

  /** A gap that does not count as empty has a key. */
  lemma {:induction false} FirstKey(lo: nat, to: Bound, max: nat)
    requires lo < max && !to.Included? && !EmptyGap(Included(lo), to)
    ensures HasKey((Included(lo), to), max)
  {
    assert InGap((Included(lo), to), lo);
  }

  /** From a key on, all gaps have keys, and none below that key. */
  lemma {:induction false} GapsAfter<V>(from: Option<Bound>, es: seq<Entry<V>>, max: nat, lo: nat)
    requires Ordered(es) && (forall i | 0 <= i < |es| :: es[i].last < max) && (es != [] ==> lo <= es[0].start + 1)
    requires from.Some? ==> from.value == Included(lo) && lo < max
    ensures var gaps := GapsFrom(from, es, max); AllHaveKeys(gaps, max) && Apart(gaps) && AllFrom(gaps, lo)
    decreases |es|
  {
    hide HasKey, AllHaveKeys, Apart, AllFrom;
    var gap := (Included(lo), if es == [] then Unbounded else Excluded(es[0].start));
    FewGaps(gap, lo, max);
    if from.Some? {
      var tail := [];
      if es != [] {
        var rest, next, lo' := es[1..], Behind(es[0].last, max), es[0].last + 1;
        assert rest != [] ==> rest[0] == es[1];
        GapsAfter(next, rest, max, lo');
        tail := GapsFrom(next, rest, max);
        ApartCons(gap, tail, lo');
        AllFromLess(tail, lo', lo);
      }
      if !EmptyGap(gap.0, gap.1) {
        FirstKey(lo, gap.1, max);
        AllFromCons(gap, tail, lo, max);
        assert es == [] ==> [gap] + tail == [gap];
      } else {
        assert [] + tail == tail;
      }
    }
  }

  /** No gap but the first, which is open below, is without keys, and the gaps follow each other in the order of
      keys. */
  lemma {:induction false} GapsListed<V>(es: seq<Entry<V>>, max: nat)
    requires Ordered(es) && forall i | 0 <= i < |es| :: es[i].last < max
    ensures var gaps := GapsFrom(Some(Unbounded), es, max); gaps != [] && AllHaveKeys(gaps[1..], max) && Apart(gaps)
  {
    hide HasKey, AllHaveKeys, Apart, AllFrom;
    var gap := (Unbounded, if es == [] then Unbounded else Excluded(es[0].start));
    FewGaps(gap, 0, max);
    if es == [] {
      assert [gap][1..] == [];
    } else {
      var rest, next, lo := es[1..], Behind(es[0].last, max), es[0].last + 1;
      assert rest != [] ==> rest[0] == es[1];
      GapsAfter(next, rest, max, lo);
      var tail := GapsFrom(next, rest, max);
      ApartCons(gap, tail, lo);
      assert ([gap] + tail)[1..] == tail;
    }
  }
}
