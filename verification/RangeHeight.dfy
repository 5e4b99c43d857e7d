/**
 How tall a tree can get (lib/range-tree/src/stack.rs). A pool holds at most `nodes` leaves; the bound is
 computed once, sizes the cursor's stack, and is what root growth relies on.
 */
module Heights {
  import opened Nodes
  import opened Shapes
  import opened Models
  import opened Cells
  import opened Paths
  import opened Slimming
  import opened Realizing
  import opened Cursors

  function Pow(b: nat, e: nat): nat {
    if e == 0 then 1 else b * Pow(b, e - 1)
  }

  /** The fewest leaves that a tree of height `h` can have. */
  function MinLeaves(half: nat, h: nat): nat {
    if h == 0 then 1 else 2 * Pow(half, h - 1)
  }

  function DivCeil(a: nat, b: nat): nat
    requires b > 0
  {
    (a + b - 1) / b
  }

  lemma {:induction false} PowGrows(b: nat, e: nat)
    requires b > 0
    ensures Pow(b, e) > 0
  {
    if e > 0 {
      PowGrows(b, e - 1);
      assert b * Pow(b, e - 1) >= 1;
    }
  }

  /** Rounding up: `c` is below the quotient exactly when `b * c` is below `a`. */
  lemma {:induction false} DivCeilBelow(a: nat, b: nat, c: nat)
    requires b > 0
    ensures c < DivCeil(a, b) <==> b * c < a
  {
    var n := a + b - 1;
    var q := n / b;
    assert n == b * q + n % b;
    if c < q {
      assert b * (c + 1) <= b * q by { MulMonotone(b, c + 1, q); }
      assert b * (c + 1) == b * c + b;
    } else {
      assert b * q <= b * c by { MulMonotone(b, q, c); }
    }
  }

  lemma {:induction false} MulMonotone(b: nat, x: nat, y: nat)
    requires x <= y
    ensures b * x <= b * y
  {
  }

  lemma {:induction false} Shrinks(nodes: nat, half: Half)
    requires nodes >= 2 * half
    ensures 1 < DivCeil(nodes, half) < nodes
  {
    DivCeilBelow(nodes, half, 1);
    DivCeilBelow(nodes, half, nodes - 1);
    assert half * (nodes - 1) >= 2 * (nodes - 1) by { MulMonotone(nodes - 1, 2, half); }
  }

  /** Levels above `nodes` nodes when all internal nodes but the root are half full. */
  function Worst(nodes: nat, half: Half): nat
    decreases nodes
  {
    if nodes <= 1 then 0
    else if nodes < 2 * half then 1
    else
      Shrinks(nodes, half);
      1 + Worst(DivCeil(nodes, half), half)
  }

  /** The loop that computes the worst case. */
  method MaxHeight(maxNodes: nat, half: Half) returns (height: nat)
    ensures height == Worst(maxNodes, half)
  {
    var nodes: nat := maxNodes;
    height := 0;
    while nodes > 1
      invariant height + Worst(nodes, half) == Worst(maxNodes, half)
    {
      height := height + 1;
      if nodes < 2 * half {
        break;
      }
      Shrinks(nodes, half);
      nodes := DivCeil(nodes, half);
    }
  }

  lemma {:induction false} WorstUnfold(nodes: nat, half: Half, less: nat)
    requires half * (less - 1) < nodes <= half * less && nodes >= 2 * half
    ensures less == DivCeil(nodes, half) && Worst(nodes, half) == 1 + Worst(less, half)
  {
    hide DivCeil;
    Shrinks(nodes, half);
    DivCeilBelow(nodes, half, less);
    DivCeilBelow(nodes, half, less - 1);
  }

  lemma {:induction false} DivCeilSpan(nodes: nat, half: Half)
    requires nodes > 0
    ensures var less := DivCeil(nodes, half); less > 0 && half * (less - 1) < nodes <= half * less
  {
    hide DivCeil;
    DivCeilBelow(nodes, half, 0);
    var less := DivCeil(nodes, half);
    DivCeilBelow(nodes, half, less);
    DivCeilBelow(nodes, half, less - 1);
  }

  lemma {:induction false} WorstSmall(nodes: nat, half: Half)
    requires nodes < 2 * half
    ensures Worst(nodes, half) == if nodes <= 1 then 0 else 1
  {
  }

  lemma {:induction false} PowUnfold(b: nat, e: nat)
    ensures Pow(b, 0) == 1 && Pow(b, e + 1) == b * Pow(b, e)
  {
  }

  lemma {:induction false} OddFull(half: Half, k: nat)
    requires k >= 3
    ensures (2 * half - 1) * Pow(half, k - 2) == half * ((2 * half - 1) * Pow(half, k - 3)) >= 2 * half - 1
  {
    hide Pow;
    PowUnfold(half, k - 3);
    PowGrows(half, k - 3);
    var m, p := 2 * half - 1, Pow(half, k - 3);
    assert m * (half * p) == half * (m * p);
    MulMonotone(m, 1, p);
    MulMonotone(m * p, 1, half);
  }

  /** From the second level on, a level is counted exactly when rounding leaves a full node below it. */
  lemma {:induction false} WorstIff(nodes: nat, half: Half, k: nat)
    requires k >= 2
    ensures k <= Worst(nodes, half) <==> (2 * half - 1) * Pow(half, k - 2) < nodes
  {
    hide Worst, Pow, DivCeil;
    PowUnfold(half, 0);
    if k > 2 {
      OddFull(half, k);
    }
    if nodes < 2 * half {
      WorstSmall(nodes, half);
    } else {
      var less := DivCeil(nodes, half);
      DivCeilSpan(nodes, half);
      WorstUnfold(nodes, half, less);
      Shrinks(nodes, half);
      if k == 2 {
        AboveOne(less, half);
      } else {
        WorstIff(less, half, k - 1);
        DivCeilBelow(nodes, half, (2 * half - 1) * Pow(half, k - 3));
      }
    }
  }

  lemma {:induction false} AboveOne(nodes: nat, half: Half)
    requires nodes > 1
    ensures Worst(nodes, half) >= 1
  {
  }

  /** A tree of height `k` fits into `nodes` leaves only if `k` is within the worst case. */
  lemma {:induction false} WorstCovers(nodes: nat, half: Half, k: nat)
    requires MinLeaves(half, k) <= nodes
    ensures k <= Worst(nodes, half)
  {
    if k >= 2 {
      WorstIff(nodes, half, k);
      PowGrows(half, k - 2);
      assert MinLeaves(half, k) == (2 * half) * Pow(half, k - 2);
      assert (2 * half - 1) * Pow(half, k - 2) == (2 * half) * Pow(half, k - 2) - Pow(half, k - 2);
    }
  }

  // ---- Trees ----

  /** A node of height `h` that is at least half full has at least `half` to the power `h` leaves. */
  lemma {:induction false} ManyLeaves<V>(g: Geometry, t: Tree<V>, h: nat)
    requires WF(g, t, h, g.half)
    ensures Pow(g.half, h) <= |Leaves(t)|
    decreases t, 1
  {
    match t
    case Leaf(l) =>
    case Inner(id, kids) =>
      ManyLeavesAll(g, kids, h - 1);
      MulMonotone(Pow(g.half, h - 1), g.half, |kids|);
  }

  lemma {:induction false} ManyLeavesAll<V>(g: Geometry, ts: seq<Tree<V>>, h: nat)
    requires WFAll(g, ts, h)
    ensures |ts| * Pow(g.half, h) <= |LeavesAll(ts)|
    decreases ts, 0
  {
    if ts != [] {
      ManyLeaves(g, ts[0], h);
      ManyLeavesAll(g, ts[1..], h);
      assert |ts| * Pow(g.half, h) == Pow(g.half, h) + |ts[1..]| * Pow(g.half, h);
    }
  }

  lemma {:induction false} RootLeaves<V>(g: Geometry, t: Tree<V>, h: nat)
    requires WF(g, t, h, RootMin(h))
    ensures MinLeaves(g.half, h) <= |Leaves(t)|
  {
    if h > 0 {
      ManyLeavesAll(g, t.kids, h - 1);
      MulMonotone(Pow(g.half, h - 1), 2, |t.kids|);
    }
  }

  /** Owned and free nodes together are all the nodes there are. */
  lemma {:induction false} AccountedCount(refs: multiset<nat>, free: seq<nat>, len: nat)
    requires Accounted(refs, free, len)
    ensures |refs| + |free| == len
    decreases len
  {
    var all: multiset<nat> := refs + multiset(free);
    CountBelow(all, len);
  }

  lemma {:induction false} CountBelow(all: multiset<nat>, len: nat)
    requires forall i: nat :: all[i] == if i < len then 1 else 0
    ensures |all| == len
    decreases len
  {
    if len == 0 {
      assert all == multiset{};
    } else {
      var less := all - multiset{len - 1};
      CountBelow(less, len - 1);
      assert all == less + multiset{len - 1};
    }
  }

  /** A tree in its pools has no more leaves than its leaf pool has nodes, and as many as its height asks for. */
  lemma {:induction false} FewestLeaves<V>(g: Geometry, s: Store<V>, t: Tree<V>, h: nat, leafFree: seq<nat>,
                                           innerFree: seq<nat>)
    requires Represented(g, s, t, h, leafFree, innerFree)
    ensures MinLeaves(g.half, h) <= |s.leaf|
  {
    hide Accounted, WF, Rep, Leaves, ChainFromZero, InnerRefs, FreeChain, MinLeaves;
    RootLeaves(g, t, h);
    AccountedCount(multiset(RefSeq(Leaves(t))), leafFree, |s.leaf|);
  }

  /** No tree in a pool of at most `nodes` leaves is taller than the computed maximum, so growing a root never fails. */
  lemma {:induction false} HeightWithinMax<V>(t: RangeTree<V>, nodes: nat)
    requires t.Valid() && |t.leaf.cells| <= nodes
    ensures t.height <= Worst(nodes, t.geo.half)
  {
    hide Accounted, WF, Rep, Leaves, ChainFromZero, InnerRefs, FreeChain, MinLeaves;
    FewestLeaves(t.geo, t.Mem(), t.shape, t.height, t.leaf.free, t.internal.free);
    WorstCovers(nodes, t.geo.half, t.height);
  }

  // ---- How large the stack must be ----

  /** A shape with as few leaves as its height allows; only its nodes matter, not their numbers or entries. */
  function Sparse<V>(g: Geometry, e: Entry<V>, h: nat, n: nat): Tree<V>
    decreases h
  {
    if h == 0 then Leaf(LeafNode(0, seq(n, _ => e)))
    else Inner(0, seq(n, _ => Sparse(g, e, h - 1, g.half)))
  }

  lemma {:induction false} SparseOK<V>(g: Geometry, e: Entry<V>, h: nat, n: nat)
    requires e.last < g.max && n < g.B()
    ensures WF(g, Sparse(g, e, h, n), h, n) && Entries(Sparse(g, e, h, n)) == n * Pow(g.half, h)
    ensures |Leaves(Sparse(g, e, h, n))| == if h == 0 then 1 else n * Pow(g.half, h - 1)
    decreases h
  {
    if h > 0 {
      var k := Sparse(g, e, h - 1, g.half);
      SparseOK(g, e, h - 1, g.half);
      assert |Leaves(k)| == Pow(g.half, h - 1) && Entries(k) == Pow(g.half, h);
      Copies(k, n);
    }
  }

  lemma {:induction false} Copies<V>(k: Tree<V>, n: nat)
    ensures |LeavesAll(seq(n, _ => k))| == n * |Leaves(k)| && EntriesAll(seq(n, _ => k)) == n * Entries(k)
  {
    if n > 0 {
      assert seq(n, _ => k)[1..] == seq(n - 1, _ => k);
      Copies(k, n - 1);
      assert n * |Leaves(k)| == |Leaves(k)| + (n - 1) * |Leaves(k)|;
      assert n * Entries(k) == Entries(k) + (n - 1) * Entries(k);
    }
  }

  /** Any entries, if there are as many as fit a tree with half-full nodes, are the contents of such a tree in its
      pools. */
  lemma {:induction false} HalfFull<V>(g: Geometry, h: nat, es: seq<Entry<V>>) returns (s: Store<V>, t: Tree<V>)
    requires h > 0 && |es| == 2 * Pow(g.half, h) && Present(g, es)
    ensures Represented(g, s, t, h, [], []) && Flat(t) == es && |s.leaf| == MinLeaves(g.half, h)
  {
    hide Represented, Sparse, WF, Leaves, Flat, Entries, Pow;
    PowGrows(g.half, h);
    SparseOK(g, es[0], h, 2);
    s, t := Realize(g, Sparse(g, es[0], h, 2), h, es);
  }

  /**
   The stack has as many entries as the maximum height, one fewer than a tree of that height has
   levels. The limits on the nodes keep every tree in its pools below the maximum exactly when the
   fewest leaves of a tree of that height do not fit into the pool.
   */
  lemma {:induction false} StackLargeEnoughIff<V>(g: Geometry, e: Entry<V>, nodes: nat)
    requires e.last < g.max
    ensures var max := Worst(nodes, g.half);
      (forall s: Store<V>, t, h: nat, leafFree, innerFree | Represented(g, s, t, h, leafFree, innerFree)
        && |s.leaf| <= nodes :: h < max)
      <==> nodes < MinLeaves(g.half, max)
  {
    hide Represented, Worst, Pow;
    var max := Worst(nodes, g.half);
    if nodes < MinLeaves(g.half, max) {
      forall s: Store<V>, t, h: nat, leafFree, innerFree | Represented(g, s, t, h, leafFree, innerFree)
        && |s.leaf| <= nodes ensures h < max {
        FewestLeaves(g, s, t, h, leafFree, innerFree);
        WorstCovers(nodes, g.half, h);
      }
    } else if max == 0 {
      var s, t := Realize<V>(g, Leaf(LeafNode(0, [])), 0, []);
    } else {
      var s, t := HalfFull(g, max, seq(2 * Pow(g.half, max), _ => e));
    }
  }

  // ---- Growing to any height ----

  lemma {:induction false} ExactEntries<V>(g: Geometry, t: Tree<V>, h: nat)
    requires Exact(g, t, h)
    ensures |Flat(t)| == Pow(g.half, h + 1)
    decreases t, 1
  {
    match t
    case Leaf(l) =>
      assert Concat([l]) == l.es + Concat<V>([]) == l.es;
    case Inner(_, kids) =>
      ExactEntriesAll(g, kids, h - 1);
  }

  lemma {:induction false} ExactEntriesAll<V>(g: Geometry, ts: seq<Tree<V>>, h: nat)
    requires ExactAll(g, ts, h)
    ensures |FlatAll(ts)| == |ts| * Pow(g.half, h + 1)
    decreases ts, 0
  {
    if ts != [] {
      ExactEntries(g, ts[0], h);
      ExactEntriesAll(g, ts[1..], h);
      ConcatAppend(Leaves(ts[0]), LeavesAll(ts[1..]));
      assert |ts| * Pow(g.half, h + 1) == Pow(g.half, h + 1) + |ts[1..]| * Pow(g.half, h + 1);
    }
  }

  /** A tree that only grew at its end has few entries for its height. */
  lemma {:induction false} SlimEntries<V>(g: Geometry, t: Tree<V>, h: nat, min: nat)
    requires Slim(g, t, h) && WF(g, t, h, min)
    ensures |Flat(t)| < 2 * Pow(g.half, h + 1)
    decreases t
  {
    hide Exact, Pow, Flat;
    match t
    case Leaf(l) =>
      PowUnfold(g.half, 0);
      LeafFlat(l);
    case Inner(id, kids) =>
      var n := |kids| - 1;
      ExactEntriesAll(g, kids[..n], h - 1);
      SlimEntries(g, kids[n], h - 1, g.half);
      LastApart(id, kids);
      OneLevelUp(g.half, h, n);
  }

  lemma {:induction false} LastApart<V>(id: nat, kids: seq<Tree<V>>)
    requires kids != []
    ensures var n := |kids| - 1; |Flat(Inner(id, kids))| == |FlatAll(kids[..n])| + |Flat(kids[n])|
  {
    hide Concat, LeavesAll;
    var n := |kids| - 1;
    assert kids == kids[..n] + [kids[n]] + [];
    LeavesAround(kids[..n], kids[n], []);
    NoTrees<V>();
    var a, b := LeavesAll(kids[..n]), Leaves(kids[n]);
    assert Leaves(Inner(id, kids)) == a + b + [] == a + b;
    ConcatAppend(LeavesAll(kids[..n]), Leaves(kids[n]));
  }

  lemma {:induction false} NoTrees<V>()
    ensures LeavesAll<V>([]) == []
  {
  }

  lemma {:induction false} OneLevelUp(half: Half, h: nat, n: nat)
    requires n <= 2 * half - 2
    ensures n * Pow(half, h) + 2 * Pow(half, h) <= 2 * Pow(half, h + 1)
  {
    hide Pow;
    PowUnfold(half, h);
    var p := Pow(half, h);
    MulMonotone(p, n + 2, 2 * half);
    assert (n + 2) * p == n * p + 2 * p && (2 * half) * p == 2 * (half * p);
  }

  /** Every leaf but a root is at least half full. */
  lemma {:induction false} HalfEntries<V>(g: Geometry, t: Tree<V>, h: nat)
    requires WF(g, t, h, g.half)
    ensures g.half * |Leaves(t)| <= |Flat(t)|
    decreases t, 1
  {
    match t
    case Leaf(l) =>
      assert Concat([l]) == l.es + Concat<V>([]) == l.es;
    case Inner(_, kids) =>
      HalfEntriesAll(g, kids, h - 1);
  }

  lemma {:induction false} HalfEntriesAll<V>(g: Geometry, ts: seq<Tree<V>>, h: nat)
    requires WFAll(g, ts, h)
    ensures g.half * |LeavesAll(ts)| <= |FlatAll(ts)|
    decreases ts, 0
  {
    if ts != [] {
      hide WF, Leaves, Concat;
      HalfEntries(g, ts[0], h);
      HalfEntriesAll(g, ts[1..], h);
      ConcatAppend(Leaves(ts[0]), LeavesAll(ts[1..]));
      Distribute(g.half, |Leaves(ts[0])|, |LeavesAll(ts[1..])|);
    }
  }

  lemma {:induction false} Distribute(b: nat, x: nat, y: nat)
    ensures b * (x + y) == b * x + b * y
  {
  }

  /** The entries that follow from the key zero on, one for each key. */
  function Points<V>(n: nat, v: V): seq<Entry<V>> {
    if n == 0 then [] else Points(n - 1, v) + [Entry(n - 1, n - 1, v)]
  }

  lemma {:induction false} PointsAt<V>(n: nat, v: V)
    ensures |Points(n, v)| == n && forall i | 0 <= i < n :: Points(n, v)[i] == Entry(i, i, v)
  {
    if n > 0 {
      PointsAt(n - 1, v);
    }
  }

  /** The next key goes behind all others. */
  lemma {:induction false} NextPoint<V>(n: nat, v: V)
    ensures PartitionPoint(Points(n, v), n) == |Points(n, v)| && Sorted(Points(n, v))
    ensures Step(Points(n, v), Insert(n, n, v)) == (Points(n + 1, v), Done)
  {
    PointsAt(n, v);
    var es := Points(n, v);
    PartitionUnique(es, n, n);
    assert InsertedAt(es, n, Entry(n, n, v)) == Points(n + 1, v);
    assert n > 0 ==> es[n - 1].last == n - 1;
  }

  lemma {:induction false} PowUp(b: nat, d: nat, e: nat)
    requires b > 0 && d <= e
    ensures Pow(b, d) <= Pow(b, e)
    decreases e
  {
    if d < e {
      PowUp(b, d, e - 1);
      MulMonotone(Pow(b, e - 1), 1, b);
    }
  }

  /** Inserting one key after the other leads to any height, with as few leaves as a tree of that height can have. */
  method Ascend<V>(g: Geometry, h: nat, v: V) returns (t: RangeTree<V>)
    requires h > 0 && 2 * Pow(g.half, h) <= g.max
    ensures fresh(t) && t.Valid() && t.geo == g && t.Contents() == Points(2 * Pow(g.half, h), v)
    ensures t.height == h && |t.leaf.cells| == MinLeaves(g.half, h)
  {
    hide *;
    var n := 2 * Pow(g.half, h);
    t := new RangeTree(g);
    NoPoints(v);
    for i := 0 to n
      invariant t.Valid() && fresh(t) && fresh(t.leaf) && fresh(t.internal) && t.geo == g
      invariant t.Contents() == Points(i, v) && t.GrownAtEnd()
    {
      NextPoint(i, v);
      var ok := t.Insert(i, i, v);
    }
    Ascended(t, h, v);
  }

  lemma {:induction false} NoPoints<V>(v: V)
    ensures Points(0, v) == []
  {
  }

  lemma {:induction false} Ascended<V>(t: RangeTree<V>, h: nat, v: V)
    requires t.Valid() && t.GrownAtEnd() && h > 0 && t.Contents() == Points(2 * Pow(t.geo.half, h), v)
    ensures t.height == h && |t.leaf.cells| == MinLeaves(t.geo.half, h)
  {
    hide Accounted, WF, Rep, Leaves, ChainFromZero, InnerRefs, FreeChain, Slim, Pow, Flat, Points, MinLeaves;
    var half, n := t.geo.half, |Leaves(t.shape)|;
    PointsAt(2 * Pow(half, h), v);
    SlimEntries(t.geo, t.shape, t.height, RootMin(t.height));
    assert t.height >= h by {
      if t.height < h {
        PowUp(half, t.height + 1, h);
      }
    }
    NotAlone(t.geo, t.shape, t.height);
    AccountedCount(multiset(RefSeq(Leaves(t.shape))), [], |t.leaf.cells|);
    FewestLeaves(t.geo, t.Mem(), t.shape, t.height, t.leaf.free, t.internal.free);
    OnlyHeight(half, h, t.height, n);
  }

  /** The number of leaves tells the height. */
  lemma {:induction false} OnlyHeight(half: Half, h: nat, k: nat, n: nat)
    requires 0 < h <= k && MinLeaves(half, k) <= n && half * n <= 2 * Pow(half, h)
    ensures k == h && n == MinLeaves(half, h)
  {
    hide Pow;
    PowUnfold(half, h - 1);
    Quarter(half, n, 2 * Pow(half, h - 1));
    if k > h {
      PowUp(half, h, k - 1);
      PowGrows(half, h - 1);
    }
  }

  lemma {:induction false} Quarter(b: nat, x: nat, y: nat)
    requires b > 0 && b * x <= b * y
    ensures x <= y
  {
    if y < x {
      MulMonotone(b, y + 1, x);
    }
  }

  lemma {:induction false} NotAlone<V>(g: Geometry, t: Tree<V>, h: nat)
    requires WF(g, t, h, RootMin(h)) && h > 0
    ensures g.half * |Leaves(t)| <= |Flat(t)|
  {
    HalfEntriesAll(g, t.kids, h - 1);
  }

  /** With 64-bit keys, nodes of 256 bytes and a pool of 2^32 - 1 bytes, inserting enough keys in order leads to the
      maximum height itself. */
  method StackTooSmallFor64Bit<V>(g: Geometry, v: V) returns (t: RangeTree<V>)
    requires g.half == 8 && 33554432 <= g.max
    ensures fresh(t) && t.Valid() && t.geo == g && t.Contents() == Points(33554432, v)
    ensures t.height == Worst(16777215, 8) && |t.leaf.cells| == 4194304 <= 16777215
  {
    hide *;
    SixtyFourBit();
    t := Ascend(g, 8, v);
  }

  lemma {:induction false} SixtyFourBit()
    ensures Worst(16777215, 8) == 8 && MinLeaves(8, 8) == 4194304 && 2 * Pow(8, 8) == 33554432
  {
    hide Worst, Pow;
    WorstUnfold(16777215, 8, 2097152);
    WorstUnfold(2097152, 8, 262144);
    WorstUnfold(262144, 8, 32768);
    WorstUnfold(32768, 8, 4096);
    WorstUnfold(4096, 8, 512);
    WorstUnfold(512, 8, 64);
    WorstUnfold(64, 8, 8);
    WorstSmall(8, 8);
    PowUnfold(8, 7);
    PowUnfold(8, 6);
    PowUnfold(8, 5);
    PowUnfold(8, 4);
    PowUnfold(8, 3);
    PowUnfold(8, 2);
    PowUnfold(8, 1);
    PowUnfold(8, 0);
  }
}
