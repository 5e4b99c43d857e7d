/**
 What each in-place node operation (lib/range-tree/src/node.rs:369-539) does to the
 children or entries that the node stands for.
 */
module Cells {
  import opened Options
  import opened Nodes
  import opened Shapes

  /** `s` with `x` inserted before index `i`. */
  function InsertedAt<X>(s: seq<X>, i: nat, x: X): (r: seq<X>)
    requires i <= |s|
    ensures |r| == |s| + 1
  {
    s[..i] + [x] + s[i..]
  }

  /** `s` without the element at index `i`. */
  function RemovedAt<X>(s: seq<X>, i: nat): (r: seq<X>)
    requires i < |s|
    ensures |r| == |s| - 1
  {
    s[..i] + s[i + 1..]
  }

  lemma {:induction false} InsertedMultiset(s: seq<nat>, i: nat, x: nat)
    requires i <= |s|
    ensures multiset(InsertedAt(s, i, x)) == multiset(s) + multiset{x}
  {
    assert s == s[..i] + s[i..];
    assert multiset(s[..i] + [x] + s[i..]) == multiset(s[..i]) + multiset([x]) + multiset(s[i..]);
  }

  lemma {:induction false} RemovedMultiset(s: seq<nat>, i: nat)
    requires i < |s|
    ensures multiset(RemovedAt(s, i)) == multiset(s) - multiset{s[i]}
  {
    assert s == s[..i] + [s[i]] + s[i + 1..];
    assert multiset(s) == multiset(s[..i]) + multiset([s[i]]) + multiset(s[i + 1..]);
  }

  // ---- Internal nodes ----

  /** A new child goes after child `i`; the old separator of `i` now separates the new child. */
  lemma {:induction false} InnerInsert(g: Geometry, c: Cell<nat>, lasts: seq<nat>, refs: seq<nat>, i: nat, mid: nat,
                                       ref: nat)
    requires InnerCell(g, c, lasts, refs) && i < |lasts| < g.B()
    ensures InnerCell(g, Live(InsertShift(c.pivots, i, g.B(), mid), InsertShift(c.slots, i + 1, g.B(), Value(ref))),
                      InsertedAt(lasts, i, mid), InsertedAt(refs, i + 1, ref))
  {
  }

  lemma {:induction false} InnerSplit(g: Geometry, c: Cell<nat>, lasts: seq<nat>, refs: seq<nat>)
    requires InnerCell(g, c, lasts, refs) && |lasts| == g.B()
    ensures var d := Live(c.pivots[g.half - 1 := g.max], c.slots);
            && InnerCell(g, LowerHalf(g, d), lasts[..g.half], refs[..g.half])
            && InnerCell(g, UpperHalf(g, d), lasts[g.half..], refs[g.half..])
  {
  }

  /** Merging child `i + 1` into child `i` drops the separator of `i` and the reference of `i + 1`. */
  lemma {:induction false} InnerRemove(g: Geometry, c: Cell<nat>, lasts: seq<nat>, refs: seq<nat>, i: nat)
    requires InnerCell(g, c, lasts, refs) && i + 1 < |lasts| < g.B()
    ensures InnerCell(g, Live(RemoveShift(c.pivots, i, g.max), RemoveShift(c.slots, i + 1, c.slots[g.B() - 1])),
                      RemovedAt(lasts, i), RemovedAt(refs, i + 1))
  {
  }

  lemma {:induction false} InnerRemoveFirst(g: Geometry, c: Cell<nat>, lasts: seq<nat>, refs: seq<nat>)
    requires InnerCell(g, c, lasts, refs) && 1 < |lasts| < g.B()
    ensures InnerCell(g, Live(RemoveShift(c.pivots, 0, g.max), RemoveShift(c.slots, 0, c.slots[g.B() - 1])),
                      lasts[1..], refs[1..])
  {
  }

  /** The former last child needs its separator, which so far only an ancestor held. */
  lemma {:induction false} InnerAppend(g: Geometry, c: Cell<nat>, lasts: seq<nat>, refs: seq<nat>, last: nat, ref: nat)
    requires InnerCell(g, c, lasts, refs) && 0 < |lasts| < g.B()
    ensures InnerCell(g, Live(c.pivots[|lasts| - 1 := lasts[|lasts| - 1]], c.slots[|lasts| := Value(ref)]),
                      lasts + [last], refs + [ref])
  {
  }

  lemma {:induction false} InnerPrepend(g: Geometry, c: Cell<nat>, lasts: seq<nat>, refs: seq<nat>, last: nat, ref: nat)
    requires InnerCell(g, c, lasts, refs) && 0 < |lasts| == g.half - 1
    ensures InnerCell(g,
      Live(InsertShift(c.pivots, 0, g.half + 1, last), InsertShift(c.slots, 0, g.half + 1, Value(ref))),
                      [last] + lasts, [ref] + refs)
  {
  }

  lemma {:induction false} InnerShrink(g: Geometry, c: Cell<nat>, lasts: seq<nat>, refs: seq<nat>)
    requires InnerCell(g, c, lasts, refs) && 2 <= |lasts|
    ensures InnerCell(g, Live(c.pivots[|lasts| - 2 := g.max], c.slots), lasts[..|lasts| - 1], refs[..|refs| - 1])
  {
  }

  lemma {:induction false} InnerSetPivot(g: Geometry, c: Cell<nat>, lasts: seq<nat>, refs: seq<nat>, i: nat, last: nat)
    requires InnerCell(g, c, lasts, refs) && i + 1 < |lasts|
    ensures InnerCell(g, Live(c.pivots[i := last], c.slots), lasts[i := last], refs)
  {
  }

  lemma {:induction false} InnerMerge(g: Geometry, a: Cell<nat>, lasts: seq<nat>, refs: seq<nat>, b: Cell<nat>,
                                      lasts': seq<nat>, refs': seq<nat>)
    requires InnerCell(g, a, lasts, refs) && InnerCell(g, b, lasts', refs')
    requires 0 < |lasts| && 0 < |lasts'| && |lasts| + |lasts'| <= g.B()
    ensures var n, k := |lasts|, |lasts'|;
            InnerCell(g,
              Live(CopyOver(a.pivots, n, b.pivots, k)[n - 1 := lasts[n - 1]], CopyOver(a.slots, n, b.slots, k)),
                      lasts + lasts', refs + refs')
  {
  }

  // ---- Leaf nodes ----

  lemma {:induction false} LeafInsert<V>(g: Geometry, c: Cell<Item<V>>, es: seq<Entry<V>>, i: nat, e: Entry<V>)
    requires LeafCell(g, c, es) && i <= |es| < g.B()
    ensures LeafCell(g,
      Live(InsertShift(c.pivots, i, g.B(), e.last), InsertShift(c.slots, i, g.B(), Value(Item(e.start, e.value)))),
                     InsertedAt(es, i, e))
  {
  }

  lemma {:induction false} LeafAppend<V>(g: Geometry, c: Cell<Item<V>>, es: seq<Entry<V>>, e: Entry<V>)
    requires LeafCell(g, c, es) && |es| < g.B()
    ensures LeafCell(g, Live(c.pivots[|es| := e.last], c.slots[|es| := Value(Item(e.start, e.value))]), es + [e])
  {
  }

  lemma {:induction false} LeafSplit<V>(g: Geometry, c: Cell<Item<V>>, es: seq<Entry<V>>)
    requires LeafCell(g, c, es) && |es| == g.B()
    ensures LeafCell(g, LowerHalf(g, c), es[..g.half])
    ensures LeafCell(g, UpperHalf(g, c), es[g.half..])
  {
  }

  /** Below capacity the last slot belongs to the leaf chain, so writing the link disturbs no entry. */
  lemma {:induction false} LeafLink<V>(g: Geometry, c: Cell<Item<V>>, es: seq<Entry<V>>, next: Option<nat>)
    requires LeafCell(g, c, es) && |es| < g.B()
    ensures LeafCell(g, Live(c.pivots, c.slots[g.B() - 1 := NextLeaf(next)]), es)
  {
  }

  lemma {:induction false} LeafRemove<V>(g: Geometry, c: Cell<Item<V>>, es: seq<Entry<V>>, i: nat)
    requires LeafCell(g, c, es) && i < |es| < g.B()
    ensures LeafCell(g, Live(RemoveShift(c.pivots, i, g.max), RemoveShift(c.slots, i, c.slots[g.B() - 1])),
      RemovedAt(es, i))
  {
  }

  lemma {:induction false} LeafPrepend<V>(g: Geometry, c: Cell<Item<V>>, es: seq<Entry<V>>, e: Entry<V>)
    requires LeafCell(g, c, es) && |es| == g.half - 1
    ensures LeafCell(g, Live(InsertShift(c.pivots, 0, g.half + 1, e.last),
                             InsertShift(c.slots, 0, g.half + 1, Value(Item(e.start, e.value)))), [e] + es)
  {
  }

  lemma {:induction false} LeafShrink<V>(g: Geometry, c: Cell<Item<V>>, es: seq<Entry<V>>)
    requires LeafCell(g, c, es) && 0 < |es|
    ensures LeafCell(g, Live(c.pivots[|es| - 1 := g.max], c.slots), es[..|es| - 1])
  {
  }

  lemma {:induction false} LeafMerge<V>(g: Geometry, a: Cell<Item<V>>, es: seq<Entry<V>>, b: Cell<Item<V>>,
                                        es': seq<Entry<V>>)
    requires LeafCell(g, a, es) && LeafCell(g, b, es') && |es| + |es'| < g.B()
    ensures LeafCell(g, Live(CopyOver(a.pivots, |es|, b.pivots, |es'|), CopyOver(a.slots, |es|, b.slots, |es'|)),
      es + es')
  {
  }

  lemma {:induction false} LeafReplace<V>(g: Geometry, c: Cell<Item<V>>, es: seq<Entry<V>>, i: nat, e: Entry<V>)
    requires LeafCell(g, c, es) && i < |es|
    ensures LeafCell(g, Live(c.pivots[i := e.last], c.slots[i := Value(Item(e.start, e.value))]), es[i := e])
  {
  }

  // ---- The leaf chain ----

  /** A new leaf linked in after position `i` of the chain. */
  lemma {:induction false} ChainInsert<T>(g: Geometry, cells: seq<Cell<T>>, cells': seq<Cell<T>>, refs: seq<nat>,
                                          i: nat, ref: nat)
    requires Chain(g, cells, refs) && i < |refs|
    requires forall j, k | 0 <= j < k < |refs| :: refs[j] != refs[k]
    requires ref !in refs && Agree(cells, cells', {refs[i], ref}) && ref < |cells'|
    requires cells'[ref].Sized(g) && Link(g, cells', ref) == Link(g, cells, refs[i])
    requires cells'[refs[i]].Sized(g) && Link(g, cells', refs[i]) == NextLeaf(Some(ref))
    ensures Chain(g, cells', InsertedAt(refs, i + 1, ref))
  {
  }

  /** The leaf after position `i` unlinked from the chain. */
  lemma {:induction false} ChainRemove<T>(g: Geometry, cells: seq<Cell<T>>, cells': seq<Cell<T>>, refs: seq<nat>,
                                          i: nat)
    requires Chain(g, cells, refs) && i + 1 < |refs|
    requires forall j, k | 0 <= j < k < |refs| :: refs[j] != refs[k]
    requires Agree(cells, cells', {refs[i], refs[i + 1]})
    requires cells'[refs[i]].Sized(g) && Link(g, cells', refs[i]) == Link(g, cells, refs[i + 1])
    ensures Chain(g, cells', RemovedAt(refs, i + 1))
  {
  }

  /** Writes that keep the links of the touched leaves keep the chain. */
  lemma {:induction false} ChainKeep<T>(g: Geometry, cells: seq<Cell<T>>, cells': seq<Cell<T>>, refs: seq<nat>,
                                        touched: set<nat>)
    requires Chain(g, cells, refs) && Agree(cells, cells', touched)
    requires forall r | r in touched && r in refs :: cells'[r].Sized(g) && Link(g, cells', r) == Link(g, cells, r)
    ensures Chain(g, cells', refs)
  {
  }

  /** Exact accounting means no reference occurs twice. */
  lemma {:induction false} AccountedDistinct(refs: seq<nat>, free: seq<nat>, len: nat)
    requires Accounted(multiset(refs), free, len)
    ensures forall i, j | 0 <= i < j < |refs| :: refs[i] != refs[j]
  {
    forall i, j | 0 <= i < j < |refs| ensures refs[i] != refs[j] {
      assert refs == refs[..i] + [refs[i]] + refs[i + 1..];
      assert multiset(refs) == multiset(refs[..i]) + multiset{refs[i]} + multiset(refs[i + 1..]);
      assert refs[i + 1..][j - i - 1] == refs[j];
      assert refs[j] in refs[i + 1..];
      assert multiset(refs)[refs[j]] <= 1;
    }
  }
}
