/**
 Removing an entry and repairing nodes that fall below half full, by stealing from or
 merging with a neighbour (lib/range-tree/src/cursor.rs:561-1001), as facts about represented trees.
 */
module Removing {
  import opened Options
  import opened Nodes
  import opened Shapes
  import opened Cells
  import opened Paths
  import opened Inserting
  import opened Searching

  /** `t` on the path may have one element too few; everything else is in order. */
  ghost predicate Deficient<V>(g: Geometry, s: Store<V>, t: Tree<V>, rest: seq<Frame<V>>, h: nat) {
    && Rep(g, s, t) && RepCtx(g, s, rest, t.Ref(), Last(t))
    && WF(g, t, h, if rest == [] then 1 else g.half - 1) && WFCtx(g, rest, h)
  }

  /** As `Deficient`, but `t` is large enough again. */
  ghost predicate Repaired<V>(g: Geometry, s: Store<V>, t: Tree<V>, rest: seq<Frame<V>>, h: nat) {
    Rep(g, s, t) && RepCtx(g, s, rest, t.Ref(), Last(t)) && WF(g, t, h, g.half) && WFCtx(g, rest, h)
  }

  /** The root of the tree in which `t` sits below `rest`. */
  function RootOf<V>(rest: seq<Frame<V>>, t: Tree<V>): nat {
    if rest == [] then t.Ref() else rest[|rest| - 1].ref
  }

  // ---- The parent's list of children, after each kind of repair ----

  function StolenRight<V>(f: Frame<V>, sib: Tree<V>): Frame<V>
    requires f.right != []
  {
    Frame(f.ref, f.left, [sib] + f.right[1..])
  }

  function MergedRight<V>(f: Frame<V>): Frame<V>
    requires f.right != []
  {
    Frame(f.ref, f.left, f.right[1..])
  }

  function StolenLeft<V>(f: Frame<V>, sib: Tree<V>): Frame<V>
    requires f.left != []
  {
    Frame(f.ref, f.left[..|f.left| - 1] + [sib], f.right)
  }

  function MergedLeft<V>(f: Frame<V>): Frame<V>
    requires f.left != []
  {
    Frame(f.ref, f.left[..|f.left| - 1], f.right)
  }

  /** The separators and references that a frame's node holds around a child. */
  function FrameLasts<V>(f: Frame<V>, last: nat): (r: seq<nat>)
    ensures |r| == f.Size()
  {
    Lasts(f.left) + [last] + Lasts(f.right)
  }

  function FrameRefs<V>(f: Frame<V>, ref: nat): (r: seq<nat>)
    ensures |r| == f.Size()
  {
    Refs(f.left) + [ref] + Refs(f.right)
  }

  lemma {:induction false} StolenRightPivots<V>(f: Frame<V>, sib: Tree<V>, ref: nat, last: nat, last': nat)
    requires f.right != [] && sib.Ref() == f.right[0].Ref() && Last(sib) == Last(f.right[0])
    ensures FrameLasts(StolenRight(f, sib), last') == FrameLasts(f, last)[|f.left| := last']
    ensures FrameRefs(StolenRight(f, sib), ref) == FrameRefs(f, ref)
  {
  }

  lemma {:induction false} MergedRightPivots<V>(f: Frame<V>, ref: nat, last: nat)
    requires f.right != []
    ensures FrameLasts(MergedRight(f), Last(f.right[0])) == RemovedAt(FrameLasts(f, last), |f.left|)
    ensures FrameRefs(MergedRight(f), ref) == RemovedAt(FrameRefs(f, ref), |f.left| + 1)
  {
    hide Lasts, Refs;
    var rest := f.right[1..];
    assert f.right == [f.right[0]] + rest;
    assert Lasts(f.right) == [Last(f.right[0])] + Lasts(rest) && Refs(f.right) == [f.right[0].Ref()] + Refs(rest);
  }

  lemma {:induction false} StolenLeftPivots<V>(f: Frame<V>, sib: Tree<V>, ref: nat, last: nat)
    requires f.left != [] && sib.Ref() == f.left[|f.left| - 1].Ref()
    ensures FrameLasts(StolenLeft(f, sib), last) == FrameLasts(f, last)[|f.left| - 1 := Last(sib)]
    ensures FrameRefs(StolenLeft(f, sib), ref) == FrameRefs(f, ref)
  {
  }

  lemma {:induction false} MergedLeftPivots<V>(f: Frame<V>, ref: nat, last: nat)
    requires f.left != []
    ensures FrameLasts(MergedLeft(f), last) == RemovedAt(FrameLasts(f, last), |f.left| - 1)
    ensures FrameRefs(MergedLeft(f), f.left[|f.left| - 1].Ref()) == RemovedAt(FrameRefs(f, ref), |f.left|)
  {
    var n := |f.left| - 1;
    assert f.left == f.left[..n] + [f.left[n]];
  }

  /** A rewritten parent keeps the rest of the path when its own right-most pivot is the same. */
  lemma {:induction false} ParentChanged<V>(g: Geometry, s: Store<V>, s': Store<V>, f: Frame<V>, up: seq<Frame<V>>,
                                            ref: nat, last: nat, out: nat, leafs: set<nat>, inners: set<nat>)
    requires f.ref < |s'.inner| && InnerCell(g, s'.inner[f.ref], FrameLasts(f, last), FrameRefs(f, ref))
    requires RepAll(g, s', f.left) && RepAll(g, s', f.right)
    requires RepCtx(g, s, up, f.ref, out) && out == FrameLast(f, last)
    requires StoreAgree(s, s', leafs, inners) && UntouchedCtx(up, leafs, inners)
    ensures RepCtx(g, s', [f] + up, ref, last)
  {
    hide UntouchedCtx, RepAll, InnerCell, Agree;
    RepCtxFrame(g, s, s', up, f.ref, out, leafs, inners);
    assert ([f] + up)[1..] == up;
  }

  // ---- What the path looks like after each repair ----

  lemma {:induction false} StealRight<V>(g: Geometry, s: Store<V>, s': Store<V>, rest: seq<Frame<V>>, h: nat, ref: nat,
                                         last: nat, last': nat, sib: Tree<V>, leafs: set<nat>, inners: set<nat>)
    requires rest != [] && rest[0].right != [] && RepCtx(g, s, rest, ref, last) && WFCtx(g, rest, h)
    requires StoreAgree(s, s', leafs, inners) && UntouchedCtx(rest[1..], leafs, inners)
    requires UntouchedAll(rest[0].left, leafs, inners) && UntouchedAll(rest[0].right[1..], leafs, inners)
    requires rest[0].ref < |s'.inner|
    requires InnerCell(g, s'.inner[rest[0].ref], FrameLasts(rest[0], last)[|rest[0].left| := last'],
      FrameRefs(rest[0], ref))
    requires Rep(g, s', sib) && WF(g, sib, h, g.half)
    requires sib.Ref() == rest[0].right[0].Ref() && Last(sib) == Last(rest[0].right[0])
    ensures var rest' := [StolenRight(rest[0], sib)] + rest[1..];
      RepCtx(g, s', rest', ref, last') && WFCtx(g, rest', h)
  {
    hide UntouchedCtx, UntouchedAll, Rep, WF, InnerCell, Last, Agree;
    var f, f', up := rest[0], StolenRight(rest[0], sib), rest[1..];
    StolenRightPivots(f, sib, ref, last, last');
    RepFrameAll(g, s, s', f.left, leafs, inners);
    RepFrameAll(g, s, s', f.right[1..], leafs, inners);
    ParentChanged(g, s, s', f', up, ref, last', FrameLast(f, last), leafs, inners);
    assert ([f'] + up)[1..] == up;
  }

  lemma {:induction false} StealLeft<V>(g: Geometry, s: Store<V>, s': Store<V>, rest: seq<Frame<V>>, h: nat, ref: nat,
                                        last: nat, sib: Tree<V>, leafs: set<nat>, inners: set<nat>)
    requires rest != [] && rest[0].left != [] && RepCtx(g, s, rest, ref, last) && WFCtx(g, rest, h)
    requires StoreAgree(s, s', leafs, inners) && UntouchedCtx(rest[1..], leafs, inners)
    requires UntouchedAll(rest[0].left[..|rest[0].left| - 1], leafs, inners)
    requires UntouchedAll(rest[0].right, leafs, inners)
    requires rest[0].ref < |s'.inner|
    requires InnerCell(g, s'.inner[rest[0].ref], FrameLasts(rest[0], last)[|rest[0].left| - 1 := Last(sib)],
      FrameRefs(rest[0], ref))
    requires Rep(g, s', sib) && WF(g, sib, h, g.half) && sib.Ref() == rest[0].left[|rest[0].left| - 1].Ref()
    ensures var rest' := [StolenLeft(rest[0], sib)] + rest[1..];
      RepCtx(g, s', rest', ref, last) && WFCtx(g, rest', h)
  {
    hide UntouchedCtx, UntouchedAll, Rep, WF, InnerCell, Last, Agree;
    var f, f', up := rest[0], StolenLeft(rest[0], sib), rest[1..];
    StolenLeftPivots(f, sib, ref, last);
    RepFrameAll(g, s, s', f.left[..|f.left| - 1], leafs, inners);
    RepFrameAll(g, s, s', f.right, leafs, inners);
    ParentChanged(g, s, s', f', up, ref, last, FrameLast(f, last), leafs, inners);
    assert ([f'] + up)[1..] == up;
  }

  /** After a merge the parent has one child less, and the problem may have moved up to it. */
  lemma {:induction false} MergeRight<V>(g: Geometry, s: Store<V>, s': Store<V>, rest: seq<Frame<V>>, h: nat, last: nat,
                                         t: Tree<V>, leafs: set<nat>, inners: set<nat>)
    requires rest != [] && rest[0].right != [] && RepCtx(g, s, rest, t.Ref(), last) && WFCtx(g, rest, h)
    requires StoreAgree(s, s', leafs, inners) && UntouchedCtx(rest[1..], leafs, inners)
    requires UntouchedAll(rest[0].left, leafs, inners) && UntouchedAll(rest[0].right[1..], leafs, inners)
    requires rest[0].ref < |s'.inner|
    requires InnerCell(g, s'.inner[rest[0].ref], RemovedAt(FrameLasts(rest[0], last), |rest[0].left|),
                       RemovedAt(FrameRefs(rest[0], t.Ref()), |rest[0].left| + 1))
    requires Rep(g, s', t) && WF(g, t, h, g.half) && Last(t) == Last(rest[0].right[0])
    ensures Deficient(g, s', MergedRight(rest[0]).Fill(t), rest[1..], h + 1)
  {
    hide UntouchedCtx, UntouchedAll, Rep, WF, InnerCell, Last, Agree;
    var f, f', up := rest[0], MergedRight(rest[0]), rest[1..];
    MergedRightPivots(f, t.Ref(), last);
    RepFrameAll(g, s, s', f.left, leafs, inners);
    RepFrameAll(g, s, s', f.right[1..], leafs, inners);
    ParentChanged(g, s, s', f', up, t.Ref(), Last(t), FrameLast(f, last), leafs, inners);
    assert ([f'] + up)[1..] == up;
    FillRep(g, s', f', t);
    FillLast(f', t);
    FillWF(g, f', t, h, if up == [] then 1 else g.half - 1);
  }

  lemma {:induction false} MergeLeft<V>(g: Geometry, s: Store<V>, s': Store<V>, rest: seq<Frame<V>>, h: nat, ref: nat,
                                        last: nat, t: Tree<V>, leafs: set<nat>, inners: set<nat>)
    requires rest != [] && rest[0].left != [] && RepCtx(g, s, rest, ref, last) && WFCtx(g, rest, h)
    requires StoreAgree(s, s', leafs, inners) && UntouchedCtx(rest[1..], leafs, inners)
    requires UntouchedAll(rest[0].left[..|rest[0].left| - 1], leafs, inners)
    requires UntouchedAll(rest[0].right, leafs, inners)
    requires rest[0].ref < |s'.inner|
    requires InnerCell(g, s'.inner[rest[0].ref], RemovedAt(FrameLasts(rest[0], last), |rest[0].left| - 1),
                       RemovedAt(FrameRefs(rest[0], ref), |rest[0].left|))
    requires Rep(g, s', t) && WF(g, t, h, g.half) && Last(t) == last
    requires t.Ref() == rest[0].left[|rest[0].left| - 1].Ref()
    ensures Deficient(g, s', MergedLeft(rest[0]).Fill(t), rest[1..], h + 1)
  {
    hide UntouchedCtx, UntouchedAll, Rep, WF, InnerCell, Last, Agree;
    var f, f', up := rest[0], MergedLeft(rest[0]), rest[1..];
    MergedLeftPivots(f, ref, last);
    RepFrameAll(g, s, s', f.left[..|f.left| - 1], leafs, inners);
    RepFrameAll(g, s, s', f.right, leafs, inners);
    ParentChanged(g, s, s', f', up, t.Ref(), last, FrameLast(f, last), leafs, inners);
    assert ([f'] + up)[1..] == up;
    FillRep(g, s', f', t);
    FillLast(f', t);
    FillWF(g, f', t, h, if up == [] then 1 else g.half - 1);
  }

  // ---- Internal nodes: the trees before and after ----

  function TookFirst<V>(t: Tree<V>, sib: Tree<V>): Tree<V>
    requires t.Inner? && sib.Inner? && sib.kids != []
  {
    Inner(t.id, t.kids + [sib.kids[0]])
  }

  function LostFirst<V>(sib: Tree<V>): Tree<V>
    requires sib.Inner? && sib.kids != []
  {
    Inner(sib.id, sib.kids[1..])
  }

  function TookLast<V>(t: Tree<V>, sib: Tree<V>): Tree<V>
    requires t.Inner? && sib.Inner? && sib.kids != []
  {
    Inner(t.id, [sib.kids[|sib.kids| - 1]] + t.kids)
  }

  function LostLast<V>(sib: Tree<V>): Tree<V>
    requires sib.Inner? && sib.kids != []
  {
    Inner(sib.id, sib.kids[..|sib.kids| - 1])
  }

  function Joined<V>(a: Tree<V>, b: Tree<V>): Tree<V>
    requires a.Inner? && b.Inner?
  {
    Inner(a.id, a.kids + b.kids)
  }

  /** The node on the path, the neighbour it is repaired with, and all the rest are apart. */
  lemma {:induction false} InnerApartRight<V>(t: Tree<V>, rest: seq<Frame<V>>, free: seq<nat>, len: nat)
    requires rest != [] && rest[0].right != [] && t.Inner? && rest[0].right[0].Inner?
    requires Accounted(InnerRefs(t) + CtxRefs(rest), free, len)
    ensures var f, sib := rest[0], rest[0].right[0]; var nodes := {t.id, sib.id, f.ref};
      && t.id != sib.id && t.id != f.ref && sib.id != f.ref
      && UntouchedAll(t.kids, {}, nodes) && UntouchedAll(sib.kids, {}, nodes)
      && UntouchedAll(f.left, {}, nodes) && UntouchedAll(f.right[1..], {}, nodes) && UntouchedCtx(rest[1..], {}, nodes)
  {
    hide InnerRefsAll, Leaves, LeavesAll, LeavesBefore, LeavesAfter, CtxRefs, Accounted;
    var f, sib := rest[0], rest[0].right[0];
    var refs := InnerRefs(t) + CtxRefs(rest);
    InnerRefsAllCons(f.right);
    CtxRefsUnfold(rest);
    ThreeApart(refs, t.id, sib.id, f.ref, InnerRefsAll(t.kids), InnerRefsAll(f.left), InnerRefsAll(sib.kids),
               InnerRefsAll(f.right[1..]), CtxRefs(rest[1..]), free, len);
  }

  lemma {:induction false} ThreeApart(refs: multiset<nat>, t: nat, u: nat, f: nat, a: multiset<nat>, b: multiset<nat>,
                                      c: multiset<nat>, d: multiset<nat>, e: multiset<nat>, free: seq<nat>, len: nat)
    requires Accounted(refs, free, len)
    requires || refs == (multiset{t} + a) + (multiset{f} + b + ((multiset{u} + c) + d) + e)
             || refs == (multiset{t} + a) + (multiset{f} + (b + (multiset{u} + c)) + d + e)
    ensures t != u && t != f && u != f
    ensures forall r | r in {t, u, f} :: r !in a && r !in b && r !in c && r !in d && r !in e
  {
    assert refs[t] <= 1 && refs[u] <= 1 && refs[f] <= 1;
  }

  lemma {:induction false} InnerApartLeft<V>(t: Tree<V>, rest: seq<Frame<V>>, free: seq<nat>, len: nat)
    requires rest != [] && rest[0].left != [] && t.Inner? && rest[0].left[|rest[0].left| - 1].Inner?
    requires Accounted(InnerRefs(t) + CtxRefs(rest), free, len)
    ensures var f, n := rest[0], |rest[0].left| - 1; var sib := f.left[n]; var nodes := {t.id, sib.id, f.ref};
      && t.id != sib.id && t.id != f.ref && sib.id != f.ref
      && UntouchedAll(t.kids, {}, nodes) && UntouchedAll(sib.kids, {}, nodes)
      && UntouchedAll(f.left[..n], {}, nodes) && UntouchedAll(f.right, {}, nodes) && UntouchedCtx(rest[1..], {}, nodes)
  {
    hide InnerRefsAll, Leaves, LeavesAll, LeavesBefore, LeavesAfter, CtxRefs, Accounted;
    var f, n := rest[0], |rest[0].left| - 1;
    var sib := f.left[n];
    var refs := InnerRefs(t) + CtxRefs(rest);
    InnerRefsAllSnoc(f.left);
    CtxRefsUnfold(rest);
    ThreeApart(refs, t.id, sib.id, f.ref, InnerRefsAll(t.kids), InnerRefsAll(f.left[..n]), InnerRefsAll(sib.kids),
               InnerRefsAll(f.right), CtxRefs(rest[1..]), free, len);
  }

  lemma {:induction false} InnerRefsAllCons<V>(ts: seq<Tree<V>>)
    requires ts != []
    ensures InnerRefsAll(ts) == InnerRefs(ts[0]) + InnerRefsAll(ts[1..])
  {
  }

  lemma {:induction false} InnerRefsAllSnoc<V>(ts: seq<Tree<V>>)
    requires ts != []
    ensures InnerRefsAll(ts) == InnerRefsAll(ts[..|ts| - 1]) + InnerRefs(ts[|ts| - 1])
  {
    var n := |ts| - 1;
    assert ts == ts[..n] + [ts[n]] + [];
    InnerRefsAround(ts[..n], ts[n], []);
  }

  lemma {:induction false} TookFirstOK<V>(g: Geometry, s: Store<V>, t: Tree<V>, sib: Tree<V>, h: nat)
    requires t.Inner? && sib.Inner? && |t.kids| == g.half - 1 && g.half < |sib.kids| < g.B()
    requires RepAll(g, s, t.kids) && RepAll(g, s, sib.kids) && WFAll(g, t.kids, h) && WFAll(g, sib.kids, h)
    requires t.id < |s.inner|
    requires InnerCell(g, s.inner[t.id], Lasts(t.kids) + [Last(sib.kids[0])], Refs(t.kids) + [sib.kids[0].Ref()])
    requires sib.id < |s.inner| && InnerCell(g, s.inner[sib.id], Lasts(sib.kids)[1..], Refs(sib.kids)[1..])
    ensures Rep(g, s, TookFirst(t, sib)) && WF(g, TookFirst(t, sib), h + 1, g.half)
    ensures Rep(g, s, LostFirst(sib)) && WF(g, LostFirst(sib), h + 1, g.half)
    ensures Last(LostFirst(sib)) == Last(sib) && Last(TookFirst(t, sib)) == Last(sib.kids[0])
  {
    hide Rep, WF, InnerCell;
    var a, b := t.kids + [sib.kids[0]], sib.kids[1..];
    assert Lasts(a) == Lasts(t.kids) + [Last(sib.kids[0])] && Refs(a) == Refs(t.kids) + [sib.kids[0].Ref()];
    assert Lasts(b) == Lasts(sib.kids)[1..] && Refs(b) == Refs(sib.kids)[1..];
    InnerRep(g, s, t.id, a);
    InnerRep(g, s, sib.id, b);
    InnerWF(g, t.id, a, h, g.half);
    InnerWF(g, sib.id, b, h, g.half);
  }

  lemma {:induction false} TookLastOK<V>(g: Geometry, s: Store<V>, t: Tree<V>, sib: Tree<V>, h: nat)
    requires t.Inner? && sib.Inner? && 0 < |t.kids| == g.half - 1 && g.half < |sib.kids| < g.B()
    requires RepAll(g, s, t.kids) && RepAll(g, s, sib.kids) && WFAll(g, t.kids, h) && WFAll(g, sib.kids, h)
    requires var n := |sib.kids| - 1;
      && t.id < |s.inner|
      && InnerCell(g, s.inner[t.id], [Last(sib.kids[n])] + Lasts(t.kids), [sib.kids[n].Ref()] + Refs(t.kids))
      && sib.id < |s.inner| && InnerCell(g, s.inner[sib.id], Lasts(sib.kids)[..n], Refs(sib.kids)[..n])
    ensures Rep(g, s, TookLast(t, sib)) && WF(g, TookLast(t, sib), h + 1, g.half)
    ensures Rep(g, s, LostLast(sib)) && WF(g, LostLast(sib), h + 1, g.half)
    ensures Last(LostLast(sib)) == Last(sib.kids[|sib.kids| - 2]) && Last(TookLast(t, sib)) == Last(t)
  {
    hide Rep, WF, InnerCell;
    var n := |sib.kids| - 1;
    var a, b := [sib.kids[n]] + t.kids, sib.kids[..n];
    assert Lasts(a) == [Last(sib.kids[n])] + Lasts(t.kids) && Refs(a) == [sib.kids[n].Ref()] + Refs(t.kids);
    assert Lasts(b) == Lasts(sib.kids)[..n] && Refs(b) == Refs(sib.kids)[..n];
    InnerRep(g, s, t.id, a);
    InnerRep(g, s, sib.id, b);
    InnerWF(g, t.id, a, h, g.half);
    InnerWF(g, sib.id, b, h, g.half);
  }

  lemma {:induction false} JoinedOK<V>(g: Geometry, s: Store<V>, a: Tree<V>, b: Tree<V>, h: nat)
    requires a.Inner? && b.Inner? && |a.kids| + |b.kids| == g.B() - 1 && 0 < |b.kids|
    requires RepAll(g, s, a.kids) && RepAll(g, s, b.kids) && WFAll(g, a.kids, h) && WFAll(g, b.kids, h)
    requires a.id < |s.inner| && InnerCell(g, s.inner[a.id], Lasts(a.kids) + Lasts(b.kids), Refs(a.kids) + Refs(b.kids))
    ensures Rep(g, s, Joined(a, b)) && WF(g, Joined(a, b), h + 1, g.half) && Last(Joined(a, b)) == Last(b)
  {
    hide Rep, WF, InnerCell;
    var kids := a.kids + b.kids;
    assert Lasts(kids) == Lasts(a.kids) + Lasts(b.kids) && Refs(kids) == Refs(a.kids) + Refs(b.kids);
    InnerRep(g, s, a.id, kids);
    InnerWF(g, a.id, kids, h, g.half);
  }

  // ---- Where the leaves and the cursor go ----

  /** `low` leads from `t` to `leaf`; `ls` lists all leaves of the tree and `before` those left of `leaf`. */
  ghost predicate OnTrack<V>(ls: seq<LeafNode<V>>, before: seq<LeafNode<V>>, rest: seq<Frame<V>>, t: Tree<V>,
                             low: seq<Frame<V>>, leaf: LeafNode<V>) {
    && LeavesBefore(rest) + Leaves(t) + LeavesAfter(rest) == ls
    && LeavesBefore(rest) + LeavesBefore(low) == before
    && Plug(Leaf(leaf), low) == t
  }

  /** The last frame of `low` is the node `t` itself. */
  lemma {:induction false} TopOfLow<V>(t: Tree<V>, low: seq<Frame<V>>, leaf: LeafNode<V>)
    requires Plug(Leaf(leaf), low) == t && low != []
    ensures var n := |low| - 1; var q := |low[n].left|;
      && t.Inner? && q < |t.kids| && low[n] == FrameAt(t, q) && t.kids[q] == Plug(Leaf(leaf), low[..n])
      && LeavesBefore(low) == LeavesAll(t.kids[..q]) + LeavesBefore(low[..n])
  {
    hide Leaves, LeavesAll, LeavesBefore, Plug;
    var n := |low| - 1;
    var f, x := low[n], Plug(Leaf(leaf), low[..n]);
    assert low == low[..n] + [f];
    PlugAppend(Leaf(leaf), low[..n], [f]);
    OneFrame(x, f);
    BeforeAppend(low[..n], [f]);
    assert t.kids[..|f.left|] == f.left && t.kids[|f.left| + 1..] == f.right;
  }

  /** `low` with its top moved to position `q` of the node `t`. */
  function Retop<V>(low: seq<Frame<V>>, t: Tree<V>, q: nat): seq<Frame<V>>
    requires low != [] && t.Inner? && q < |t.kids|
  {
    low[..|low| - 1] + [FrameAt(t, q)]
  }

  lemma {:induction false} RetopFacts<V>(low: seq<Frame<V>>, t: Tree<V>, q: nat, leaf: LeafNode<V>)
    requires low != [] && t.Inner? && q < |t.kids| && t.kids[q] == Plug(Leaf(leaf), low[..|low| - 1])
    ensures Plug(Leaf(leaf), Retop(low, t, q)) == t
    ensures LeavesBefore(Retop(low, t, q)) == LeavesAll(t.kids[..q]) + LeavesBefore(low[..|low| - 1])
  {
    ExtendLow(leaf, low[..|low| - 1], t, q);
  }

  lemma {:induction false} TrackStealRight<V>(ls: seq<LeafNode<V>>, before: seq<LeafNode<V>>, rest: seq<Frame<V>>,
                                              t: Tree<V>, low: seq<Frame<V>>, leaf: LeafNode<V>)
    requires OnTrack(ls, before, rest, t, low, leaf) && low != [] && rest != [] && rest[0].right != []
    requires t.Inner? && rest[0].right[0].Inner? && rest[0].right[0].kids != []
    ensures var sib, q := rest[0].right[0], |low[|low| - 1].left|;
      var t', rest' := TookFirst(t, sib), [StolenRight(rest[0], LostFirst(sib))] + rest[1..];
      q < |t'.kids| && OnTrack(ls, before, rest', t', Retop(low, t', q), leaf)
  {
    hide Leaves, LeavesAll, LeavesBefore, LeavesAfter, Plug;
    var f, up, sib, q := rest[0], rest[1..], rest[0].right[0], |low[|low| - 1].left|;
    var t', sib' := TookFirst(t, sib), LostFirst(sib);
    var rest' := [StolenRight(f, sib')] + up;
    TopOfLow(t, low, leaf);
    RetopFacts(low, t', q, leaf);
    assert t'.kids[..q] == t.kids[..q];
    assert rest'[1..] == up;
    CtxUnfold(rest);
    CtxUnfold(rest');
    MovedAcross(t.id, sib.id, t.kids, sib.kids[0], sib.kids[1..]);
    assert sib.kids == [sib.kids[0]] + sib.kids[1..];
    LeavesCons(f.right);
    LeavesCons([sib'] + f.right[1..]);
    assert ([sib'] + f.right[1..])[1..] == f.right[1..];
    MoveJoint(LeavesBefore(rest), Leaves(t), Leaves(sib), Leaves(t'), Leaves(sib'), LeavesAll(f.right[1..]),
              LeavesAfter(up));
  }

  /** What `t` gains at its end its right neighbour loses at its start. */
  lemma {:induction false} MovedAcross<V>(a: nat, b: nat, x: seq<Tree<V>>, k: Tree<V>, y: seq<Tree<V>>)
    ensures Leaves(Inner(a, x + [k])) + Leaves(Inner(b, y)) == Leaves(Inner(a, x)) + Leaves(Inner(b, [k] + y))
    ensures InnerRefs(Inner(a, x + [k])) + InnerRefs(Inner(b, y)) ==
      InnerRefs(Inner(a, x)) + InnerRefs(Inner(b, [k] + y))
  {
    hide LeavesAll, InnerRefsAll;
    OneTree(k);
    LeavesAllAppend(x, [k]);
    LeavesAllAppend([k], y);
    InnerRefsAllAppend(x, [k]);
    InnerRefsAllAppend([k], y);
    Assoc(LeavesAll(x), Leaves(k), LeavesAll(y));
  }

  lemma {:induction false} LeavesCons<V>(ts: seq<Tree<V>>)
    requires ts != []
    ensures LeavesAll(ts) == Leaves(ts[0]) + LeavesAll(ts[1..])
  {
  }

  lemma {:induction false} LeavesSnoc<V>(ts: seq<Tree<V>>)
    requires ts != []
    ensures LeavesAll(ts) == LeavesAll(ts[..|ts| - 1]) + Leaves(ts[|ts| - 1])
  {
    var n := |ts| - 1;
    assert ts == ts[..n] + [ts[n]] + [];
    LeavesAround(ts[..n], ts[n], []);
  }

  lemma {:induction false} MoveJoint<X>(b: seq<X>, t: seq<X>, u: seq<X>, t': seq<X>, u': seq<X>, y: seq<X>, a: seq<X>)
    requires t + u == t' + u'
    ensures b + t + ((u + y) + a) == b + t' + ((u' + y) + a)
  {
    assert b + t + ((u + y) + a) == b + (t + u) + (y + a);
    assert b + t' + ((u' + y) + a) == b + (t' + u') + (y + a);
  }

  lemma {:induction false} TrackStealLeft<V>(ls: seq<LeafNode<V>>, before: seq<LeafNode<V>>, rest: seq<Frame<V>>,
                                             t: Tree<V>, low: seq<Frame<V>>, leaf: LeafNode<V>)
    requires OnTrack(ls, before, rest, t, low, leaf) && low != [] && rest != [] && rest[0].left != []
    requires t.Inner? && rest[0].left[|rest[0].left| - 1].Inner? && rest[0].left[|rest[0].left| - 1].kids != []
    ensures var sib, q := rest[0].left[|rest[0].left| - 1], |low[|low| - 1].left|;
      var t', rest' := TookLast(t, sib), [StolenLeft(rest[0], LostLast(sib))] + rest[1..];
      q + 1 < |t'.kids| && OnTrack(ls, before, rest', t', Retop(low, t', q + 1), leaf)
  {
    hide Leaves, LeavesAll, LeavesBefore, LeavesAfter, Plug;
    var f, up, q, n := rest[0], rest[1..], |low[|low| - 1].left|, |rest[0].left| - 1;
    var sib := f.left[n];
    var k, m := sib.kids[|sib.kids| - 1], sib.kids[..|sib.kids| - 1];
    var t', sib' := TookLast(t, sib), LostLast(sib);
    var rest' := [StolenLeft(f, sib')] + up;
    TopOfLow(t, low, leaf);
    RetopFacts(low, t', q + 1, leaf);
    assert t'.kids[..q + 1] == [k] + t.kids[..q];
    LeavesAllAppend([k], t.kids[..q]);
    OneTree(k);
    assert rest'[1..] == up;
    CtxUnfold(rest);
    CtxUnfold(rest');
    assert sib.kids == m + [k];
    MovedAcross(sib.id, t.id, m, k, t.kids);
    LeavesSnoc(f.left);
    LeavesSnoc(f.left[..n] + [sib']);
    assert (f.left[..n] + [sib'])[..n] == f.left[..n];
    LeavesAllAppend(m, [k]);
    InnerLeaves(sib.id, m);
    InnerLeaves(sib.id, m + [k]);
    MoveJointLeft(LeavesBefore(up), LeavesAll(f.left[..n]), Leaves(sib), Leaves(t), Leaves(sib'), Leaves(t'),
                  LeavesAfter(rest));
    MovePath(LeavesBefore(up), LeavesAll(f.left[..n]), Leaves(sib'), Leaves(k), LeavesAll(t.kids[..q]),
             LeavesBefore(low[..|low| - 1]));
  }

  lemma {:induction false} MoveJointLeft<X>(b: seq<X>, y: seq<X>, u: seq<X>, t: seq<X>, u': seq<X>, t': seq<X>,
                                            a: seq<X>)
    requires u + t == u' + t'
    ensures (b + (y + u)) + t + a == (b + (y + u')) + t' + a
  {
    assert (b + (y + u)) + t + a == (b + y) + (u + t) + a;
    assert (b + (y + u')) + t' + a == (b + y) + (u' + t') + a;
  }

  lemma {:induction false} MovePath<X>(b: seq<X>, y: seq<X>, u: seq<X>, k: seq<X>, q: seq<X>, w: seq<X>)
    ensures (b + (y + (u + k))) + (q + w) == (b + (y + u)) + ((k + q) + w)
  {
  }

  lemma {:induction false} TrackMergeRight<V>(ls: seq<LeafNode<V>>, before: seq<LeafNode<V>>, rest: seq<Frame<V>>,
                                              t: Tree<V>, low: seq<Frame<V>>, leaf: LeafNode<V>)
    requires OnTrack(ls, before, rest, t, low, leaf) && low != [] && rest != [] && rest[0].right != []
    requires t.Inner? && rest[0].right[0].Inner?
    ensures var q, j, f' := |low[|low| - 1].left|, Joined(t, rest[0].right[0]), MergedRight(rest[0]);
      q < |j.kids| && OnTrack(ls, before, rest[1..], f'.Fill(j), Retop(low, j, q) + [f'], leaf)
  {
    hide Leaves, LeavesAll, LeavesBefore, LeavesAfter, Plug;
    var f, up, sib, q := rest[0], rest[1..], rest[0].right[0], |low[|low| - 1].left|;
    var j, f' := Joined(t, sib), MergedRight(f);
    TopOfLow(t, low, leaf);
    RetopFacts(low, j, q, leaf);
    assert j.kids[..q] == t.kids[..q];
    CtxUnfold(rest);
    JoinedLeaves(t, sib);
    LeavesCons(f.right);
    PathThrough(Retop(low, j, q), f', j, leaf);
    MergeJoint(LeavesBefore(up), LeavesAll(f.left), Leaves(t), Leaves(sib), LeavesAll(f.right[1..]), LeavesAfter(up));
    Assoc(LeavesBefore(up), LeavesAll(f.left), LeavesBefore(low));
  }

  lemma {:induction false} JoinedLeaves<V>(a: Tree<V>, b: Tree<V>)
    requires a.Inner? && b.Inner?
    ensures Leaves(Joined(a, b)) == Leaves(a) + Leaves(b)
    ensures InnerRefs(Joined(a, b)) + multiset{b.id} == InnerRefs(a) + InnerRefs(b)
  {
    hide LeavesAll, InnerRefsAll;
    LeavesAllAppend(a.kids, b.kids);
    InnerRefsAllAppend(a.kids, b.kids);
  }

  lemma {:induction false} PathThrough<V>(low: seq<Frame<V>>, f: Frame<V>, t: Tree<V>, leaf: LeafNode<V>)
    requires Plug(Leaf(leaf), low) == t
    ensures Plug(Leaf(leaf), low + [f]) == f.Fill(t)
    ensures LeavesBefore(low + [f]) == LeavesAll(f.left) + LeavesBefore(low)
    ensures Leaves(f.Fill(t)) == LeavesAll(f.left) + Leaves(t) + LeavesAll(f.right)
  {
    hide Plug, LeavesBefore, LeavesAll, Leaves;
    PlugAppend(Leaf(leaf), low, [f]);
    BeforeAppend(low, [f]);
    OneFrame(t, f);
    FillLeaves(f, t);
  }

  lemma {:induction false} MergeJoint<X>(b: seq<X>, x: seq<X>, t: seq<X>, u: seq<X>, y: seq<X>, a: seq<X>)
    ensures (b + x) + t + ((u + y) + a) == b + (x + (t + u) + y) + a
  {
  }

  lemma {:induction false} TrackMergeLeft<V>(ls: seq<LeafNode<V>>, before: seq<LeafNode<V>>, rest: seq<Frame<V>>,
                                             t: Tree<V>, low: seq<Frame<V>>, leaf: LeafNode<V>)
    requires OnTrack(ls, before, rest, t, low, leaf) && low != [] && rest != [] && rest[0].left != []
    requires t.Inner? && rest[0].left[|rest[0].left| - 1].Inner?
    ensures var sib := rest[0].left[|rest[0].left| - 1];
      var q, j, f' := |low[|low| - 1].left| + |sib.kids|, Joined(sib, t), MergedLeft(rest[0]);
      q < |j.kids| && OnTrack(ls, before, rest[1..], f'.Fill(j), Retop(low, j, q) + [f'], leaf)
  {
    hide Leaves, LeavesAll, LeavesBefore, LeavesAfter, Plug;
    var f, up, n := rest[0], rest[1..], |rest[0].left| - 1;
    var sib, q0 := f.left[n], |low[|low| - 1].left|;
    var q, j, f' := q0 + |sib.kids|, Joined(sib, t), MergedLeft(f);
    TopOfLow(t, low, leaf);
    RetopFacts(low, j, q, leaf);
    assert j.kids[..q] == sib.kids + t.kids[..q0];
    LeavesAllAppend(sib.kids, t.kids[..q0]);
    InnerLeaves(sib.id, sib.kids);
    CtxUnfold(rest);
    JoinedLeaves(sib, t);
    LeavesSnoc(f.left);
    PathThrough(Retop(low, j, q), f', j, leaf);
    MergeJointLeft(LeavesBefore(up), LeavesAll(f.left[..n]), Leaves(sib), Leaves(t), LeavesAll(f.right),
                   LeavesAfter(up));
    MergePathLeft(LeavesBefore(up), LeavesAll(f.left[..n]), Leaves(sib), LeavesAll(t.kids[..q0]),
                  LeavesBefore(low[..|low| - 1]));
  }

  lemma {:induction false} MergeJointLeft<X>(b: seq<X>, x: seq<X>, u: seq<X>, t: seq<X>, y: seq<X>, a: seq<X>)
    ensures (b + (x + u)) + t + (y + a) == b + (x + (u + t) + y) + a
  {
  }

  lemma {:induction false} MergePathLeft<X>(b: seq<X>, x: seq<X>, u: seq<X>, q: seq<X>, w: seq<X>)
    ensures (b + (x + u)) + (q + w) == b + (x + ((u + q) + w))
  {
  }

  // ---- Who owns which internal node ----

  lemma {:induction false} OwnersStealRight<V>(rest: seq<Frame<V>>, t: Tree<V>)
    requires rest != [] && rest[0].right != [] && t.Inner? && rest[0].right[0].Inner? && rest[0].right[0].kids != []
    ensures var sib := rest[0].right[0];
      InnerRefs(TookFirst(t, sib)) + CtxRefs([StolenRight(rest[0], LostFirst(sib))] + rest[1..]) ==
        InnerRefs(t) + CtxRefs(rest)
  {
    hide InnerRefs, InnerRefsAll;
    var f, sib := rest[0], rest[0].right[0];
    var f' := StolenRight(f, LostFirst(sib));
    assert ([f'] + rest[1..])[1..] == rest[1..];
    InnerRefsAllCons(f.right);
    InnerRefsAllCons(f'.right);
    assert f'.right[1..] == f.right[1..];
    assert sib.kids == [sib.kids[0]] + sib.kids[1..];
    assert t == Inner(t.id, t.kids) && sib == Inner(sib.id, sib.kids);
    MovedAcross(t.id, sib.id, t.kids, sib.kids[0], sib.kids[1..]);
    CtxRefsUnfold(rest);
    CtxRefsUnfold([f'] + rest[1..]);
    Exchange(multiset{f.ref}, InnerRefsAll(f.left), InnerRefs(LostFirst(sib)), InnerRefsAll(f.right[1..]),
      CtxRefs(rest[1..]),
             InnerRefs(TookFirst(t, sib)), InnerRefs(t), InnerRefs(sib));
  }

  lemma {:induction false} Exchange(f: multiset<nat>, l: multiset<nat>, j: multiset<nat>, r: multiset<nat>,
                                    c: multiset<nat>, x: multiset<nat>, t: multiset<nat>, u: multiset<nat>)
    requires j + x == t + u
    ensures (f + l + j + r + c) + x == t + (f + l + (u + r) + c)
    ensures (f + l + j + r + c) + x == t + (f + (l + u) + r + c)
  {
    forall i: nat ensures j[i] + x[i] == t[i] + u[i] {
      assert (j + x)[i] == (t + u)[i];
    }
  }

  lemma {:induction false} CtxRefsUnfold<V>(ctx: seq<Frame<V>>)
    requires ctx != []
    ensures CtxRefs(ctx) ==
      multiset{ctx[0].ref} + InnerRefsAll(ctx[0].left) + InnerRefsAll(ctx[0].right) + CtxRefs(ctx[1..])
  {
  }

  lemma {:induction false} OwnersStealLeft<V>(rest: seq<Frame<V>>, t: Tree<V>)
    requires rest != [] && rest[0].left != [] && t.Inner?
    requires rest[0].left[|rest[0].left| - 1].Inner? && rest[0].left[|rest[0].left| - 1].kids != []
    ensures var sib := rest[0].left[|rest[0].left| - 1];
      InnerRefs(TookLast(t, sib)) + CtxRefs([StolenLeft(rest[0], LostLast(sib))] + rest[1..]) ==
        InnerRefs(t) + CtxRefs(rest)
  {
    hide InnerRefs, InnerRefsAll;
    var f, n := rest[0], |rest[0].left| - 1;
    var sib := f.left[n];
    var f', m := StolenLeft(f, LostLast(sib)), |sib.kids| - 1;
    assert ([f'] + rest[1..])[1..] == rest[1..];
    InnerRefsAllSnoc(f.left);
    InnerRefsAllSnoc(f'.left);
    assert f'.left[..n] == f.left[..n];
    assert sib.kids == sib.kids[..m] + [sib.kids[m]];
    assert t == Inner(t.id, t.kids) && sib == Inner(sib.id, sib.kids);
    MovedAcross(sib.id, t.id, sib.kids[..m], sib.kids[m], t.kids);
    CtxRefsUnfold(rest);
    CtxRefsUnfold([f'] + rest[1..]);
    Exchange(multiset{f.ref}, InnerRefsAll(f.left[..n]), InnerRefs(LostLast(sib)), InnerRefsAll(f.right),
      CtxRefs(rest[1..]),
             InnerRefs(TookLast(t, sib)), InnerRefs(t), InnerRefs(sib));
  }

  lemma {:induction false} OwnersMergeRight<V>(rest: seq<Frame<V>>, t: Tree<V>)
    requires rest != [] && rest[0].right != [] && t.Inner? && rest[0].right[0].Inner?
    ensures var sib := rest[0].right[0];
      InnerRefs(MergedRight(rest[0]).Fill(Joined(t, sib))) + CtxRefs(rest[1..]) ==
        InnerRefs(t) + CtxRefs(rest) - multiset{sib.id}
  {
    hide InnerRefs, InnerRefsAll;
    var f, sib := rest[0], rest[0].right[0];
    InnerRefsAllCons(f.right);
    JoinedLeaves(t, sib);
    FillRefs(MergedRight(f), Joined(t, sib));
    CtxRefsUnfold(rest);
    Exchange(multiset{f.ref}, InnerRefsAll(f.left), InnerRefs(Joined(t, sib)), InnerRefsAll(f.right[1..]),
      CtxRefs(rest[1..]),
             multiset{sib.id}, InnerRefs(t), InnerRefs(sib));
  }

  lemma {:induction false} OwnersMergeLeft<V>(rest: seq<Frame<V>>, t: Tree<V>)
    requires rest != [] && rest[0].left != [] && t.Inner? && rest[0].left[|rest[0].left| - 1].Inner?
    ensures var sib := rest[0].left[|rest[0].left| - 1];
      InnerRefs(MergedLeft(rest[0]).Fill(Joined(sib, t))) + CtxRefs(rest[1..]) ==
        InnerRefs(t) + CtxRefs(rest) - multiset{t.id}
  {
    hide InnerRefs, InnerRefsAll;
    var f, sib := rest[0], rest[0].left[|rest[0].left| - 1];
    InnerRefsAllSnoc(f.left);
    JoinedLeaves(sib, t);
    FillRefs(MergedLeft(f), Joined(sib, t));
    CtxRefsUnfold(rest);
    Exchange(multiset{f.ref}, InnerRefsAll(MergedLeft(f).left), InnerRefs(Joined(sib, t)), InnerRefsAll(f.right),
      CtxRefs(rest[1..]),
             multiset{t.id}, InnerRefs(t), InnerRefs(sib));
  }

  // ---- Whole repairs of internal nodes ----

  /** What is known of a deficient internal node and its parent. */
  lemma {:induction false} OpenDeficient<V>(g: Geometry, s: Store<V>, t: Tree<V>, rest: seq<Frame<V>>, h: nat)
    requires Deficient(g, s, t, rest, h + 1) && rest != []
    ensures t.Inner? && t.id < |s.inner| && InnerCell(g, s.inner[t.id], Lasts(t.kids), Refs(t.kids))
    ensures g.half - 1 <= |t.kids| < g.B()
    ensures RepAll(g, s, t.kids) && WFAll(g, t.kids, h) && Last(t) == Last(t.kids[|t.kids| - 1]) < g.max
    ensures rest[0].ref < |s.inner|
    ensures InnerCell(g, s.inner[rest[0].ref], FrameLasts(rest[0], Last(t)), FrameRefs(rest[0], t.id))
    ensures 2 <= rest[0].Size() < g.B()
  {
    LastIsFinal(g, t, h + 1, g.half - 1);
  }

  /** What is known of a neighbour. */
  lemma {:induction false} OpenSibling<V>(g: Geometry, s: Store<V>, sib: Tree<V>, h: nat)
    requires Rep(g, s, sib) && WF(g, sib, h + 1, g.half)
    ensures sib.Inner? && sib.id < |s.inner| && InnerCell(g, s.inner[sib.id], Lasts(sib.kids), Refs(sib.kids))
    ensures g.half <= |sib.kids| < g.B() && RepAll(g, s, sib.kids) && WFAll(g, sib.kids, h)
    ensures forall i | 0 <= i < |sib.kids| :: Last(sib.kids[i]) < g.max
    ensures Last(sib) == Last(sib.kids[|sib.kids| - 1])
  {
    forall i | 0 <= i < |sib.kids| ensures Last(sib.kids[i]) < g.max {
      LastIsFinal(g, sib.kids[i], h, g.half);
    }
  }

  lemma {:induction false} SiblingRight<V>(g: Geometry, s: Store<V>, t: Tree<V>, rest: seq<Frame<V>>, h: nat)
    requires Deficient(g, s, t, rest, h) && rest != [] && rest[0].right != []
    ensures Rep(g, s, rest[0].right[0]) && WF(g, rest[0].right[0], h, g.half)
  {
    hide Rep, WF;
  }

  lemma {:induction false} SiblingLeft<V>(g: Geometry, s: Store<V>, t: Tree<V>, rest: seq<Frame<V>>, h: nat)
    requires Deficient(g, s, t, rest, h) && rest != [] && rest[0].left != []
    ensures Rep(g, s, rest[0].left[|rest[0].left| - 1]) && WF(g, rest[0].left[|rest[0].left| - 1], h, g.half)
  {
    hide Rep, WF;
  }

  lemma {:induction false} DeficientParts<V>(g: Geometry, s: Store<V>, t: Tree<V>, rest: seq<Frame<V>>, h: nat)
    requires Deficient(g, s, t, rest, h)
    ensures RepCtx(g, s, rest, t.Ref(), Last(t)) && WFCtx(g, rest, h)
  {
  }

  lemma {:induction false} InnerStealRight<V>(g: Geometry, s: Store<V>, s': Store<V>, t: Tree<V>, rest: seq<Frame<V>>,
                                              h: nat, free: seq<nat>, len: nat)
    requires Deficient(g, s, t, rest, h + 1) && rest != [] && rest[0].right != [] && t.Inner? && rest[0].right[0].Inner?
    requires |t.kids| == g.half - 1 && g.half < |rest[0].right[0].kids|
    requires Accounted(InnerRefs(t) + CtxRefs(rest), free, len)
    requires StoreAgree(s, s', {}, {t.id, rest[0].right[0].id, rest[0].ref})
    requires var f, sib, first := rest[0], rest[0].right[0], rest[0].right[0].kids[0];
      && t.id < |s'.inner| && InnerCell(g, s'.inner[t.id], Lasts(t.kids) + [Last(first)], Refs(t.kids) + [first.Ref()])
      && sib.id < |s'.inner| && InnerCell(g, s'.inner[sib.id], Lasts(sib.kids)[1..], Refs(sib.kids)[1..])
      && f.ref < |s'.inner|
      && InnerCell(g, s'.inner[f.ref], FrameLasts(f, Last(t))[|f.left| := Last(first)], FrameRefs(f, t.id))
    ensures var sib := rest[0].right[0]; var t', rest' := TookFirst(t, sib),
      [StolenRight(rest[0], LostFirst(sib))] + rest[1..];
      Rep(g, s', t') && WF(g, t', h + 1, g.half) && RepCtx(g, s', rest', t.id, Last(t')) && WFCtx(g, rest', h + 1)
  {
    hide Deficient, Accounted, InnerRefs, CtxRefs, InnerCell, Rep, WF, RepCtx, WFCtx, RepAll, WFAll, Last, UntouchedAll;
    hide UntouchedCtx, Agree;
    var sib, nodes := rest[0].right[0], {t.id, rest[0].right[0].id, rest[0].ref};
    InnerApartRight(t, rest, free, len);
    OpenDeficient(g, s, t, rest, h);
    SiblingRight(g, s, t, rest, h + 1);
    OpenSibling(g, s, sib, h);
    RepFrameAll(g, s, s', t.kids, {}, nodes);
    RepFrameAll(g, s, s', sib.kids, {}, nodes);
    TookFirstOK(g, s', t, sib, h);
    DeficientParts(g, s, t, rest, h + 1);
    StealRight(g, s, s', rest, h + 1, t.id, Last(t), Last(sib.kids[0]), LostFirst(sib), {}, nodes);
  }

  lemma {:induction false} InnerStealLeft<V>(g: Geometry, s: Store<V>, s': Store<V>, t: Tree<V>, rest: seq<Frame<V>>,
                                             h: nat, free: seq<nat>, len: nat)
    requires Deficient(g, s, t, rest, h + 1) && rest != [] && rest[0].left != [] && t.Inner?
    requires rest[0].left[|rest[0].left| - 1].Inner?
    requires |t.kids| == g.half - 1 && g.half < |rest[0].left[|rest[0].left| - 1].kids|
    requires Accounted(InnerRefs(t) + CtxRefs(rest), free, len)
    requires StoreAgree(s, s', {}, {t.id, rest[0].left[|rest[0].left| - 1].id, rest[0].ref})
    requires var f, sib := rest[0], rest[0].left[|rest[0].left| - 1]; var n := |sib.kids| - 1;
      && t.id < |s'.inner|
      && InnerCell(g, s'.inner[t.id], [Last(sib.kids[n])] + Lasts(t.kids), [sib.kids[n].Ref()] + Refs(t.kids))
      && sib.id < |s'.inner| && InnerCell(g, s'.inner[sib.id], Lasts(sib.kids)[..n], Refs(sib.kids)[..n])
      && f.ref < |s'.inner|
      && InnerCell(g, s'.inner[f.ref], FrameLasts(f, Last(t))[|f.left| - 1 := Last(sib.kids[n - 1])],
         FrameRefs(f, t.id))
    ensures var sib := rest[0].left[|rest[0].left| - 1];
      var t', rest' := TookLast(t, sib), [StolenLeft(rest[0], LostLast(sib))] + rest[1..];
      Rep(g, s', t') && WF(g, t', h + 1, g.half) && RepCtx(g, s', rest', t.id, Last(t')) && WFCtx(g, rest', h + 1)
  {
    hide Deficient, Accounted, InnerRefs, CtxRefs, InnerCell, Rep, WF, RepCtx, WFCtx, RepAll, WFAll, Last, UntouchedAll;
    hide UntouchedCtx, Agree;
    var sib := rest[0].left[|rest[0].left| - 1];
    var nodes := {t.id, sib.id, rest[0].ref};
    InnerApartLeft(t, rest, free, len);
    OpenDeficient(g, s, t, rest, h);
    SiblingLeft(g, s, t, rest, h + 1);
    OpenSibling(g, s, sib, h);
    RepFrameAll(g, s, s', t.kids, {}, nodes);
    RepFrameAll(g, s, s', sib.kids, {}, nodes);
    TookLastOK(g, s', t, sib, h);
    DeficientParts(g, s, t, rest, h + 1);
    StealLeft(g, s, s', rest, h + 1, t.id, Last(t), LostLast(sib), {}, nodes);
  }

  lemma {:induction false} InnerMergeRight<V>(g: Geometry, s: Store<V>, s': Store<V>, t: Tree<V>, rest: seq<Frame<V>>,
                                              h: nat, free: seq<nat>, len: nat)
    requires Deficient(g, s, t, rest, h + 1) && rest != [] && rest[0].right != [] && t.Inner? && rest[0].right[0].Inner?
    requires |t.kids| == g.half - 1 && g.half == |rest[0].right[0].kids|
    requires Accounted(InnerRefs(t) + CtxRefs(rest), free, len)
    requires StoreAgree(s, s', {}, {t.id, rest[0].right[0].id, rest[0].ref})
    requires var f, sib := rest[0], rest[0].right[0];
      && t.id < |s'.inner|
      && InnerCell(g, s'.inner[t.id], Lasts(t.kids) + Lasts(sib.kids), Refs(t.kids) + Refs(sib.kids))
      && f.ref < |s'.inner|
      && InnerCell(g, s'.inner[f.ref], RemovedAt(FrameLasts(f, Last(t)), |f.left|),
         RemovedAt(FrameRefs(f, t.id), |f.left| + 1))
    ensures Deficient(g, s', MergedRight(rest[0]).Fill(Joined(t, rest[0].right[0])), rest[1..], h + 2)
  {
    hide Deficient, Accounted, InnerRefs, CtxRefs, InnerCell, Rep, WF, RepCtx, WFCtx, RepAll, WFAll, Last, UntouchedAll;
    hide UntouchedCtx, Agree;
    var sib, nodes := rest[0].right[0], {t.id, rest[0].right[0].id, rest[0].ref};
    InnerApartRight(t, rest, free, len);
    OpenDeficient(g, s, t, rest, h);
    SiblingRight(g, s, t, rest, h + 1);
    OpenSibling(g, s, sib, h);
    RepFrameAll(g, s, s', t.kids, {}, nodes);
    RepFrameAll(g, s, s', sib.kids, {}, nodes);
    JoinedOK(g, s', t, sib, h);
    DeficientParts(g, s, t, rest, h + 1);
    MergeRight(g, s, s', rest, h + 1, Last(t), Joined(t, sib), {}, nodes);
  }

  lemma {:induction false} InnerMergeLeft<V>(g: Geometry, s: Store<V>, s': Store<V>, t: Tree<V>, rest: seq<Frame<V>>,
                                             h: nat, free: seq<nat>, len: nat)
    requires Deficient(g, s, t, rest, h + 1) && rest != [] && rest[0].left != [] && t.Inner?
    requires rest[0].left[|rest[0].left| - 1].Inner?
    requires |t.kids| == g.half - 1 && g.half == |rest[0].left[|rest[0].left| - 1].kids|
    requires Accounted(InnerRefs(t) + CtxRefs(rest), free, len)
    requires StoreAgree(s, s', {}, {t.id, rest[0].left[|rest[0].left| - 1].id, rest[0].ref})
    requires var f, sib := rest[0], rest[0].left[|rest[0].left| - 1];
      && sib.id < |s'.inner|
      && InnerCell(g, s'.inner[sib.id], Lasts(sib.kids) + Lasts(t.kids), Refs(sib.kids) + Refs(t.kids))
      && f.ref < |s'.inner|
      && InnerCell(g, s'.inner[f.ref], RemovedAt(FrameLasts(f, Last(t)), |f.left| - 1),
         RemovedAt(FrameRefs(f, t.id), |f.left|))
    ensures Deficient(g, s', MergedLeft(rest[0]).Fill(Joined(rest[0].left[|rest[0].left| - 1], t)), rest[1..], h + 2)
  {
    hide Deficient, Accounted, InnerRefs, CtxRefs, InnerCell, Rep, WF, RepCtx, WFCtx, RepAll, WFAll, Last, UntouchedAll;
    hide UntouchedCtx, Agree;
    var sib := rest[0].left[|rest[0].left| - 1];
    var nodes := {t.id, sib.id, rest[0].ref};
    InnerApartLeft(t, rest, free, len);
    OpenDeficient(g, s, t, rest, h);
    SiblingLeft(g, s, t, rest, h + 1);
    OpenSibling(g, s, sib, h);
    RepFrameAll(g, s, s', t.kids, {}, nodes);
    RepFrameAll(g, s, s', sib.kids, {}, nodes);
    JoinedOK(g, s', sib, t, h);
    DeficientParts(g, s, t, rest, h + 1);
    MergeLeft(g, s, s', rest, h + 1, t.id, Last(t), Joined(sib, t), {}, nodes);
  }

  // ---- Leaves: the nodes before and after ----

  function LeafTookFirst<V>(l: LeafNode<V>, sib: LeafNode<V>): LeafNode<V>
    requires sib.es != []
  {
    LeafNode(l.ref, l.es + [sib.es[0]])
  }

  function LeafLostFirst<V>(sib: LeafNode<V>): LeafNode<V>
    requires sib.es != []
  {
    LeafNode(sib.ref, sib.es[1..])
  }

  function LeafTookLast<V>(l: LeafNode<V>, sib: LeafNode<V>): LeafNode<V>
    requires sib.es != []
  {
    LeafNode(l.ref, [sib.es[|sib.es| - 1]] + l.es)
  }

  function LeafLostLast<V>(sib: LeafNode<V>): LeafNode<V>
    requires sib.es != []
  {
    LeafNode(sib.ref, sib.es[..|sib.es| - 1])
  }

  function LeafJoined<V>(a: LeafNode<V>, b: LeafNode<V>): LeafNode<V> {
    LeafNode(a.ref, a.es + b.es)
  }

  /** The leaves behind those of the right neighbour, and in front of those of the left one. */
  function FarAfter<V>(rest: seq<Frame<V>>): seq<LeafNode<V>>
    requires rest != [] && rest[0].right != []
  {
    LeavesAll(rest[0].right[1..]) + LeavesAfter(rest[1..])
  }

  function FarBefore<V>(rest: seq<Frame<V>>): seq<LeafNode<V>>
    requires rest != [] && rest[0].left != []
  {
    LeavesBefore(rest[1..]) + LeavesAll(rest[0].left[..|rest[0].left| - 1])
  }

  lemma {:induction false} AroundRight<V>(rest: seq<Frame<V>>, sib: LeafNode<V>)
    requires rest != [] && rest[0].right != []
    ensures var rest' := [StolenRight(rest[0], Leaf(sib))] + rest[1..];
      LeavesAfter(rest') == [sib] + FarAfter(rest) && LeavesBefore(rest') == LeavesBefore(rest)
        && CtxRefs(rest') + InnerRefs(rest[0].right[0]) == CtxRefs(rest)
    ensures rest[0].right[0].Leaf? ==> LeavesAfter(rest) == [rest[0].right[0].leaf] + FarAfter(rest)
  {
    hide Leaves, LeavesAll, LeavesBefore, LeavesAfter, InnerRefsAll, CtxRefs;
    var f := StolenRight(rest[0], Leaf(sib));
    var rest' := [f] + rest[1..];
    assert rest'[1..] == rest[1..] && f.right[1..] == rest[0].right[1..];
    CtxUnfold(rest);
    CtxUnfold(rest');
    LeavesCons(rest[0].right);
    LeavesCons(f.right);
    LeafFlat(sib);
    CtxRefsUnfold(rest);
    CtxRefsUnfold(rest');
    InnerRefsAllCons(rest[0].right);
    InnerRefsAllCons(f.right);
    if rest[0].right[0].Leaf? {
      LeafFlat(rest[0].right[0].leaf);
      Assoc([rest[0].right[0].leaf], LeavesAll(rest[0].right[1..]), LeavesAfter(rest[1..]));
    }
    Assoc([sib], LeavesAll(rest[0].right[1..]), LeavesAfter(rest[1..]));
  }

  lemma {:induction false} AroundLeft<V>(rest: seq<Frame<V>>, sib: LeafNode<V>)
    requires rest != [] && rest[0].left != []
    ensures var rest' := [StolenLeft(rest[0], Leaf(sib))] + rest[1..];
      && LeavesBefore(rest') == FarBefore(rest) + [sib] && LeavesAfter(rest') == LeavesAfter(rest)
      && CtxRefs(rest') + InnerRefs(rest[0].left[|rest[0].left| - 1]) == CtxRefs(rest)
    ensures rest[0].left[|rest[0].left| - 1].Leaf? ==>
      LeavesBefore(rest) == FarBefore(rest) + [rest[0].left[|rest[0].left| - 1].leaf]
  {
    hide Leaves, LeavesAll, LeavesBefore, LeavesAfter, InnerRefsAll, CtxRefs;
    var f, n := StolenLeft(rest[0], Leaf(sib)), |rest[0].left| - 1;
    var rest' := [f] + rest[1..];
    assert rest'[1..] == rest[1..] && f.left[..n] == rest[0].left[..n];
    CtxUnfold(rest);
    CtxUnfold(rest');
    LeavesSnoc(rest[0].left);
    LeavesSnoc(f.left);
    LeafFlat(sib);
    CtxRefsUnfold(rest);
    CtxRefsUnfold(rest');
    InnerRefsAllSnoc(rest[0].left);
    InnerRefsAllSnoc(f.left);
    if rest[0].left[n].Leaf? {
      LeafFlat(rest[0].left[n].leaf);
      Assoc(LeavesBefore(rest[1..]), LeavesAll(rest[0].left[..n]), [rest[0].left[n].leaf]);
    }
    Assoc(LeavesBefore(rest[1..]), LeavesAll(rest[0].left[..n]), [sib]);
  }

  lemma {:induction false} TwoLeavesApart<V>(b: seq<LeafNode<V>>, l: LeafNode<V>, u: LeafNode<V>, a: seq<LeafNode<V>>,
                                             free: seq<nat>, len: nat)
    requires Accounted(multiset(RefSeq(b + [l, u] + a)), free, len)
    ensures l.ref != u.ref
    ensures forall r | r in {l.ref, u.ref} :: r !in RefSeq(b) && r !in RefSeq(a)
  {
    var x, y := RefSeq(b), RefSeq(a);
    assert RefSeq(b + [l, u] + a) == x + [l.ref, u.ref] + y;
    var refs: multiset<nat> := multiset(x) + multiset([l.ref, u.ref]) + multiset(y);
    assert refs == multiset(x + [l.ref, u.ref] + y);
    assert refs[l.ref] <= 1 && refs[u.ref] <= 1;
  }

  ghost predicate NoneOf<V>(ls: seq<LeafNode<V>>, leafs: set<nat>) {
    forall r | r in leafs :: r !in RefSeq(ls)
  }

  lemma {:induction false} NoneOfParts<V>(a: seq<LeafNode<V>>, b: seq<LeafNode<V>>, leafs: set<nat>)
    requires NoneOf(a + b, leafs)
    ensures NoneOf(a, leafs) && NoneOf(b, leafs)
  {
    RefSeqAppend(a, b);
  }

  /** The current leaf, its right neighbour and their parent are apart from all the rest. */
  lemma {:induction false} LeavesApartRight<V>(l: LeafNode<V>, rest: seq<Frame<V>>, free: seq<nat>, len: nat,
                                               inFree: seq<nat>, inLen: nat)
    requires rest != [] && rest[0].right != [] && rest[0].right[0].Leaf?
    requires Accounted(multiset(RefSeq(LeavesBefore(rest) + [l] + LeavesAfter(rest))), free, len)
    requires Accounted(CtxRefs(rest), inFree, inLen)
    ensures var f := rest[0]; var leafs, inners := {l.ref, f.right[0].leaf.ref}, {f.ref};
      && l.ref != f.right[0].leaf.ref
      && UntouchedAll(f.left, leafs, inners) && UntouchedAll(f.right[1..], leafs, inners)
      && UntouchedCtx(rest[1..], leafs, inners)
  {
    hide Leaves, LeavesAll, LeavesBefore, LeavesAfter, InnerRefsAll, CtxRefs, Accounted;
    var f, up := rest[0], rest[1..];
    var sib := f.right[0].leaf;
    AroundRight(rest, sib);
    assert LeavesBefore(rest) + [l] + ([sib] + FarAfter(rest)) == LeavesBefore(rest) + [l, sib] + FarAfter(rest);
    TwoLeavesApart(LeavesBefore(rest), l, sib, FarAfter(rest), free, len);
    CtxUnfold(rest);
    NoneOfParts(LeavesBefore(up), LeavesAll(f.left), {l.ref, sib.ref});
    NoneOfParts(LeavesAll(f.right[1..]), LeavesAfter(up), {l.ref, sib.ref});
    CtxRefsUnfold(rest);
    InnerRefsAllCons(f.right);
    ParentOnly(f.ref, InnerRefsAll(f.left), InnerRefsAll(f.right), CtxRefs(up), CtxRefs(rest), inFree, inLen);
  }

  lemma {:induction false} LeavesApartLeft<V>(l: LeafNode<V>, rest: seq<Frame<V>>, free: seq<nat>, len: nat,
                                              inFree: seq<nat>, inLen: nat)
    requires rest != [] && rest[0].left != [] && rest[0].left[|rest[0].left| - 1].Leaf?
    requires Accounted(multiset(RefSeq(LeavesBefore(rest) + [l] + LeavesAfter(rest))), free, len)
    requires Accounted(CtxRefs(rest), inFree, inLen)
    ensures var f, n := rest[0], |rest[0].left| - 1; var leafs, inners := {l.ref, f.left[n].leaf.ref}, {f.ref};
      && l.ref != f.left[n].leaf.ref
      && UntouchedAll(f.left[..n], leafs, inners) && UntouchedAll(f.right, leafs, inners)
      && UntouchedCtx(rest[1..], leafs, inners)
  {
    hide Leaves, LeavesAll, LeavesBefore, LeavesAfter, InnerRefsAll, CtxRefs, Accounted;
    var f, up, n := rest[0], rest[1..], |rest[0].left| - 1;
    var sib := f.left[n].leaf;
    AroundLeft(rest, sib);
    assert (FarBefore(rest) + [sib]) + [l] + LeavesAfter(rest) == FarBefore(rest) + [sib, l] + LeavesAfter(rest);
    TwoLeavesApart(FarBefore(rest), sib, l, LeavesAfter(rest), free, len);
    CtxUnfold(rest);
    NoneOfParts(LeavesBefore(up), LeavesAll(f.left[..n]), {l.ref, sib.ref});
    NoneOfParts(LeavesAll(f.right), LeavesAfter(up), {l.ref, sib.ref});
    CtxRefsUnfold(rest);
    InnerRefsAllSnoc(f.left);
    ParentOnly(f.ref, InnerRefsAll(f.left), InnerRefsAll(f.right), CtxRefs(up), CtxRefs(rest), inFree, inLen);
  }

  lemma {:induction false} ParentOnly(f: nat, l: multiset<nat>, r: multiset<nat>, c: multiset<nat>, refs: multiset<nat>,
                                      free: seq<nat>, len: nat)
    requires Accounted(refs, free, len) && refs == multiset{f} + l + r + c
    ensures f !in l && f !in r && f !in c
  {
    assert refs[f] <= 1;
  }

  // ---- Whole repairs of leaves ----

  function AllLeaves<V>(l: LeafNode<V>, rest: seq<Frame<V>>): seq<LeafNode<V>> {
    LeavesBefore(rest) + [l] + LeavesAfter(rest)
  }

  /** What is known of a deficient leaf and its parent. */
  lemma {:induction false} OpenDeficientLeaf<V>(g: Geometry, s: Store<V>, l: LeafNode<V>, rest: seq<Frame<V>>)
    requires Deficient(g, s, Leaf(l), rest, 0) && rest != []
    ensures l.ref < |s.leaf| && LeafCell(g, s.leaf[l.ref], l.es) && g.half - 1 <= |l.es| < g.B()
    ensures forall i | 0 <= i < |l.es| :: l.es[i].last < g.max
    ensures Last(Leaf(l)) == l.es[|l.es| - 1].last
    ensures rest[0].ref < |s.inner|
    ensures InnerCell(g, s.inner[rest[0].ref], FrameLasts(rest[0], Last(Leaf(l))), FrameRefs(rest[0], l.ref))
    ensures 2 <= rest[0].Size() < g.B()
  {
  }

  lemma {:induction false} OpenSiblingLeaf<V>(g: Geometry, s: Store<V>, sib: Tree<V>)
    requires Rep(g, s, sib) && WF(g, sib, 0, g.half)
    ensures sib.Leaf? && sib.leaf.ref < |s.leaf| && LeafCell(g, s.leaf[sib.leaf.ref], sib.leaf.es)
    ensures g.half <= |sib.leaf.es| < g.B()
    ensures forall i | 0 <= i < |sib.leaf.es| :: sib.leaf.es[i].last < g.max
    ensures Last(sib) == sib.leaf.es[|sib.leaf.es| - 1].last
  {
  }

  lemma {:induction false} GoodLeaf<V>(g: Geometry, s: Store<V>, l: LeafNode<V>)
    requires l.ref < |s.leaf| && LeafCell(g, s.leaf[l.ref], l.es) && g.half <= |l.es| < g.B()
    requires forall i | 0 <= i < |l.es| :: l.es[i].last < g.max
    ensures Rep(g, s, Leaf(l)) && WF(g, Leaf(l), 0, g.half) && Last(Leaf(l)) == l.es[|l.es| - 1].last
  {
  }

  /** Two neighbouring leaves rewritten in place, entries and all, keep the chain and the order. */
  lemma {:induction false} RewriteTwo<V>(g: Geometry, cells: seq<Cell<Item<V>>>, cells': seq<Cell<Item<V>>>,
                                         b: seq<LeafNode<V>>, x: LeafNode<V>, y: LeafNode<V>, x': LeafNode<V>,
                                         y': LeafNode<V>, a: seq<LeafNode<V>>)
    requires ChainFromZero(g, cells, RefSeq(b + [x, y] + a)) && Agree(cells, cells', {x.ref, y.ref})
    requires x'.ref == x.ref < |cells| && y'.ref == y.ref < |cells| && x.es + y.es == x'.es + y'.es
    requires cells[x.ref].Sized(g) && cells'[x.ref].Sized(g) && Link(g, cells', x.ref) == Link(g, cells, x.ref)
    requires cells[y.ref].Sized(g) && cells'[y.ref].Sized(g) && Link(g, cells', y.ref) == Link(g, cells, y.ref)
    ensures RefSeq(b + [x', y'] + a) == RefSeq(b + [x, y] + a)
    ensures ChainFromZero(g, cells', RefSeq(b + [x', y'] + a))
    ensures Concat(b + [x', y'] + a) == Concat(b + [x, y] + a)
  {
    hide Chain, Concat;
    assert RefSeq(b + [x', y'] + a) == RefSeq(b + [x, y] + a);
    ChainKeep(g, cells, cells', RefSeq(b + [x, y] + a), {x.ref, y.ref});
    SplitContents(b, x, y, a, false);
    SplitContents(b, x', y', a, false);
  }

  /** Two neighbouring leaves joined in the first one; the second leaves the chain. */
  lemma {:induction false} JoinTwo<V>(g: Geometry, cells: seq<Cell<Item<V>>>, cells': seq<Cell<Item<V>>>,
                                      b: seq<LeafNode<V>>, x: LeafNode<V>, y: LeafNode<V>, a: seq<LeafNode<V>>,
                                      free: seq<nat>, len: nat)
    requires ChainFromZero(g, cells, RefSeq(b + [x, y] + a)) && Agree(cells, cells', {x.ref, y.ref})
    requires Accounted(multiset(RefSeq(b + [x, y] + a)), free, len)
    requires x.ref < |cells| && y.ref < |cells| && cells[y.ref].Sized(g)
    requires cells'[x.ref].Sized(g) && Link(g, cells', x.ref) == Link(g, cells, y.ref)
    ensures ChainFromZero(g, cells', RefSeq(b + [LeafJoined(x, y)] + a))
    ensures multiset(RefSeq(b + [LeafJoined(x, y)] + a)) == multiset(RefSeq(b + [x, y] + a)) - multiset{y.ref}
    ensures Concat(b + [LeafJoined(x, y)] + a) == Concat(b + [x, y] + a)
  {
    hide Chain, Concat, Accounted;
    var refs := RefSeq(b + [x, y] + a);
    assert RefSeq(b + [LeafJoined(x, y)] + a) == RemovedAt(refs, |b| + 1);
    assert refs[|b|] == x.ref && refs[|b| + 1] == y.ref;
    AccountedDistinct(refs, free, len);
    ChainRemove(g, cells, cells', refs, |b|);
    RemovedMultiset(refs, |b| + 1);
    SplitContents(b, x, y, a, false);
    ConcatAppend(b + [LeafJoined(x, y)], a);
    BeforeLeaf(b, LeafJoined(x, y));
  }

  lemma {:induction false} LeafStealRight<V>(g: Geometry, s: Store<V>, s': Store<V>, l: LeafNode<V>,
                                             rest: seq<Frame<V>>, free: seq<nat>, len: nat, inFree: seq<nat>,
                                             inLen: nat)
    requires Deficient(g, s, Leaf(l), rest, 0) && rest != [] && rest[0].right != [] && rest[0].right[0].Leaf?
    requires |l.es| == g.half - 1 && g.half < |rest[0].right[0].leaf.es|
    requires ChainFromZero(g, s.leaf, RefSeq(AllLeaves(l, rest)))
    requires Accounted(multiset(RefSeq(AllLeaves(l, rest))), free, len) && Accounted(CtxRefs(rest), inFree, inLen)
    requires StoreAgree(s, s', {l.ref, rest[0].right[0].leaf.ref}, {rest[0].ref})
    requires var f, sib := rest[0], rest[0].right[0].leaf;
      && l.ref < |s.leaf| && sib.ref < |s.leaf| && s.leaf[l.ref].Sized(g) && s.leaf[sib.ref].Sized(g)
      && s'.leaf[l.ref].Sized(g) && Link(g, s'.leaf, l.ref) == Link(g, s.leaf, l.ref)
      && s'.leaf[sib.ref].Sized(g) && Link(g, s'.leaf, sib.ref) == Link(g, s.leaf, sib.ref)
      && LeafCell(g, s'.leaf[l.ref], LeafTookFirst(l, sib).es) && LeafCell(g, s'.leaf[sib.ref], LeafLostFirst(sib).es)
      && f.ref < |s'.inner|
      && InnerCell(g, s'.inner[f.ref], FrameLasts(f, Last(Leaf(l)))[|f.left| := sib.es[0].last], FrameRefs(f, l.ref))
    ensures var sib := rest[0].right[0].leaf;
      var l', rest' := LeafTookFirst(l, sib), [StolenRight(rest[0], Leaf(LeafLostFirst(sib)))] + rest[1..];
      && TreeOK(g, s', Plug(Leaf(l'), rest'), |rest'|)
      && RefSeq(AllLeaves(l', rest')) == RefSeq(AllLeaves(l, rest)) && CtxRefs(rest') == CtxRefs(rest)
      && LeavesBefore(rest') == LeavesBefore(rest) && Concat(AllLeaves(l', rest')) == Concat(AllLeaves(l, rest))
  {
    hide Deficient, Accounted, CtxRefs, InnerCell, LeafCell, Rep, WF, RepCtx, WFCtx, Last, UntouchedAll, UntouchedCtx;
    hide ChainFromZero, LeavesBefore, LeavesAfter, FarAfter, Concat, Leaves, TreeOK, Plug, Link;
    var sib := rest[0].right[0].leaf;
    var l', sib' := LeafTookFirst(l, sib), LeafLostFirst(sib);
    var rest', leafs := [StolenRight(rest[0], Leaf(sib'))] + rest[1..], {l.ref, sib.ref};
    LeavesApartRight(l, rest, free, len, inFree, inLen);
    OpenDeficientLeaf(g, s, l, rest);
    SiblingRight(g, s, Leaf(l), rest, 0);
    OpenSiblingLeaf(g, s, rest[0].right[0]);
    GoodLeaf(g, s', l');
    GoodLeaf(g, s', sib');
    DeficientParts(g, s, Leaf(l), rest, 0);
    StealRight(g, s, s', rest, 0, l.ref, Last(Leaf(l)), sib.es[0].last, Leaf(sib'), leafs, {rest[0].ref});
    AroundRight(rest, sib');
    PairedAfter(LeavesBefore(rest), l, sib, FarAfter(rest));
    PairedAfter(LeavesBefore(rest), l', sib', FarAfter(rest));
    RewriteTwo(g, s.leaf, s'.leaf, LeavesBefore(rest), l, sib, l', sib', FarAfter(rest));
    LeafFlat(l');
    NoInner(rest[0].right[0]);
    Close(g, s', Leaf(l'), rest', 0);
  }

  lemma {:induction false} PairedAfter<X>(b: seq<X>, x: X, y: X, a: seq<X>)
    ensures b + [x] + ([y] + a) == b + [x, y] + a
  {
  }

  lemma {:induction false} PairedBefore<X>(b: seq<X>, x: X, y: X, a: seq<X>)
    ensures (b + [x]) + [y] + a == b + [x, y] + a
  {
  }

  lemma {:induction false} NoInner<V>(t: Tree<V>)
    requires t.Leaf?
    ensures InnerRefs(t) == multiset{}
  {
  }

  lemma {:induction false} LeafStealLeft<V>(g: Geometry, s: Store<V>, s': Store<V>, l: LeafNode<V>, rest: seq<Frame<V>>,
                                            free: seq<nat>, len: nat, inFree: seq<nat>, inLen: nat)
    requires Deficient(g, s, Leaf(l), rest, 0) && rest != [] && rest[0].left != []
    requires rest[0].left[|rest[0].left| - 1].Leaf?
    requires |l.es| == g.half - 1 && g.half < |rest[0].left[|rest[0].left| - 1].leaf.es|
    requires ChainFromZero(g, s.leaf, RefSeq(AllLeaves(l, rest)))
    requires Accounted(multiset(RefSeq(AllLeaves(l, rest))), free, len) && Accounted(CtxRefs(rest), inFree, inLen)
    requires StoreAgree(s, s', {l.ref, rest[0].left[|rest[0].left| - 1].leaf.ref}, {rest[0].ref})
    requires var f, sib := rest[0], rest[0].left[|rest[0].left| - 1].leaf; var n := |sib.es| - 1;
      && l.ref < |s.leaf| && sib.ref < |s.leaf| && s.leaf[l.ref].Sized(g) && s.leaf[sib.ref].Sized(g)
      && s'.leaf[l.ref].Sized(g) && Link(g, s'.leaf, l.ref) == Link(g, s.leaf, l.ref)
      && s'.leaf[sib.ref].Sized(g) && Link(g, s'.leaf, sib.ref) == Link(g, s.leaf, sib.ref)
      && LeafCell(g, s'.leaf[l.ref], LeafTookLast(l, sib).es) && LeafCell(g, s'.leaf[sib.ref], LeafLostLast(sib).es)
      && f.ref < |s'.inner|
      && InnerCell(g, s'.inner[f.ref], FrameLasts(f, Last(Leaf(l)))[|f.left| - 1 := sib.es[n - 1].last],
         FrameRefs(f, l.ref))
    ensures var sib := rest[0].left[|rest[0].left| - 1].leaf;
      var l', rest' := LeafTookLast(l, sib), [StolenLeft(rest[0], Leaf(LeafLostLast(sib)))] + rest[1..];
      && TreeOK(g, s', Plug(Leaf(l'), rest'), |rest'|)
      && RefSeq(AllLeaves(l', rest')) == RefSeq(AllLeaves(l, rest)) && CtxRefs(rest') == CtxRefs(rest)
      && Before(rest) == Before(rest') + [sib.es[|sib.es| - 1]]
      && Concat(AllLeaves(l', rest')) == Concat(AllLeaves(l, rest))
  {
    hide Deficient, Accounted, CtxRefs, InnerCell, LeafCell, Rep, WF, RepCtx, WFCtx, Last, UntouchedAll, UntouchedCtx;
    hide ChainFromZero, LeavesBefore, LeavesAfter, FarBefore, Concat, Leaves, TreeOK, Plug, Link;
    var last := rest[0].left[|rest[0].left| - 1];
    var sib := last.leaf;
    var l', sib', n := LeafTookLast(l, sib), LeafLostLast(sib), |sib.es| - 1;
    var rest', leafs := [StolenLeft(rest[0], Leaf(sib'))] + rest[1..], {l.ref, sib.ref};
    LeavesApartLeft(l, rest, free, len, inFree, inLen);
    OpenDeficientLeaf(g, s, l, rest);
    SiblingLeft(g, s, Leaf(l), rest, 0);
    OpenSiblingLeaf(g, s, last);
    GoodLeaf(g, s', l');
    GoodLeaf(g, s', sib');
    DeficientParts(g, s, Leaf(l), rest, 0);
    StealLeft(g, s, s', rest, 0, l.ref, Last(Leaf(l)), Leaf(sib'), leafs, {rest[0].ref});
    AroundLeft(rest, sib');
    PairedBefore(FarBefore(rest), sib, l, LeavesAfter(rest));
    PairedBefore(FarBefore(rest), sib', l', LeavesAfter(rest));
    assert sib.es + l.es == sib'.es + l'.es;
    RewriteTwo(g, s.leaf, s'.leaf, FarBefore(rest), sib, l, sib', l', LeavesAfter(rest));
    BeforeLeaf(FarBefore(rest), sib);
    BeforeLeaf(FarBefore(rest), sib');
    assert sib.es == sib'.es + [sib.es[n]];
    LeafFlat(l');
    NoInner(last);
    Close(g, s', Leaf(l'), rest', 0);
  }

  lemma {:induction false} LeafMergeRight<V>(g: Geometry, s: Store<V>, s': Store<V>, l: LeafNode<V>,
                                             rest: seq<Frame<V>>, free: seq<nat>, len: nat, inFree: seq<nat>,
                                             inLen: nat)
    requires Deficient(g, s, Leaf(l), rest, 0) && rest != [] && rest[0].right != [] && rest[0].right[0].Leaf?
    requires |l.es| == g.half - 1 && g.half == |rest[0].right[0].leaf.es|
    requires ChainFromZero(g, s.leaf, RefSeq(AllLeaves(l, rest)))
    requires Accounted(multiset(RefSeq(AllLeaves(l, rest))), free, len) && Accounted(CtxRefs(rest), inFree, inLen)
    requires StoreAgree(s, s', {l.ref, rest[0].right[0].leaf.ref}, {rest[0].ref})
    requires var f, sib := rest[0], rest[0].right[0].leaf;
      && l.ref < |s.leaf| && sib.ref < |s.leaf| && s.leaf[sib.ref].Sized(g)
      && s'.leaf[l.ref].Sized(g) && Link(g, s'.leaf, l.ref) == Link(g, s.leaf, sib.ref)
      && LeafCell(g, s'.leaf[l.ref], l.es + sib.es)
      && f.ref < |s'.inner|
      && InnerCell(g, s'.inner[f.ref], RemovedAt(FrameLasts(f, Last(Leaf(l))), |f.left|),
         RemovedAt(FrameRefs(f, l.ref), |f.left| + 1))
    ensures var sib := rest[0].right[0].leaf;
      var j, f', ls := LeafJoined(l, sib), MergedRight(rest[0]),
        LeavesBefore(rest) + [LeafJoined(l, sib)] + FarAfter(rest);
      && Deficient(g, s', f'.Fill(Leaf(j)), rest[1..], 1)
      && OnTrack(ls, LeavesBefore(rest), rest[1..], f'.Fill(Leaf(j)), [f'], j)
      && ChainFromZero(g, s'.leaf, RefSeq(ls))
      && multiset(RefSeq(ls)) == multiset(RefSeq(AllLeaves(l, rest))) - multiset{sib.ref}
      && Concat(ls) == Concat(AllLeaves(l, rest)) && InnerRefs(f'.Fill(Leaf(j))) + CtxRefs(rest[1..]) == CtxRefs(rest)
  {
    hide Deficient, Accounted, CtxRefs, InnerCell, LeafCell, Rep, WF, RepCtx, WFCtx, Last, UntouchedAll, UntouchedCtx;
    hide ChainFromZero, LeavesBefore, LeavesAfter, LeavesAll, Concat, Leaves, Plug, Link, InnerRefs, InnerRefsAll;
    var f, sib := rest[0], rest[0].right[0].leaf;
    var j, f', leafs := LeafJoined(l, sib), MergedRight(f), {l.ref, sib.ref};
    LeavesApartRight(l, rest, free, len, inFree, inLen);
    OpenDeficientLeaf(g, s, l, rest);
    SiblingRight(g, s, Leaf(l), rest, 0);
    OpenSiblingLeaf(g, s, f.right[0]);
    GoodLeaf(g, s', j);
    DeficientParts(g, s, Leaf(l), rest, 0);
    MergeRight(g, s, s', rest, 0, Last(Leaf(l)), Leaf(j), leafs, {f.ref});
    AroundRight(rest, sib);
    PairedAfter(LeavesBefore(rest), l, sib, FarAfter(rest));
    JoinTwo(g, s.leaf, s'.leaf, LeavesBefore(rest), l, sib, FarAfter(rest), free, len);
    CtxUnfold(rest);
    TrackLeafMerge(rest[1..], f', j);
    OwnersLeafMerge(rest, f', j, f.right[0]);
  }

  /** A merged leaf under its parent is on track. */
  lemma {:induction false} TrackLeafMerge<V>(up: seq<Frame<V>>, f: Frame<V>, j: LeafNode<V>)
    ensures OnTrack((LeavesBefore(up) + LeavesAll(f.left)) + [j] + (LeavesAll(f.right) + LeavesAfter(up)),
                    LeavesBefore(up) + LeavesAll(f.left), up, f.Fill(Leaf(j)), [f], j)
  {
    hide LeavesBefore, LeavesAfter, LeavesAll, Leaves, Plug;
    LeafFlat(j);
    OneFrame(Leaf(j), f);
    FillLeaves(f, Leaf(j));
    Regroup(LeavesBefore(up), LeavesAll(f.left), [j], LeavesAll(f.right), LeavesAfter(up));
  }

  lemma {:induction false} OwnersLeafMerge<V>(rest: seq<Frame<V>>, f: Frame<V>, j: LeafNode<V>, gone: Tree<V>)
    requires rest != [] && gone.Leaf? && f.ref == rest[0].ref
    requires || (f.left == rest[0].left && rest[0].right == [gone] + f.right)
             || (f.right == rest[0].right && rest[0].left == f.left + [gone])
    ensures InnerRefs(f.Fill(Leaf(j))) + CtxRefs(rest[1..]) == CtxRefs(rest)
  {
    hide InnerRefsAll, CtxRefs;
    CtxRefsUnfold(rest);
    FillRefs(f, Leaf(j));
    OneTree(gone);
    InnerRefsAllAppend([gone], f.right);
    InnerRefsAllAppend(f.left, [gone]);
  }

  lemma {:induction false} LeafMergeLeft<V>(g: Geometry, s: Store<V>, s': Store<V>, l: LeafNode<V>, rest: seq<Frame<V>>,
                                            free: seq<nat>, len: nat, inFree: seq<nat>, inLen: nat)
    requires Deficient(g, s, Leaf(l), rest, 0) && rest != [] && rest[0].left != []
    requires rest[0].left[|rest[0].left| - 1].Leaf?
    requires |l.es| == g.half - 1 && g.half == |rest[0].left[|rest[0].left| - 1].leaf.es|
    requires ChainFromZero(g, s.leaf, RefSeq(AllLeaves(l, rest)))
    requires Accounted(multiset(RefSeq(AllLeaves(l, rest))), free, len) && Accounted(CtxRefs(rest), inFree, inLen)
    requires StoreAgree(s, s', {l.ref, rest[0].left[|rest[0].left| - 1].leaf.ref}, {rest[0].ref})
    requires var f, sib := rest[0], rest[0].left[|rest[0].left| - 1].leaf;
      && l.ref < |s.leaf| && sib.ref < |s.leaf| && s.leaf[l.ref].Sized(g)
      && s'.leaf[sib.ref].Sized(g) && Link(g, s'.leaf, sib.ref) == Link(g, s.leaf, l.ref)
      && LeafCell(g, s'.leaf[sib.ref], sib.es + l.es)
      && f.ref < |s'.inner|
      && InnerCell(g, s'.inner[f.ref], RemovedAt(FrameLasts(f, Last(Leaf(l))), |f.left| - 1),
         RemovedAt(FrameRefs(f, l.ref), |f.left|))
    ensures var sib := rest[0].left[|rest[0].left| - 1].leaf;
      var j, f', ls := LeafJoined(sib, l), MergedLeft(rest[0]),
        FarBefore(rest) + [LeafJoined(sib, l)] + LeavesAfter(rest);
      && Deficient(g, s', f'.Fill(Leaf(j)), rest[1..], 1)
      && OnTrack(ls, FarBefore(rest), rest[1..], f'.Fill(Leaf(j)), [f'], j)
      && ChainFromZero(g, s'.leaf, RefSeq(ls))
      && multiset(RefSeq(ls)) == multiset(RefSeq(AllLeaves(l, rest))) - multiset{l.ref}
      && Concat(ls) == Concat(AllLeaves(l, rest)) && InnerRefs(f'.Fill(Leaf(j))) + CtxRefs(rest[1..]) == CtxRefs(rest)
      && Before(rest) == Concat(FarBefore(rest)) + sib.es
  {
    hide Deficient, Accounted, CtxRefs, InnerCell, LeafCell, Rep, WF, RepCtx, WFCtx, Last, UntouchedAll, UntouchedCtx;
    hide ChainFromZero, LeavesBefore, LeavesAfter, LeavesAll, Concat, Leaves, Plug, Link, InnerRefs, InnerRefsAll;
    var f, n := rest[0], |rest[0].left| - 1;
    var sib := f.left[n].leaf;
    var j, f', leafs := LeafJoined(sib, l), MergedLeft(f), {l.ref, sib.ref};
    LeavesApartLeft(l, rest, free, len, inFree, inLen);
    OpenDeficientLeaf(g, s, l, rest);
    SiblingLeft(g, s, Leaf(l), rest, 0);
    OpenSiblingLeaf(g, s, f.left[n]);
    GoodLeaf(g, s', j);
    DeficientParts(g, s, Leaf(l), rest, 0);
    MergeLeft(g, s, s', rest, 0, l.ref, Last(Leaf(l)), Leaf(j), leafs, {f.ref});
    AroundLeft(rest, sib);
    PairedBefore(FarBefore(rest), sib, l, LeavesAfter(rest));
    JoinTwo(g, s.leaf, s'.leaf, FarBefore(rest), sib, l, LeavesAfter(rest), free, len);
    BeforeLeaf(FarBefore(rest), sib);
    CtxUnfold(rest);
    TrackLeafMerge(rest[1..], f', j);
    OwnersLeafMerge(rest, f', j, f.left[n]);
  }

  // ---- Taking the entry out ----

  ghost predicate Once(refs: multiset<nat>) {
    forall i: nat :: refs[i] <= 1
  }

  lemma {:induction false} AccountedOnce(refs: multiset<nat>, free: seq<nat>, len: nat)
    requires Accounted(refs, free, len)
    ensures Once(refs)
  {
  }

  /**
   The right-most pivot of a leaf is stored only in the first ancestor that has further children
   to the right. Rewriting it there, and nowhere else, moves the whole path to the new pivot.
   */
  lemma {:induction false} Relast<V>(g: Geometry, s: Store<V>, s': Store<V>, ctx: seq<Frame<V>>, k: nat, ref: nat,
                                     last: nat, last': nat)
    requires RepCtx(g, s, ctx, ref, last) && k < |ctx| && ctx[k].right != []
    requires (forall i | 0 <= i < k :: ctx[i].right == [])
    requires StoreAgree(s, s', {}, {ctx[k].ref}) && ctx[k].ref < |s.inner| && s.inner[ctx[k].ref].Sized(g)
    requires |ctx[k].left| < g.B()
    requires s'.inner[ctx[k].ref] == Live(s.inner[ctx[k].ref].pivots[|ctx[k].left| := last'], s.inner[ctx[k].ref].slots)
    requires Once(CtxRefs(ctx))
    ensures RepCtx(g, s', ctx, ref, last')
    decreases |ctx|
  {
    hide RepCtx, CtxRefs, InnerCell, RepAll, UntouchedAll, UntouchedCtx, Once, FrameLast, RepFrameNode, FrameLasts;
    hide FrameRefs;
    var f, up := ctx[0], ctx[1..];
    OnceApart(ctx, k);
    PathCons(g, s, ctx, ref, last);
    RepFrameAll(g, s, s', f.left, {}, {ctx[k].ref});
    RepFrameAll(g, s, s', f.right, {}, {ctx[k].ref});
    if k == 0 {
      RelastCell(g, s.inner[f.ref], f, ref, last, last');
      RepCtxFrame(g, s, s', up, f.ref, FrameLast(f, last), {}, {f.ref});
    } else {
      EdgeFrame(g, s.inner[f.ref], f, ref, last, last');
      assert forall i | 0 <= i < k - 1 :: up[i] == ctx[i + 1];
      Relast(g, s, s', up, k - 1, f.ref, last, last');
    }
    ConsPath(g, s', ctx, ref, last');
  }

  /** A path is represented when its first frame is and the rest of it is. */
  lemma {:induction false} PathCons<V>(g: Geometry, s: Store<V>, ctx: seq<Frame<V>>, ref: nat, last: nat)
    requires RepCtx(g, s, ctx, ref, last) && ctx != []
    ensures ctx[0].ref < |s.inner|
    ensures InnerCell(g, s.inner[ctx[0].ref], FrameLasts(ctx[0], last), FrameRefs(ctx[0], ref))
    ensures RepAll(g, s, ctx[0].left) && RepAll(g, s, ctx[0].right)
    ensures RepCtx(g, s, ctx[1..], ctx[0].ref, FrameLast(ctx[0], last))
  {
  }

  lemma {:induction false} ConsPath<V>(g: Geometry, s: Store<V>, ctx: seq<Frame<V>>, ref: nat, last: nat)
    requires ctx != [] && ctx[0].ref < |s.inner|
    requires InnerCell(g, s.inner[ctx[0].ref], FrameLasts(ctx[0], last), FrameRefs(ctx[0], ref))
    requires RepAll(g, s, ctx[0].left) && RepAll(g, s, ctx[0].right)
    requires RepCtx(g, s, ctx[1..], ctx[0].ref, FrameLast(ctx[0], last))
    ensures RepCtx(g, s, ctx, ref, last)
  {
  }

  lemma {:induction false} RelastCell<V>(g: Geometry, c: Cell<nat>, f: Frame<V>, ref: nat, last: nat, last': nat)
    requires InnerCell(g, c, FrameLasts(f, last), FrameRefs(f, ref)) && f.right != [] && |f.left| < g.B() && c.Sized(g)
    ensures InnerCell(g, Live(c.pivots[|f.left| := last'], c.slots), FrameLasts(f, last'), FrameRefs(f, ref))
    ensures FrameLast(f, last) == FrameLast(f, last')
  {
    hide InnerCell;
    InnerSetPivot(g, c, FrameLasts(f, last), FrameRefs(f, ref), |f.left|, last');
    assert FrameLasts(f, last)[|f.left| := last'] == FrameLasts(f, last');
  }

  lemma {:induction false} EdgeFrame<V>(g: Geometry, c: Cell<nat>, f: Frame<V>, ref: nat, last: nat, last': nat)
    requires InnerCell(g, c, FrameLasts(f, last), FrameRefs(f, ref)) && f.right == []
    ensures InnerCell(g, c, FrameLasts(f, last'), FrameRefs(f, ref)) && FrameLast(f, last) == last
    ensures FrameLast(f, last') == last'
  {
    hide InnerCell;
    assert FrameLasts(f, last) == Lasts(f.left) + [last] && FrameLasts(f, last') == Lasts(f.left) + [last'];
    EdgeCell(g, c, Lasts(f.left), last, last', FrameRefs(f, ref));
  }

  lemma {:induction false} OnceApart<V>(ctx: seq<Frame<V>>, k: nat)
    requires Once(CtxRefs(ctx)) && k < |ctx|
    ensures UntouchedAll(ctx[0].left, {}, {ctx[k].ref}) && UntouchedAll(ctx[0].right, {}, {ctx[k].ref})
    ensures Once(CtxRefs(ctx[1..])) && ctx[k].ref in CtxRefs(ctx)
    ensures k == 0 ==> UntouchedCtx(ctx[1..], {}, {ctx[0].ref})
    ensures k > 0 ==> ctx[k].ref != ctx[0].ref
    decreases |ctx|
  {
    hide InnerRefsAll, LeavesAll, LeavesBefore, LeavesAfter, CtxRefs;
    CtxRefsUnfold(ctx);
    var refs, l, r, c := CtxRefs(ctx), InnerRefsAll(ctx[0].left), InnerRefsAll(ctx[0].right), CtxRefs(ctx[1..]);
    forall i: nat ensures refs[i] == multiset{ctx[0].ref}[i] + l[i] + r[i] + c[i] <= 1 {
    }
    if k > 0 {
      OnceApart(ctx[1..], k - 1);
      assert ctx[1..][k - 1] == ctx[k];
      assert c[ctx[k].ref] >= 1;
    }
  }

  /** A node on the path shows by its separator whether more children follow. */
  lemma {:induction false} PathNode<V>(g: Geometry, s: Store<V>, ctx: seq<Frame<V>>, k: nat, ref: nat, last: nat,
                                       h: nat)
    requires RepCtx(g, s, ctx, ref, last) && WFCtx(g, ctx, h) && k < |ctx| && last < g.max
    ensures ctx[k].ref < |s.inner| && s.inner[ctx[k].ref].Sized(g) && |ctx[k].left| < g.B()
    ensures s.inner[ctx[k].ref].pivots[|ctx[k].left|] != g.max <==> ctx[k].right != []
    decreases |ctx|
  {
    hide WF, Rep;
    var f := ctx[0];
    if k == 0 {
      Neighbours(g, s.inner[f.ref], f, ref, last);
    } else {
      if f.right != [] {
        LastIsFinal(g, f.right[|f.right| - 1], h, g.half);
      }
      PathNode(g, s, ctx[1..], k - 1, f.ref, FrameLast(f, last), h + 1);
    }
  }

  /** Taking out one entry leaves a leaf that may have one too few. */
  lemma {:induction false} TakenOut<V>(g: Geometry, s: Store<V>, l: LeafNode<V>, ctx: seq<Frame<V>>, i: nat)
    requires TreeOK(g, s, Plug(Leaf(l), ctx), |ctx|) && i < |l.es|
    ensures |Before(ctx)| + i < |Flat(Plug(Leaf(l), ctx))| && Flat(Plug(Leaf(l), ctx))[|Before(ctx)| + i] == l.es[i]
    ensures var es := RemovedAt(l.es, i);
      && WF(g, Leaf(LeafNode(l.ref, es)), 0, if ctx == [] then 0 else if g.half < |l.es| then g.half else g.half - 1)
      && (ctx != [] ==> 0 < |es| && (i < |es| ==> Last(Leaf(LeafNode(l.ref, es))) == Last(Leaf(l))))
      && Before(ctx) + es + After(ctx) == RemovedAt(Flat(Plug(Leaf(l), ctx)), |Before(ctx)| + i)
  {
    hide TreeOK, Plug, LeafCell, Concat, LeavesBefore, LeavesAfter, Leaves;
    OpenLeaf(g, s, Leaf(l), ctx);
    PlugFlat(Leaf(l), ctx);
    LeafFlat(l);
    ContentsRemoved(Before(ctx), l.es, After(ctx), i);
  }

  lemma {:induction false} ContentsRemoved<V>(before: seq<Entry<V>>, es: seq<Entry<V>>, after: seq<Entry<V>>, i: nat)
    requires i < |es|
    ensures before + RemovedAt(es, i) + after == RemovedAt(before + es + after, |before| + i)
  {
  }

  lemma {:induction false} InnerAt(g: Geometry, c: Cell<nat>, lasts: seq<nat>, refs: seq<nat>, i: nat)
    requires InnerCell(g, c, lasts, refs) && i < |lasts|
    ensures c.Sized(g) && |refs| == |lasts| <= g.B() && c.slots[i] == Value(refs[i])
    ensures i + 1 < |lasts| ==> c.pivots[i] == lasts[i]
  {
  }

  lemma {:induction false} LeafAt<V>(g: Geometry, c: Cell<Item<V>>, es: seq<Entry<V>>, i: nat)
    requires LeafCell(g, c, es) && i < |es|
    ensures c.Sized(g) && |es| <= g.B() && c.pivots[i] == es[i].last
    ensures c.slots[i] == Value(Item(es[i].start, es[i].value))
  {
  }

  /** `internal_end`: the first `max` separator belongs to the last child. */
  lemma {:induction false} EndOfInner(g: Geometry, c: Cell<nat>, lasts: seq<nat>, refs: seq<nat>)
    requires InnerCell(g, c, lasts, refs) && 0 < |lasts| < g.B() && forall i | 0 <= i < |lasts| :: lasts[i] < g.max
    ensures c.pivots[g.B() - 1] == g.max && FirstGe(c.pivots, g.max) == |lasts| - 1
  {
    assert c.pivots[|lasts| - 1] == g.max;
    assert forall i | 0 <= i < |lasts| - 1 :: c.pivots[i] == lasts[i];
  }

  // ---- Finishing ----

  /** A path whose nodes are all large enough again closes to a good tree. */
  lemma {:induction false} FinishTrack<V>(g: Geometry, s: Store<V>, t: Tree<V>, rest: seq<Frame<V>>, h: nat,
                                          ls: seq<LeafNode<V>>, before: seq<LeafNode<V>>, low: seq<Frame<V>>,
                                          leaf: LeafNode<V>)
    requires Rep(g, s, t) && RepCtx(g, s, rest, t.Ref(), Last(t)) && WFCtx(g, rest, h)
    requires WF(g, t, h, if rest == [] then RootMin(h) else g.half)
    requires OnTrack(ls, before, rest, t, low, leaf) && ChainFromZero(g, s.leaf, RefSeq(ls))
    ensures var ctx := low + rest; var shape := Plug(Leaf(leaf), ctx);
      && TreeOK(g, s, shape, h + |rest|) && Leaves(shape) == ls && LeavesBefore(ctx) == before
      && InnerRefs(shape) == InnerRefs(t) + CtxRefs(rest)
      && shape.Ref() == if rest == [] then t.Ref() else rest[|rest| - 1].ref
  {
    hide Rep, WF, RepCtx, WFCtx, Leaves, LeavesBefore, LeavesAfter, InnerRefs, CtxRefs, Plug, ChainFromZero, Last;
    hide TreeOK;
    PlugAppend(Leaf(leaf), low, rest);
    BeforeAppend(low, rest);
    Close(g, s, t, rest, h);
    PlugLeaves(t, rest);
    PlugRefs(t, rest);
    PlugRoot(t, rest);
  }

  /** A root with a single child gives way to that child. */
  lemma {:induction false} CollapseRoot<V>(g: Geometry, s: Store<V>, s': Store<V>, t: Tree<V>, h: nat,
                                           ls: seq<LeafNode<V>>, before: seq<LeafNode<V>>, low: seq<Frame<V>>,
                                           leaf: LeafNode<V>, free: seq<nat>, len: nat)
    requires Deficient(g, s, t, [], h + 1) && t.Inner? && |t.kids| == 1 && low != [] && StoreAgree(s, s', {}, {t.id})
    requires OnTrack(ls, before, [], t, low, leaf) && Accounted(InnerRefs(t) + CtxRefs<V>([]), free, len)
    ensures var k, low' := t.kids[0], low[..|low| - 1];
      && Rep(g, s', k) && WF(g, k, h, RootMin(h)) && OnTrack(ls, before, [], k, low', leaf)
      && InnerRefs(t) + CtxRefs<V>([]) - multiset{t.id} == InnerRefs(k) + CtxRefs<V>([])
  {
    hide InnerRefsAll, LeavesAll, Leaves, LeavesBefore, LeavesAfter, Plug, Accounted;
    var k := t.kids[0];
    assert t.kids == [k];
    TopOfLow(t, low, leaf);
    OneTree(k);
    InnerLeaves(t.id, t.kids);
    NoFrames<V>();
    assert t.kids[..0] == [];
    NoLeaves<V>();
    OwnOnce(t, free, len);
    RepFrame(g, s, s', k, {}, {t.id});
    WeakerWF(g, k, h);
  }

  lemma {:induction false} NoLeaves<V>()
    ensures LeavesAll<V>([]) == []
  {
  }

  lemma {:induction false} OwnOnce<V>(t: Tree<V>, free: seq<nat>, len: nat)
    requires t.Inner? && |t.kids| == 1 && Accounted(InnerRefs(t) + CtxRefs<V>([]), free, len)
    ensures Untouched(t.kids[0], {}, {t.id})
  {
    hide InnerRefsAll;
    assert t.kids == [t.kids[0]];
    OneTree(t.kids[0]);
    assert (InnerRefs(t) + CtxRefs<V>([]))[t.id] <= 1;
  }

  lemma {:induction false} WeakerWF<V>(g: Geometry, t: Tree<V>, h: nat)
    requires WF(g, t, h, g.half)
    ensures WF(g, t, h, RootMin(h))
  {
  }

  // ---- The stack ----

  lemma {:induction false} StackSteal<V>(stack: seq<(nat, nat)>, low: seq<Frame<V>>, rest: seq<Frame<V>>, top: Frame<V>,
                                         f: Frame<V>)
    requires OnStack(stack, 0, low + rest) && low != [] && rest != [] && Spot(f) == Spot(rest[0])
    ensures |low| < |stack| && stack[|low|] == Spot(low[|low| - 1])
    ensures OnStack(stack[|low| := Spot(top)], 0, (low[..|low| - 1] + [top]) + ([f] + rest[1..]))
  {
    var n := |low| - 1;
    var a, b := low + rest, (low[..n] + [top]) + ([f] + rest[1..]);
    assert a[n] == low[n];
    assert forall i | 0 <= i < |b| :: Spot(b[i]) == if i == n then Spot(top) else Spot(a[i]);
  }

  lemma {:induction false} StackMerge<V>(stack: seq<(nat, nat)>, low: seq<Frame<V>>, rest: seq<Frame<V>>, top: Frame<V>,
                                         f: Frame<V>)
    requires OnStack(stack, 0, low + rest) && low != [] && rest != []
    ensures |low| + 1 < |stack| && stack[|low|] == Spot(low[|low| - 1]) && stack[|low| + 1] == Spot(rest[0])
    ensures OnStack(stack[|low| := Spot(top)][|low| + 1 := Spot(f)], 0, ((low[..|low| - 1] + [top]) + [f]) + rest[1..])
  {
    var n := |low| - 1;
    var a, b := low + rest, ((low[..n] + [top]) + [f]) + rest[1..];
    assert a[n] == low[n] && a[n + 1] == rest[0];
    assert forall i | 0 <= i < |b| :: b[i] == if i == n then top else if i == n + 1 then f else a[i];
  }

  lemma {:induction false} StackCut<V>(stack: seq<(nat, nat)>, low: seq<Frame<V>>)
    requires OnStack(stack, 0, low + []) && low != []
    ensures |stack| == |low| + 1
    ensures OnStack(stack[..|low|], 0, low[..|low| - 1] + []) && stack[..|low|][0] == stack[0]
  {
    assert low + [] == low && low[..|low| - 1] + [] == low[..|low| - 1];
  }

  /** Whether a neighbour can spare an element shows in its pivot `half - 1`. */
  lemma {:induction false} CanSteal(g: Geometry, c: Cell<nat>, lasts: seq<nat>, refs: seq<nat>)
    requires InnerCell(g, c, lasts, refs) && g.half <= |lasts| && forall i | 0 <= i < |lasts| :: lasts[i] < g.max
    ensures c.Sized(g) && (c.pivots[g.half - 1] != g.max <==> g.half < |lasts|)
  {
  }

  lemma {:induction false} ParentSlots<V>(g: Geometry, c: Cell<nat>, f: Frame<V>, last: nat, ref: nat)
    requires InnerCell(g, c, FrameLasts(f, last), FrameRefs(f, ref)) && f.Size() < g.B() && last < g.max
    ensures c.Sized(g) && FrameLasts(f, last)[|f.left|] == last
    ensures c.pivots[|f.left|] != g.max <==> f.right != []
    ensures f.right != [] ==> c.slots[|f.left| + 1] == Value(f.right[0].Ref())
    ensures f.left != [] ==>
      c.slots[|f.left| - 1] == Value(f.left[|f.left| - 1].Ref())
      && FrameLasts(f, last)[|f.left| - 1] == Last(f.left[|f.left| - 1])
  {
    Neighbours(g, c, f, ref, last);
  }

  lemma {:induction false} OwnedIn<V>(t: Tree<V>, rest: seq<Frame<V>>)
    requires rest != [] && t.Inner?
    ensures t.id in InnerRefs(t) + CtxRefs(rest)
    ensures rest[0].right != [] && rest[0].right[0].Inner? ==> rest[0].right[0].id in InnerRefs(t) + CtxRefs(rest)
  {
    hide InnerRefsAll;
    if rest[0].right != [] {
      InnerRefsAllCons(rest[0].right);
    }
  }

  lemma {:induction false} TrackTop<V>(ls: seq<LeafNode<V>>, before: seq<LeafNode<V>>, rest: seq<Frame<V>>, t: Tree<V>,
                                       low: seq<Frame<V>>, leaf: LeafNode<V>)
    requires OnTrack(ls, before, rest, t, low, leaf) && low != []
    ensures var n := |low| - 1; t.Inner? && |low[n].left| < |t.kids| && low[n] == FrameAt(t, |low[n].left|)
  {
    TopOfLow(t, low, leaf);
  }

  /** What the root or another internal node on the path shows of its number of children. */
  lemma {:induction false} CountTest<V>(g: Geometry, s: Store<V>, t: Tree<V>, rest: seq<Frame<V>>, h: nat)
    requires Deficient(g, s, t, rest, h + 1)
    ensures t.Inner? && t.id < |s.inner| && s.inner[t.id].Sized(g) && 1 <= |t.kids| < g.B()
    ensures s.inner[t.id].slots[0] == Value(t.kids[0].Ref())
    ensures s.inner[t.id].pivots[0] == g.max <==> |t.kids| == 1
    ensures rest != [] ==>
      g.half - 1 <= |t.kids| && (s.inner[t.id].pivots[g.half - 2] == g.max <==> |t.kids| == g.half - 1)
    ensures rest != [] ==> 2 <= rest[0].Size() < g.B()
  {
    LastIsFinal(g, t.kids[0], h, g.half);
    if rest != [] {
      LastIsFinal(g, t.kids[g.half - 2], h, g.half);
    }
  }

  lemma {:induction false} LargeEnough<V>(g: Geometry, s: Store<V>, t: Tree<V>, rest: seq<Frame<V>>, h: nat)
    requires Deficient(g, s, t, rest, h + 1) && t.Inner? && (if rest == [] then 2 else g.half) <= |t.kids|
    ensures Rep(g, s, t) && RepCtx(g, s, rest, t.Ref(), Last(t)) && WFCtx(g, rest, h + 1)
    ensures WF(g, t, h + 1, if rest == [] then RootMin(h + 1) else g.half)
  {
  }

  lemma {:induction false} NilRep<V>(g: Geometry, s: Store<V>, ref: nat, last: nat, h: nat)
    ensures RepCtx<V>(g, s, [], ref, last) && WFCtx<V>(g, [], h)
  {
  }

  lemma {:induction false} TopSpot<V>(stack: seq<(nat, nat)>, low: seq<Frame<V>>, rest: seq<Frame<V>>,
                                      ls: seq<LeafNode<V>>, before: seq<LeafNode<V>>, t: Tree<V>, leaf: LeafNode<V>)
    requires OnStack(stack, 0, low + rest) && low != [] && OnTrack(ls, before, rest, t, low, leaf)
    ensures |low| < |stack| && t.Inner? && stack[|low|].0 == t.id
  {
    hide OnTrack;
    TrackTop(ls, before, rest, t, low, leaf);
    assert (low + rest)[|low| - 1] == low[|low| - 1];
  }

  lemma {:induction false} RootOwned<V>(t: Tree<V>)
    requires t.Inner?
    ensures t.id in InnerRefs(t) + CtxRefs<V>([])
  {
  }

  lemma {:induction false} PlugAll<V>(l: LeafNode<V>, ctx: seq<Frame<V>>)
    ensures Leaves(Plug(Leaf(l), ctx)) == AllLeaves(l, ctx) && InnerRefs(Plug(Leaf(l), ctx)) == CtxRefs(ctx)
    ensures Plug(Leaf(l), ctx).Ref() == RootOf(ctx, Leaf(l))
  {
    hide Plug, LeavesBefore, LeavesAfter, CtxRefs;
    PlugLeaves(Leaf(l), ctx);
    PlugRefs(Leaf(l), ctx);
    PlugRoot(Leaf(l), ctx);
  }

  /** Whether a neighbouring leaf can spare an entry shows in its pivot `half`. */
  lemma {:induction false} CanStealLeaf<V>(g: Geometry, c: Cell<Item<V>>, es: seq<Entry<V>>)
    requires LeafCell(g, c, es) && g.half <= |es| < g.B() && forall i | 0 <= i < |es| :: es[i].last < g.max
    ensures c.Sized(g) && (c.pivots[g.half] != g.max <==> g.half < |es|)
  {
  }

  lemma {:induction false} StackFrame<V>(stack: seq<(nat, nat)>, ctx: seq<Frame<V>>, f: Frame<V>)
    requires OnStack(stack, 0, ctx) && ctx != []
    ensures 1 < |stack| && stack[1] == Spot(ctx[0])
    ensures OnStack(stack[1 := Spot(f)], 0, [f] + ctx[1..])
    ensures Spot(f) == Spot(ctx[0]) ==> OnStack(stack, 0, [f] + ctx[1..])
  {
    var path := [f] + ctx[1..];
    assert forall i | 0 <= i < |path| :: path[i] == if i == 0 then f else ctx[i];
  }

  lemma {:induction false} StackLeaf<V>(stack: seq<(nat, nat)>, ctx: seq<Frame<V>>, spot: (nat, nat))
    requires OnStack(stack, 0, ctx)
    ensures stack != [] && OnStack(stack[0 := spot], 0, ctx)
  {
  }

  /** Facts about the chain links and owners of the current leaf and a neighbour. */
  lemma {:induction false} LeafLinks<V>(g: Geometry, cells: seq<Cell<Item<V>>>, b: seq<LeafNode<V>>, x: LeafNode<V>,
                                        y: LeafNode<V>, a: seq<LeafNode<V>>)
    requires ChainFromZero(g, cells, RefSeq(b + [x, y] + a))
    ensures x.ref < |cells| && y.ref < |cells| && cells[x.ref].Sized(g) && cells[y.ref].Sized(g)
    ensures Link(g, cells, x.ref).NextLeaf? && Link(g, cells, y.ref).NextLeaf?
    ensures x.ref in RefSeq(b + [x, y] + a) && y.ref in RefSeq(b + [x, y] + a)
  {
    var refs, i := RefSeq(b + [x, y] + a), |b|;
    assert refs[i] == x.ref && refs[i + 1] == y.ref;
    assert i + 2 < |refs| ==> Link(g, cells, refs[i + 1]) == NextLeaf(Some(refs[i + 2]));
  }

  /** Everything the repair of a leaf from the right reads. */
  lemma {:induction false} RightLeafFacts<V>(g: Geometry, s: Store<V>, l: LeafNode<V>, rest: seq<Frame<V>>,
                                             free: seq<nat>, len: nat, inFree: seq<nat>, inLen: nat)
    requires Deficient(g, s, Leaf(l), rest, 0) && rest != [] && rest[0].right != []
    requires ChainFromZero(g, s.leaf, RefSeq(AllLeaves(l, rest)))
    requires Accounted(multiset(RefSeq(AllLeaves(l, rest))), free, len) && Accounted(CtxRefs(rest), inFree, inLen)
    ensures rest[0].right[0].Leaf?
    ensures var f, sib := rest[0], rest[0].right[0].leaf;
      && f.ref < |s.inner| && s.inner[f.ref].Sized(g) && f.Size() < g.B()
      && InnerCell(g, s.inner[f.ref], FrameLasts(f, Last(Leaf(l))), FrameRefs(f, l.ref))
      && s.inner[f.ref].slots[|f.left| + 1] == Value(sib.ref)
      && l.ref < |s.leaf| && s.leaf[l.ref].Sized(g) && LeafCell(g, s.leaf[l.ref], l.es)
      && sib.ref < |s.leaf| && s.leaf[sib.ref].Sized(g) && LeafCell(g, s.leaf[sib.ref], sib.es)
      && l.ref != sib.ref && sib.ref in RefSeq(AllLeaves(l, rest)) && g.half <= |sib.es| < g.B()
      && (s.leaf[sib.ref].pivots[g.half] != g.max <==> g.half < |sib.es|)
      && Link(g, s.leaf, sib.ref).NextLeaf?
  {
    hide Deficient, Accounted, CtxRefs, InnerCell, LeafCell, Rep, WF, Last, UntouchedAll, UntouchedCtx, ChainFromZero;
    hide LeavesBefore, LeavesAfter, LeavesAll, FarAfter, RefSeq, FrameLasts, FrameRefs;
    var f := rest[0];
    OpenDeficientLeaf(g, s, l, rest);
    SiblingRight(g, s, Leaf(l), rest, 0);
    OpenSiblingLeaf(g, s, f.right[0]);
    LeavesApartRight(l, rest, free, len, inFree, inLen);
    ParentSlots(g, s.inner[f.ref], f, Last(Leaf(l)), l.ref);
    CanStealLeaf(g, s.leaf[f.right[0].leaf.ref], f.right[0].leaf.es);
    AroundRight(rest, f.right[0].leaf);
    PairedAfter(LeavesBefore(rest), l, f.right[0].leaf, FarAfter(rest));
    LeafLinks(g, s.leaf, LeavesBefore(rest), l, f.right[0].leaf, FarAfter(rest));
  }

  /** Everything the repair of a leaf from the left reads. */
  lemma {:induction false} LeftLeafFacts<V>(g: Geometry, s: Store<V>, l: LeafNode<V>, rest: seq<Frame<V>>,
                                            free: seq<nat>, len: nat, inFree: seq<nat>, inLen: nat)
    requires Deficient(g, s, Leaf(l), rest, 0) && rest != [] && rest[0].left != []
    requires ChainFromZero(g, s.leaf, RefSeq(AllLeaves(l, rest)))
    requires Accounted(multiset(RefSeq(AllLeaves(l, rest))), free, len) && Accounted(CtxRefs(rest), inFree, inLen)
    ensures rest[0].left[|rest[0].left| - 1].Leaf?
    ensures var f, sib := rest[0], rest[0].left[|rest[0].left| - 1].leaf;
      && f.ref < |s.inner| && s.inner[f.ref].Sized(g) && f.Size() < g.B()
      && InnerCell(g, s.inner[f.ref], FrameLasts(f, Last(Leaf(l))), FrameRefs(f, l.ref))
      && s.inner[f.ref].slots[|f.left| - 1] == Value(sib.ref)
      && l.ref < |s.leaf| && s.leaf[l.ref].Sized(g) && LeafCell(g, s.leaf[l.ref], l.es)
      && sib.ref < |s.leaf| && s.leaf[sib.ref].Sized(g) && LeafCell(g, s.leaf[sib.ref], sib.es)
      && l.ref != sib.ref && l.ref in RefSeq(AllLeaves(l, rest)) && g.half <= |sib.es| < g.B()
      && (forall i | 0 <= i < |sib.es| :: sib.es[i].last < g.max)
      && (s.leaf[sib.ref].pivots[g.half] != g.max <==> g.half < |sib.es|)
      && Link(g, s.leaf, l.ref).NextLeaf?
  {
    hide Deficient, Accounted, CtxRefs, InnerCell, LeafCell, Rep, WF, Last, UntouchedAll, UntouchedCtx, ChainFromZero;
    hide LeavesBefore, LeavesAfter, LeavesAll, FarBefore, RefSeq, FrameLasts, FrameRefs;
    var f := rest[0];
    var last := f.left[|f.left| - 1];
    OpenDeficientLeaf(g, s, l, rest);
    SiblingLeft(g, s, Leaf(l), rest, 0);
    OpenSiblingLeaf(g, s, last);
    LeavesApartLeft(l, rest, free, len, inFree, inLen);
    ParentSlots(g, s.inner[f.ref], f, Last(Leaf(l)), l.ref);
    CanStealLeaf(g, s.leaf[last.leaf.ref], last.leaf.es);
    AroundLeft(rest, last.leaf);
    PairedBefore(FarBefore(rest), last.leaf, l, LeavesAfter(rest));
    LeafLinks(g, s.leaf, FarBefore(rest), last.leaf, l, LeavesAfter(rest));
  }

  /** A leaf with one entry too few: its parent's separator shows on which side it has a neighbour. */
  lemma {:induction false} DeficientLeaf<V>(g: Geometry, s: Store<V>, l: LeafNode<V>, rest: seq<Frame<V>>)
    requires rest != [] && Rep(g, s, Leaf(l)) && RepCtx(g, s, rest, l.ref, Last(Leaf(l))) && WFCtx(g, rest, 0)
    requires WF(g, Leaf(l), 0, g.half - 1) && |l.es| < g.half
    ensures Deficient(g, s, Leaf(l), rest, 0) && |l.es| == g.half - 1
    ensures var f := rest[0];
      && f.ref < |s.inner| && s.inner[f.ref].Sized(g) && f.Size() < g.B()
      && (s.inner[f.ref].pivots[|f.left|] != g.max <==> f.right != []) && (f.right == [] ==> f.left != [])
  {
    hide InnerCell, FrameLasts, FrameRefs, LeafCell;
    OpenDeficientLeaf(g, s, l, rest);
    ParentSlots(g, s.inner[rest[0].ref], rest[0], Last(Leaf(l)), l.ref);
  }

  /** Where a leaf ends shows in its pivots. */
  lemma {:induction false} LeafTail<V>(g: Geometry, c: Cell<Item<V>>, es: seq<Entry<V>>, i: nat)
    requires LeafCell(g, c, es) && i <= |es| < g.B() && forall k | 0 <= k < |es| :: es[k].last < g.max
    ensures c.Sized(g) && (c.pivots[i] == g.max <==> i == |es|)
    ensures i == |es| > 0 ==> c.pivots[i - 1] == es[i - 1].last
  {
  }

  /** Rewriting the current leaf, its link kept, leaves the rest of the path as it was. */
  lemma {:induction false} LeafRewritten<V>(g: Geometry, s: Store<V>, s': Store<V>, l: LeafNode<V>, l': LeafNode<V>,
                                            ctx: seq<Frame<V>>, free: seq<nat>, len: nat, inFree: seq<nat>, inLen: nat)
    requires TreeOK(g, s, Plug(Leaf(l), ctx), |ctx|) && l'.ref == l.ref
    requires Accounted(multiset(RefSeq(Leaves(Plug(Leaf(l), ctx)))), free, len)
    requires Accounted(InnerRefs(Plug(Leaf(l), ctx)), inFree, inLen)
    requires StoreAgree(s, s', {l.ref}, {}) && l.ref < |s.leaf| && s.leaf[l.ref].Sized(g) && s'.leaf[l.ref].Sized(g)
    requires Link(g, s'.leaf, l.ref) == Link(g, s.leaf, l.ref)
    ensures RepCtx(g, s', ctx, l.ref, Last(Leaf(l))) && WFCtx(g, ctx, 0) && (ctx != [] ==> Last(Leaf(l)) < g.max)
    ensures ChainFromZero(g, s'.leaf, RefSeq(AllLeaves(l', ctx)))
    ensures Accounted(multiset(RefSeq(AllLeaves(l', ctx))), free, len)
    ensures Accounted(CtxRefs(ctx), inFree, inLen) && Once(CtxRefs(ctx))
    ensures Plug(Leaf(l), ctx).Ref() == RootOf(ctx, Leaf(l'))
  {
    hide TreeOK, LeavesBefore, LeavesAfter, Plug, WFCtx, RepCtx, ChainFromZero, Leaves, Link, Accounted, CtxRefs;
    hide InnerRefs, UntouchedCtx, Once, LeafCell;
    PlugAll(l, ctx);
    PlugAll(l', ctx);
    PlugOwners(l, l', ctx);
    AccountedOnce(CtxRefs(ctx), inFree, inLen);
    LeafApart(l, ctx, free, len);
    LeafWritten(g, s, s', l, ctx, Last(Leaf(l)), {l.ref});
    OpenLeaf(g, s, Leaf(l), ctx);
    OpenChain(g, s, Leaf(l), ctx, 0);
    LeafFlat(l);
    LeafFlat(l');
    RewriteKeepsChain(g, s.leaf, s'.leaf, l, l', LeavesBefore(ctx), LeavesAfter(ctx));
  }

  /** The entries of a path whose current leaf is `l`. */
  lemma {:induction false} ConcatAll<V>(l: LeafNode<V>, ctx: seq<Frame<V>>)
    ensures Concat(AllLeaves(l, ctx)) == Before(ctx) + l.es + After(ctx)
  {
    hide Plug, LeavesBefore, LeavesAfter, Leaves, Concat, Before, After, CtxRefs, InnerRefs;
    PlugAll(l, ctx);
    PlugFlat(Leaf(l), ctx);
    LeafFlat(l);
  }

  /** What replacing the entry `i` of a leaf reads and relies on. */
  lemma {:induction false} ReplaceFacts<V>(g: Geometry, s: Store<V>, l: LeafNode<V>, ctx: seq<Frame<V>>, i: nat,
                                           e: Entry<V>, free: seq<nat>, len: nat, inFree: seq<nat>, inLen: nat)
    requires TreeOK(g, s, Plug(Leaf(l), ctx), |ctx|) && i < |l.es| && e.last < g.max
    requires Accounted(multiset(RefSeq(Leaves(Plug(Leaf(l), ctx)))), free, len)
    requires Accounted(InnerRefs(Plug(Leaf(l), ctx)), inFree, inLen)
    ensures l.ref < |s.leaf| && s.leaf[l.ref].Sized(g) && |l.es| < g.B() && LeafCell(g, s.leaf[l.ref], l.es)
    ensures s.leaf[l.ref].pivots[i + 1] == g.max <==> i + 1 == |l.es|
    ensures RepCtx(g, s, ctx, l.ref, Last(Leaf(l))) && WFCtx(g, ctx, 0) && Once(CtxRefs(ctx))
    ensures UntouchedCtx(ctx, {l.ref}, {})
    ensures Last(Leaf(l)) < g.max
    ensures WF(g, Leaf(LeafNode(l.ref, l.es[i := e])), 0, if ctx == [] then 0 else g.half)
    ensures var all, k := Flat(Plug(Leaf(l), ctx)), |Before(ctx)| + i;
      k < |all| && all[k] == l.es[i] && Before(ctx) + l.es[i := e] + After(ctx) == all[k := e]
  {
    hide TreeOK, Plug, LeavesBefore, LeavesAfter, Leaves, Concat, LeafCell, RepCtx, WFCtx, Accounted, CtxRefs;
    hide InnerRefs, UntouchedCtx, Once;
    OpenLeaf(g, s, Leaf(l), ctx);
    OpenRest(g, s, l, ctx);
    PlugAll(l, ctx);
    AccountedOnce(CtxRefs(ctx), inFree, inLen);
    LeafApart(l, ctx, free, len);
    LeafTail(g, s.leaf[l.ref], l.es, i + 1);
    PlugFlat(Leaf(l), ctx);
    LeafFlat(l);
    assert Before(ctx) + l.es[i := e] + After(ctx) == (Before(ctx) + l.es + After(ctx))[|Before(ctx)| + i := e];
  }

  /** Everything the repair of an internal node from the right reads. */
  lemma {:induction false} RightInnerFacts<V>(g: Geometry, s: Store<V>, t: Tree<V>, rest: seq<Frame<V>>, h: nat,
                                              free: seq<nat>, len: nat)
    requires Deficient(g, s, t, rest, h + 1) && rest != [] && rest[0].right != [] && t.Inner? && |t.kids| == g.half - 1
    requires Accounted(InnerRefs(t) + CtxRefs(rest), free, len)
    ensures rest[0].right[0].Inner?
    ensures var f, sib := rest[0], rest[0].right[0];
      var pl, cl, sl := FrameLasts(f, Last(t)), Lasts(t.kids), Lasts(sib.kids);
      && f.ref < |s.inner| && s.inner[f.ref].Sized(g) && f.Size() < g.B()
      && InnerCell(g, s.inner[f.ref], pl, FrameRefs(f, t.id))
      && t.id < |s.inner| && InnerCell(g, s.inner[t.id], cl, Refs(t.kids))
      && sib.id < |s.inner| && s.inner[sib.id].Sized(g) && InnerCell(g, s.inner[sib.id], sl, Refs(sib.kids))
      && t.id != sib.id && t.id != f.ref && sib.id != f.ref
      && s.inner[f.ref].slots[|f.left| + 1] == Value(sib.id)
      && g.half <= |sl| < g.B() && (forall i | 0 <= i < |sl| :: sl[i] < g.max) && pl[|f.left|] == cl[|cl| - 1]
      && (s.inner[sib.id].pivots[g.half - 1] != g.max <==> g.half < |sl|)
      && sib.id in InnerRefs(t) + CtxRefs(rest)
  {
    hide Deficient, Accounted, CtxRefs, InnerRefs, InnerCell, Rep, WF, Last, UntouchedAll, UntouchedCtx, RepAll, WFAll;
    hide FrameLasts, FrameRefs;
    var f, sib := rest[0], rest[0].right[0];
    OpenDeficient(g, s, t, rest, h);
    SiblingRight(g, s, t, rest, h + 1);
    OpenSibling(g, s, sib, h);
    InnerApartRight(t, rest, free, len);
    ParentSlots(g, s.inner[f.ref], f, Last(t), t.id);
    CanSteal(g, s.inner[sib.id], Lasts(sib.kids), Refs(sib.kids));
    OwnedIn(t, rest);
  }

  /** Everything the repair of an internal node from the left reads. */
  lemma {:induction false} LeftInnerFacts<V>(g: Geometry, s: Store<V>, t: Tree<V>, rest: seq<Frame<V>>, h: nat,
                                             free: seq<nat>, len: nat)
    requires Deficient(g, s, t, rest, h + 1) && rest != [] && rest[0].left != [] && t.Inner? && |t.kids| == g.half - 1
    requires Accounted(InnerRefs(t) + CtxRefs(rest), free, len)
    ensures rest[0].left[|rest[0].left| - 1].Inner?
    ensures var f, sib := rest[0], rest[0].left[|rest[0].left| - 1];
      var pl, cl, sl := FrameLasts(f, Last(t)), Lasts(t.kids), Lasts(sib.kids);
      && f.ref < |s.inner| && s.inner[f.ref].Sized(g) && f.Size() < g.B()
      && InnerCell(g, s.inner[f.ref], pl, FrameRefs(f, t.id))
      && t.id < |s.inner| && InnerCell(g, s.inner[t.id], cl, Refs(t.kids))
      && sib.id < |s.inner| && s.inner[sib.id].Sized(g) && InnerCell(g, s.inner[sib.id], sl, Refs(sib.kids))
      && t.id != sib.id && t.id != f.ref && sib.id != f.ref
      && s.inner[f.ref].slots[|f.left| - 1] == Value(sib.id)
      && g.half <= |sl| < g.B() && (forall i | 0 <= i < |sl| :: sl[i] < g.max) && pl[|f.left| - 1] == sl[|sl| - 1]
      && (s.inner[sib.id].pivots[g.half - 1] != g.max <==> g.half < |sl|)
      && t.id in InnerRefs(t) + CtxRefs(rest)
  {
    hide Deficient, Accounted, CtxRefs, InnerRefs, InnerCell, Rep, WF, Last, UntouchedAll, UntouchedCtx, RepAll, WFAll;
    hide FrameLasts, FrameRefs;
    var f, sib := rest[0], rest[0].left[|rest[0].left| - 1];
    OpenDeficient(g, s, t, rest, h);
    SiblingLeft(g, s, t, rest, h + 1);
    OpenSibling(g, s, sib, h);
    InnerApartLeft(t, rest, free, len);
    ParentSlots(g, s.inner[f.ref], f, Last(t), t.id);
    CanSteal(g, s.inner[sib.id], Lasts(sib.kids), Refs(sib.kids));
    OwnedIn(t, rest);
  }
}
