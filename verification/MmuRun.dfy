/**
 Runs of operations on an address space: what they do to one address, what they may leave behind, and what they
 make necessary to flush (lib/mem-mmu/src/address_space.rs:158-495, lib/mem-mmu/src/flush.rs).
 */
module Runs {
  import opened Options
  import opened Pagings
  import opened Tables
  import opened Effects
  import opened Flushes
  import opened Walks
  import opened Theory

  /** One call: what to do with the pages of level `s` in `start..end`, with physical memory from `phys` on. */
  datatype Op = Op(kind: Kind, s: nat, start: nat, end: nat, phys: nat)

  /** Only mapping can run out of frames; calls that break a condition of the caller are refused. */
  datatype Reply = Done | OutOfFrames | Refused

  /** The range is a non-empty, aligned part of the address space. */
  predicate InSpace(p: Paging, s: nat, start: nat, end: nat) {
    && s <= p.Top() && start < end <= Size(p, |p.entries|)
    && Aligned(p, s, start) && Aligned(p, s, end)
  }

  /** What callers have to guarantee. */
  ghost predicate Fits(p: Paging, t: Node, op: Op)
    requires WF(p, p.Top(), t)
  {
    && InSpace(p, op.s, op.start, op.end) && (op.kind.TakesPhys() ==> Aligned(p, op.s, op.phys))
    && Ready(p, p.Top(), op.s, t, op.start, op.end)
    && forall va: nat | op.start <= va < op.end :: Allowed(op.kind, op.s, Find(p, p.Top(), t, va))
  }

  /** What matters of a space and its machine between two calls. */
  datatype Moment = Moment(shape: Node, free: set<nat>, asked: nat)

  /** One call, from one moment to the next: it is refused exactly if a condition of the caller is not met, and runs out
      of frames exactly if the allocator refused one for a table that is still missing. */
  ghost predicate Called(p: Paging, refuses: nat -> bool, op: Op, reply: Reply, upto: nat, a: Moment, b: Moment) {
    && WF(p, p.Top(), a.shape) && WF(p, p.Top(), b.shape)
    && Reaches(op, reply, upto) && (reply.Refused? <==> !Fits(p, a.shape, op))
    && Answered(refuses, a.asked, b.asked, b.free, !reply.OutOfFrames?)
    && (reply.OutOfFrames? ==> op.s <= p.Top() && MissingAt(p, p.Top(), op.s, b.shape, upto))
  }

  /** The calls of a run, each from one moment to the next. */
  ghost predicate AllCalled(p: Paging, refuses: nat -> bool, ops: seq<Op>, replies: seq<Reply>, reached: seq<nat>,
                            moments: seq<Moment>)
    requires |ops| == |replies| == |reached| && |moments| == |ops| + 1
  {
    forall i | 0 <= i < |ops| :: Called(p, refuses, ops[i], replies[i], reached[i], moments[i], moments[i + 1])
  }

  lemma {:induction false} NothingCalled(p: Paging, refuses: nat -> bool, ops: seq<Op>, now: Moment)
    ensures AllCalled(p, refuses, ops[..0], [], [], [now])
  {
  }

  lemma {:induction false} CalledMore(p: Paging, refuses: nat -> bool, ops: seq<Op>, replies: seq<Reply>,
                                      reached: seq<nat>, moments: seq<Moment>, reply: Reply, upto: nat, b: Moment)
    requires |replies| == |reached| < |ops| && |moments| == |replies| + 1
    requires AllCalled(p, refuses, ops[..|replies|], replies, reached, moments)
    requires Called(p, refuses, ops[|replies|], reply, upto, moments[|replies|], b)
    ensures AllCalled(p, refuses, ops[..|replies| + 1], replies + [reply], reached + [upto], moments + [b])
  {
    hide Called;
    var n := |replies|;
    var more := moments + [b];
    forall i | 0 <= i < n + 1
      ensures Called(p, refuses, ops[..n + 1][i], (replies + [reply])[i], (reached + [upto])[i], more[i], more[i + 1])
    {
      if i < n {
        assert ops[..n][i] == ops[i];
        assert Called(p, refuses, ops[..n][i], replies[i], reached[i], moments[i], moments[i + 1]);
      }
    }
  }

  // ---- Translations ----

  /** What a call that got to `upto` makes of the translation of one address. */
  function Stepped(op: Op, upto: nat, va: nat, old_: Option<Translation>): Option<Translation> {
    if op.start <= va < upto then After(op.kind, op.s, old_, op.phys + (va - op.start)) else old_
  }

  /** What a run makes of it, call by call. */
  function Replay(ops: seq<Op>, reached: seq<nat>, va: nat, old_: Option<Translation>): Option<Translation>
    requires |ops| == |reached|
  {
    if ops == [] then old_
    else
      var n := |ops| - 1;
      Stepped(ops[n], reached[n], va, Replay(ops[..n], reached[..n], va, old_))
  }

  /** How far each call got. */
  ghost predicate Reaches(op: Op, reply: Reply, upto: nat) {
    match reply
    case Done => upto == op.end
    case OutOfFrames => op.kind.Map? && op.start <= upto < op.end
    case Refused => upto == op.start
  }

  lemma {:induction false} ReplayMore(ops: seq<Op>, reached: seq<nat>, upto: nat, i: nat, va: nat,
                                      old_: Option<Translation>)
    requires i < |ops| && |reached| == i
    ensures Replay(ops[..i + 1], reached + [upto], va, old_) ==
      Stepped(ops[i], upto, va, Replay(ops[..i], reached, va, old_))
  {
    assert ops[..i + 1][..i] == ops[..i] && (reached + [upto])[..i] == reached;
  }

  // ---- Tables without entries ----

  /** Whether a table at level `j` on the way to `va` may be without entries after the run: it was before, or a mapping
      ran out of frames there, and no call was completed there since. */
  ghost predicate Debris(p: Paging, ops: seq<Op>, replies: seq<Reply>, va: nat, j: nat, before: bool)
    requires |ops| == |replies| && j < |p.entries|
  {
    if ops == [] then before
    else
      var n := |ops| - 1;
      Left(p, ops[n], replies[n], va, j, Debris(p, ops[..n], replies[..n], va, j, before))
  }

  ghost predicate Left(p: Paging, op: Op, reply: Reply, va: nat, j: nat, before: bool)
    requires j < |p.entries|
  {
    match reply
    case Done => before && !Touches(p, j + 1, va, op.start, op.end)
    case OutOfFrames => before || Touches(p, j + 1, va, op.start, op.end)
    case Refused => before
  }

  /** Every mapping that ran out of frames is followed by a completed call that includes its range. */
  ghost predicate CleanedUp(ops: seq<Op>, replies: seq<Reply>)
    requires |ops| == |replies|
  {
    forall i | 0 <= i < |ops| && replies[i].OutOfFrames? :: CleanedAfter(ops, replies, i)
  }

  ghost predicate CleanedAfter(ops: seq<Op>, replies: seq<Reply>, i: nat)
    requires |ops| == |replies| && i < |ops|
  {
    exists l :: i < l < |ops| && replies[l].Done? && ops[l].start <= ops[i].start && ops[i].end <= ops[l].end
  }

  lemma {:induction false} DebrisMore(p: Paging, ops: seq<Op>, replies: seq<Reply>, reply: Reply, i: nat, va: nat,
                                      j: nat, mid: bool, before: bool)
    requires i < |ops| && |replies| == i && j < |p.entries|
    requires Left(p, ops[i], reply, va, j, mid) && (mid ==> Debris(p, ops[..i], replies, va, j, before))
    ensures Debris(p, ops[..i + 1], replies + [reply], va, j, before)
  {
    hide Touches;
    assert ops[..i + 1][..i] == ops[..i] && (replies + [reply])[..i] == replies;
  }

  /** Debris is due to one mapping that ran out of frames. */
  lemma {:induction false} DebrisFrom(p: Paging, ops: seq<Op>, replies: seq<Reply>, va: nat, j: nat) returns (i: nat)
    requires |ops| == |replies| && j < |p.entries| && Debris(p, ops, replies, va, j, false)
    ensures i < |ops| && replies[i].OutOfFrames? && Touches(p, j + 1, va, ops[i].start, ops[i].end)
    ensures forall l | i < l < |ops| && replies[l].Done? :: !Touches(p, j + 1, va, ops[l].start, ops[l].end)
    decreases |ops|
  {
    hide Touches;
    var n := |ops| - 1;
    if replies[n].OutOfFrames? && Touches(p, j + 1, va, ops[n].start, ops[n].end) {
      i := n;
    } else {
      i := DebrisFrom(p, ops[..n], replies[..n], va, j);
      assert forall l | i < l < n && replies[l].Done? :: ops[..n][l] == ops[l] && replies[..n][l] == replies[l];
    }
  }

  lemma {:induction false} NoDebris(p: Paging, ops: seq<Op>, replies: seq<Reply>, va: nat, j: nat)
    requires |ops| == |replies| && j < |p.entries| && CleanedUp(ops, replies)
    ensures !Debris(p, ops, replies, va, j, false)
  {
    hide PageNo, Debris;
    if Debris(p, ops, replies, va, j, false) {
      var i := DebrisFrom(p, ops, replies, va, j);
    }
  }

  // ---- Flushing ----

  /** From `t` to `t'`, every translation that changed will be flushed, and everything will be if a table came or went;
      what had to be flushed before still has to be. */
  ghost predicate StepCovered(p: Paging, t: Node, r: Record, t': Node, r': Record)
    requires WF(p, p.Top(), t) && WF(p, p.Top(), t')
  {
    && Remembers(r, r') && Structural(r, r', t, t')
    && forall va: nat | va < Size(p, |p.entries|) && Find(p, p.Top(), t', va) != Find(p, p.Top(), t, va) ::
       r'.Covers(va)
  }

  lemma {:induction false} CoveredTrans(p: Paging, a: Node, r: Record, b: Node, r1: Record, c: Node, r2: Record)
    requires WF(p, p.Top(), a) && WF(p, p.Top(), b) && WF(p, p.Top(), c)
    requires StepCovered(p, a, r, b, r1) && StepCovered(p, b, r1, c, r2)
    ensures StepCovered(p, a, r, c, r2)
  {
    hide WF, Find, Size, Structural;
    StructuralTrans(r, r1, r2, a, b, c);
  }

  lemma {:induction false} CoveredRefl(p: Paging, t: Node, r: Record)
    requires WF(p, p.Top(), t)
    ensures StepCovered(p, t, r, t, r)
  {
    hide WF, Find;
    StructuralRefl(r, t);
  }

  // ---- Which pages can be told from one of their addresses ----

  /** Addresses in one page of level `s` are alike for every call on pages of that level. */
  lemma {:induction false} PageAlike(kind: Kind, p: Paging, k: nat, s: nat, t: Node, x: nat, y: nat)
    requires WF(p, k, t) && s <= k && PageNo(p, s, x) == PageNo(p, s, y)
    ensures ReadyAt(p, k, s, t, x) <==> ReadyAt(p, k, s, t, y)
    ensures ReadyAt(p, k, s, t, x) ==> (Allowed(kind, s, Find(p, k, t, x)) <==> Allowed(kind, s, Find(p, k, t, y)))
    decreases t
  {
    hide PageNo, IndexOf, Size;
    UpFrom(p, s, k, x, y);
    SamePageUp(p, k, x, y);
    IndexInTable(p, k, x);
    var i := IndexOf(p, k, x);
    FindSlot(p, k, t, x, i);
    FindSlot(p, k, t, y, i);
    if s < k && t.slots[i].Sub? {
      PageAlike(kind, p, k - 1, s, t.slots[i].node, x, y);
    }
  }
}
