/**
 The address space and its operations (lib/mem-mmu/src/address_space.rs:18-534).
 */
module Spaces {
  import opened Options
  import opened Pagings
  import opened Tables
  import opened Effects
  import opened Filling
  import opened Steps
  import opened Flushes
  import opened Walks
  import opened Theory
  import opened Runs

  // ---- Blocks of physical memory ----

  datatype Block = Block(phys: nat, len: nat)

  function Total(blocks: seq<Block>): nat {
    if blocks == [] then 0 else blocks[0].len + Total(blocks[1..])
  }

  /** The physical address at an offset into the blocks, one after the other. */
  function BlocksAt(blocks: seq<Block>, offset: nat): nat {
    if blocks == [] then 0
    else if offset < blocks[0].len then blocks[0].phys + offset
    else BlocksAt(blocks[1..], offset - blocks[0].len)
  }

  /** How many tables at level `s` the blocks go through, block by block. */
  function BlockSpans(p: Paging, s: nat, start: nat, blocks: seq<Block>): nat
    requires s < |p.entries|
    decreases |blocks|
  {
    if blocks == [] then 0
    else
      var n := |blocks| - 1;
      var pos := start + Total(blocks[..n]);
      BlockSpans(p, s, start, blocks[..n]) + Spans(p, s, pos, pos + blocks[n].len)
  }

  lemma {:induction false} BlockSpansOf(p: Paging, s: nat, start: nat, blocks: seq<Block>, i: nat)
    requires s < |p.entries| && i <= |blocks|
    ensures BlockSpans(p, s, start, blocks[..i]) <= BlockSpans(p, s, start, blocks)
    ensures i == 0 ==> BlockSpans(p, s, start, blocks[..i]) == 0
    ensures i > 0 ==>
      var pos := start + Total(blocks[..i - 1]);
      BlockSpans(p, s, start, blocks[..i]) ==
        BlockSpans(p, s, start, blocks[..i - 1]) + Spans(p, s, pos, pos + blocks[i - 1].len)
    decreases |blocks|
  {
    hide Spans, Total;
    if i < |blocks| {
      var n := |blocks| - 1;
      assert blocks[..n][..i] == blocks[..i];
      BlockSpansOf(p, s, start, blocks[..n], i);
    } else {
      assert blocks[..i] == blocks;
    }
    if i > 0 {
      assert blocks[..i][..i - 1] == blocks[..i - 1];
    }
  }

  ghost predicate BlocksFit(p: Paging, s: nat, blocks: seq<Block>)
    requires s <= |p.entries|
  {
    forall i | 0 <= i < |blocks| :: blocks[i].len > 0 && Aligned(p, s, blocks[i].phys) && Aligned(p, s, blocks[i].len)
  }

  lemma {:induction false} TotalOf(blocks: seq<Block>, i: nat)
    requires i <= |blocks|
    ensures Total(blocks[..i]) <= Total(blocks)
    ensures i == 0 ==> Total(blocks[..i]) == 0
    ensures i > 0 ==> Total(blocks[..i]) == Total(blocks[..i - 1]) + blocks[i - 1].len
    decreases i
  {
    if i > 0 {
      assert blocks[..i][1..] == blocks[1..][..i - 1];
      TotalOf(blocks[1..], i - 1);
      if i > 1 {
        assert blocks[..i - 1][1..] == blocks[1..][..i - 2];
      } else {
        assert blocks[..1][1..] == [];
      }
    }
  }

  lemma {:induction false} BlockOf(blocks: seq<Block>, i: nat, offset: nat)
    requires i < |blocks| && Total(blocks[..i]) <= offset < Total(blocks[..i]) + blocks[i].len
    ensures BlocksAt(blocks, offset) == blocks[i].phys + (offset - Total(blocks[..i]))
    decreases i
  {
    if i > 0 {
      assert blocks[..i][1..] == blocks[1..][..i - 1];
      BlockOf(blocks[1..], i - 1, offset - blocks[0].len);
    }
  }

  /** From `t` to `t'`, exactly the addresses up to `upto` were mapped to the blocks. */
  ghost predicate BlocksMapped(p: Paging, t: Node, t': Node, blocks: seq<Block>, attrs: Attrs, s: nat, start: nat,
                               upto: nat)
    requires WF(p, p.Top(), t) && WF(p, p.Top(), t')
  {
    forall va: nat | va < Size(p, |p.entries|) ::
      Find(p, p.Top(), t', va) ==
        if start <= va < upto then Some(Translation(BlocksAt(blocks, va - start), attrs, s))
          else Find(p, p.Top(), t, va)
  }

  lemma {:induction false} NoneMapped(p: Paging, t: Node, blocks: seq<Block>, attrs: Attrs, s: nat, start: nat)
    requires WF(p, p.Top(), t)
    ensures BlocksMapped(p, t, t, blocks, attrs, s, start, start)
  {
    hide Find, WF;
  }

  lemma {:induction false} BlocksShown(p: Paging, t: Node, t': Node, blocks: seq<Block>, attrs: Attrs, s: nat,
                                       start: nat, upto: nat)
    requires WF(p, p.Top(), t) && WF(p, p.Top(), t') && BlocksMapped(p, t, t', blocks, attrs, s, start, upto)
    ensures forall va: nat | va < Size(p, |p.entries|) ::
      Find(p, p.Top(), t', va) ==
        if start <= va < upto then Some(Translation(BlocksAt(blocks, va - start), attrs, s))
          else Find(p, p.Top(), t, va)
  {
    hide Find, WF;
  }

  /** The rest of the range is as it was. */
  lemma {:induction false} StillUnmapped(p: Paging, t: Node, t': Node, blocks: seq<Block>, attrs: Attrs, s: nat,
                                         start: nat, pos: nat, end: nat)
    requires WF(p, p.Top(), t) && WF(p, p.Top(), t') && BlocksMapped(p, t, t', blocks, attrs, s, start, pos)
    requires end <= Size(p, |p.entries|) && forall va: nat | start <= va < end :: Find(p, p.Top(), t, va) == None
    ensures forall va: nat | pos <= va < end && start <= va :: Find(p, p.Top(), t', va) == None
  {
    hide Find, WF;
  }

  /** One more block: `t` at first, `t1` before the block, `t2` after it. */
  lemma {:induction false} BlockMapped(p: Paging, t: Node, t1: Node, t2: Node, blocks: seq<Block>, i: nat, attrs: Attrs,
                                       s: nat, start: nat, pos: nat, upto: nat)
    requires WF(p, p.Top(), t) && WF(p, p.Top(), t1) && WF(p, p.Top(), t2)
    requires i < |blocks| && pos == start + Total(blocks[..i]) <= upto <= pos + blocks[i].len
    requires BlocksMapped(p, t, t1, blocks, attrs, s, start, pos)
    requires forall va: nat | va < Size(p, |p.entries|) ::
      Find(p, p.Top(), t2, va) ==
        if pos <= va < upto then Some(Translation(blocks[i].phys + (va - pos), attrs, s)) else Find(p, p.Top(), t1, va)
    ensures BlocksMapped(p, t, t2, blocks, attrs, s, start, upto)
  {
    hide Find, WF, Total, BlocksAt;
    forall va: nat | va < Size(p, |p.entries|)
      ensures Find(p, p.Top(), t2, va) ==
        if start <= va < upto then Some(Translation(BlocksAt(blocks, va - start), attrs, s))
          else Find(p, p.Top(), t, va)
    {
      if pos <= va < upto {
        BlockOf(blocks, i, va - start);
      }
    }
  }

  class HardwareAddressSpace {
    const machine: Machine
    const root: nat
    ghost var shape: Node

    /** The tables in memory form a tree of frames that are not free. */
    ghost predicate Sound()
      reads this, machine
      ensures Sound() ==> WF(machine.p, machine.p.Top(), shape)
    {
      Good(machine.p, machine.p.Top(), machine.mem, machine.free, shape) && root == shape.frame
    }

    /** No table but the root is without entries, except on the way to `lo..hi`. */
    ghost predicate Trim(lo: nat, hi: nat)
      requires Sound()
      reads this, machine
    {
      Trimmed(machine.p, shape, lo, hi)
    }

    ghost predicate Valid()
      reads this, machine
      ensures Valid() ==> Sound()
    {
      Sound() && Trim(0, 0)
    }

    /** What translation makes of an address. */
    ghost function Translate(va: nat): Option<Translation>
      requires Sound()
      reads this, machine
    {
      Find(machine.p, machine.p.Top(), shape, va)
    }

    ghost function Now(): Moment
      reads this, machine
    {
      Moment(shape, machine.free, machine.asked)
    }

    constructor (m: Machine, frame: nat)
      requires frame !in m.free && frame in m.mem && m.mem[frame] == seq(m.p.entries[m.p.Top()], _ => Vacant)
      ensures machine == m && root == frame && Valid() && forall va: nat :: Translate(va) == None
    {
      machine, root := m, frame;
      shape := Blank(m.p, m.p.Top(), frame);
      new;
      hide Owns, Apart, Find, EmptyAt, Hollow;
      BlankRep(m.p, m.p.Top(), frame, m.mem);
      forall f ensures Owns(shape, f) <==> f == frame {
        BlankOwns(m.p, m.p.Top(), frame, f);
      }
      BlankOwns(m.p, m.p.Top(), frame, 0);
      forall va: nat ensures Translate(va) == None {
        HollowFindsNothing(m.p, m.p.Top(), shape, va);
      }
      forall va: nat, j: nat | j < m.p.Top() ensures !EmptyAt(m.p, m.p.Top(), shape, va, j) {
        HollowHasNone(m.p, m.p.Top(), shape, va, j);
      }
    }

    /** Walks down the levels to the entry that translates `va`. */
    method Lookup(va: nat) returns (r: Option<Translation>)
      requires Sound()
      ensures r == Translate(va)
    {
      hide Owns, Apart, WF, PageNo, IndexOf, Size;
      var p := machine.p;
      var k: nat, table: nat := p.Top(), root;
      ghost var t := shape;
      while true
        invariant Good(p, k, machine.mem, machine.free, t) && table == t.frame
        invariant Find(p, k, t, va) == Translate(va)
        decreases k
      {
        IndexInTable(p, k, va);
        var i := IndexOf(p, k, va);
        TableEntry(p, k, machine.mem, t, i);
        FindSlot(p, k, t, va, i);
        var entry := machine.mem[table][i];
        match entry {
          case Vacant => return None;
          case Leaf(phys, attrs) => return Some(Translation(phys + va % Size(p, k), attrs, k));
          case Table(frame) =>
            GoodSub(p, k, machine.mem, machine.free, t, i);
            t, table, k := t.slots[i].node, frame, k - 1;
        }
      }
    }

    /** Every operation is one walk from the root. */
    method Operate(kind: Kind, s: nat, start: nat, end: nat, phys: nat, flush: Flush)
      returns (ok: bool, ghost upto: nat)
      requires Sound() && Fits(machine.p, shape, Op(kind, s, start, end, phys))
      modifies this, machine, flush
      ensures Sound() && start <= upto <= end && (ok ==> upto == end) && (!kind.Map? ==> ok)
      ensures Answered(machine.refuses, old(machine.asked), machine.asked, machine.free, ok)
      ensures !kind.Map? ==> machine.asked == old(machine.asked)
      ensures !ok ==> upto < end && MissingAt(machine.p, machine.p.Top(), s, shape, upto)
      ensures ReadyKept(machine.p, machine.p.Top(), s, 0, old(shape), shape) && Ordered(kind, old(shape), shape)
      ensures Trims(machine.p, machine.p.Top(), 0, old(shape), shape, start, if ok then end else start, end)
      ensures Kept(old(shape), old(machine.mem), old(machine.free), shape, machine.mem, machine.free)
      ensures forall va: nat | va < Size(machine.p, |machine.p.entries|) ::
        Translate(va) == if start <= va < upto then After(kind, s, old(Translate(va)), phys + (va - start))
          else old(Translate(va))
      ensures StepCovered(machine.p, old(shape), old(flush.record), shape, flush.record)
      ensures Frugal(old(flush.record), flush.record, old(shape), shape, start, end, Spans(machine.p, s, start, end))
    {
      hide Owns, Apart, Remembers, Kept, Entering, Aligned, PageNo, IndexOf, Find, Trims, Ordered, Good, Size, Recorded;
      hide Structural, ReadyKept;
      var p := machine.p;
      var k := p.Top();
      ghost var t, r := shape, flush.record;
      EnterRoot(kind, p, s, t, start, end, phys);
      var visitor := new Visitor(machine, flush, kind, s, phys);
      ghost var t';
      ok, t', upto := visitor.Visit(k, root, start, end, t);
      LeaveRoot(kind, p, s, t, t', start, end, upto, ok, phys);
      RootCovered(kind, p, s, t, t', start, end, upto, ok, phys, r, flush.record);
      shape := t';
    }

    /**
     Maps an unmapped range to contiguous physical memory. If that fails for want of a frame, a prefix of the
     range is mapped as asked and the rest of it is still unmapped; outside nothing changes either way.
     */
    method MapContiguous(s: nat, start: nat, end: nat, phys: nat, attrs: Attrs, flush: Flush)
      returns (ok: bool, ghost upto: nat)
      requires Sound() && InSpace(machine.p, s, start, end) && Aligned(machine.p, s, phys)
      requires Ready(machine.p, machine.p.Top(), s, shape, start, end)
      requires forall va: nat | start <= va < end :: Translate(va) == None
      modifies this, machine, flush
      ensures Sound() && start <= upto <= end && (ok ==> upto == end)
      ensures Answered(machine.refuses, old(machine.asked), machine.asked, machine.free, ok)
      ensures !ok ==> upto < end && MissingAt(machine.p, machine.p.Top(), s, shape, upto)
      ensures (forall va: nat | start <= va < end :: !MissingAt(machine.p, machine.p.Top(), s, old(shape), va)) ==> ok
      ensures s == machine.p.Top() ==> ok
      ensures old(Valid()) ==> Trim(start, end) && (ok ==> Valid())
      ensures forall va: nat | va < Size(machine.p, |machine.p.entries|) ::
        Translate(va) == if start <= va < upto then Some(Translation(phys + (va - start), attrs, s))
          else old(Translate(va))
      ensures ReadyKept(machine.p, machine.p.Top(), s, 0, old(shape), shape)
      ensures Trims(machine.p, machine.p.Top(), 0, old(shape), shape, start, if ok then end else start, end)
      ensures Within(old(shape), shape) && machine.free <= old(machine.free)
      ensures Kept(old(shape), old(machine.mem), old(machine.free), shape, machine.mem, machine.free)
      ensures StepCovered(machine.p, old(shape), old(flush.record), shape, flush.record)
      ensures Frugal(old(flush.record), flush.record, old(shape), shape, start, end, Spans(machine.p, s, start, end))
    {
      hide Owns, Apart, Remembers, Kept, Aligned, PageNo, IndexOf, Find, Trims, Trimmed, Within, Good, Size, Ready;
      hide Frugal, StepCovered, ReadyKept;
      var p := machine.p;
      forall va: nat | start <= va < end ensures Find(p, p.Top(), shape, va) == None {
        assert Translate(va) == Find(p, p.Top(), shape, va);
      }
      ok, upto := Operate(Kind.Map(attrs), s, start, end, phys, flush);
      MissedBefore(p, s, old(shape), shape, start, end, upto, ok);
      TrimmedAfter(p, old(shape), shape, start, if ok then end else start, end);
      FramesMoved(p, p.Top(), old(shape), old(machine.mem), old(machine.free), shape, machine.mem, machine.free);
    }

    /** Maps a range block by block; the blocks need not be contiguous in physical memory. */
    method Map(s: nat, start: nat, blocks: seq<Block>, attrs: Attrs, flush: Flush) returns (ok: bool, ghost upto: nat)
      requires Sound() && s <= machine.p.Top() && Aligned(machine.p, s, start) && BlocksFit(machine.p, s, blocks)
      requires start + Total(blocks) <= Size(machine.p, |machine.p.entries|)
      requires Ready(machine.p, machine.p.Top(), s, shape, start, start + Total(blocks))
      requires forall va: nat | start <= va < start + Total(blocks) :: Translate(va) == None
      modifies this, machine, flush
      ensures Sound() && start <= upto <= start + Total(blocks) && (ok ==> upto == start + Total(blocks))
      ensures Answered(machine.refuses, old(machine.asked), machine.asked, machine.free, ok)
      ensures !ok ==> upto < start + Total(blocks) && MissingAt(machine.p, machine.p.Top(), s, shape, upto)
      ensures (forall va: nat | start <= va < start + Total(blocks) ::
        !MissingAt(machine.p, machine.p.Top(), s, old(shape), va)) ==> ok
      ensures s == machine.p.Top() ==> ok
      ensures old(Valid()) ==> Trim(start, start + Total(blocks)) && (ok ==> Valid())
      ensures forall va: nat | va < Size(machine.p, |machine.p.entries|) ::
        Translate(va) == if start <= va < upto then Some(Translation(BlocksAt(blocks, va - start), attrs, s))
          else old(Translate(va))
      ensures ReadyKept(machine.p, machine.p.Top(), s, 0, old(shape), shape)
      ensures var end := start + Total(blocks);
        Trims(machine.p, machine.p.Top(), 0, old(shape), shape, start, if ok then end else start, end)
      ensures Within(old(shape), shape) && machine.free <= old(machine.free)
      ensures Kept(old(shape), old(machine.mem), old(machine.free), shape, machine.mem, machine.free)
      ensures StepCovered(machine.p, old(shape), old(flush.record), shape, flush.record)
      ensures Frugal(old(flush.record), flush.record, old(shape), shape, start, start + Total(blocks),
        BlockSpans(machine.p, s, start, blocks))
    {
      hide Owns, Apart, Remembers, Kept, Aligned, PageNo, IndexOf, Find, Trims, Trimmed, Within, Good, Size, Ready;
      hide Frugal, StepCovered, ReadyKept, BlocksAt, Total, BlockSpans, Spans, MissingAt, Answered;
      hide BlocksMapped;
      var p := machine.p;
      ghost var end := start + Total(blocks);
      StartedFacts(p, s, shape, machine.mem, machine.free, flush.record, start);
      TotalOf(blocks, 0);
      BlockSpansOf(p, s, start, blocks, 0);
      FrugalRefl(flush.record, shape, start, start, 0);
      AnsweredNone(machine.refuses, machine.asked, machine.free);
      NoneMapped(p, shape, blocks, attrs, s, start);
      forall va: nat | start <= va < end ensures Find(p, p.Top(), shape, va) == None {
        assert Translate(va) == Find(p, p.Top(), shape, va);
      }
      upto := start;
      var pos := start;
      for i := 0 to |blocks|
        invariant Sound() && pos == start + Total(blocks[..i]) <= end && upto == pos && Aligned(p, s, pos)
        invariant BlocksMapped(p, old(shape), shape, blocks, attrs, s, start, pos)
        invariant ReadyKept(p, p.Top(), s, 0, old(shape), shape)
        invariant Trims(p, p.Top(), 0, old(shape), shape, start, pos, pos)
        invariant Within(old(shape), shape)
        invariant Kept(old(shape), old(machine.mem), old(machine.free), shape, machine.mem, machine.free)
        invariant StepCovered(p, old(shape), old(flush.record), shape, flush.record)
        invariant Answered(machine.refuses, old(machine.asked), machine.asked, machine.free, true)
        invariant Frugal(old(flush.record), flush.record, old(shape), shape, start, pos,
                         BlockSpans(p, s, start, blocks[..i]))
      {
        var block := blocks[i];
        TotalOf(blocks, i);
        TotalOf(blocks, i + 1);
        assert blocks[..i + 1] <= blocks;
        ZeroAligned(p, s);
        AlignedOn(Kind.Map(attrs), p, s, pos, 0, block.len);
        ghost var t, r, m, f, asked := shape, flush.record, machine.mem, machine.free, machine.asked;
        StillReady(p, s, old(shape), t, start, end, pos, pos + block.len);
        StillUnmapped(p, old(shape), t, blocks, attrs, s, start, pos, end);
        label Before:
        ok, upto := MapContiguous(s, pos, pos + block.len, block.phys, attrs, flush);
        BlockDone(p, s, old(shape), old(machine.mem), old(machine.free), old(flush.record), t, m, f, r,
                  shape, machine.mem, machine.free, flush.record, start, pos, pos + block.len, end, ok);
        forall va: nat | va < Size(p, |p.entries|) ensures Find(p, p.Top(), shape, va) ==
          if pos <= va < upto then Some(Translation(block.phys + (va - pos), attrs, s)) else Find(p, p.Top(), t, va)
        {
          assert Translate(va) == Find(p, p.Top(), shape, va);
          assert old@Before(Translate(va)) == Find(p, p.Top(), t, va);
        }
        BlockMapped(p, old(shape), t, shape, blocks, i, attrs, s, start, pos, upto);
        BlockSpansOf(p, s, start, blocks, i + 1);
        BlockFrugal(p, old(shape), old(flush.record), t, r, shape, flush.record, start, pos, pos + block.len, end,
                    BlockSpans(p, s, start, blocks[..i]), Spans(p, s, pos, pos + block.len),
                    BlockSpans(p, s, start, blocks));
        AnsweredTrans(machine.refuses, old(machine.asked), asked, machine.asked, f, machine.free, ok);
        if !ok {
          BlocksShown(p, old(shape), shape, blocks, attrs, s, start, upto);
          MissedBefore(p, s, old(shape), shape, start, end, upto, ok);
          TrimmedAfter(p, old(shape), shape, start, start, end);
          FramesMoved(p, p.Top(), old(shape), old(machine.mem), old(machine.free), shape, machine.mem, machine.free);
          return;
        }
        pos := pos + block.len;
      }
      assert blocks[..|blocks|] == blocks;
      BlocksShown(p, old(shape), shape, blocks, attrs, s, start, end);
      TrimmedAfter(p, old(shape), shape, start, end, end);
      FramesMoved(p, p.Top(), old(shape), old(machine.mem), old(machine.free), shape, machine.mem, machine.free);
      ok := true;
    }

    /** Changes where a range is mapped to, and neither its attributes nor any table. */
    method RemapContiguous(s: nat, start: nat, end: nat, phys: nat, flush: Flush)
      requires Sound() && InSpace(machine.p, s, start, end) && Aligned(machine.p, s, phys)
      requires forall va: nat | start <= va < end :: Translate(va).Some? && Translate(va).value.level == s
      modifies this, machine, flush
      ensures Sound() && Within(old(shape), shape) && Within(shape, old(shape)) && machine.free == old(machine.free)
      ensures machine.asked == old(machine.asked)
      ensures old(Valid()) ==> Valid()
      ensures forall va: nat | va < Size(machine.p, |machine.p.entries|) ::
        Translate(va) == if start <= va < end then Some(old(Translate(va)).value.(phys := phys + (va - start)))
          else old(Translate(va))
      ensures Trims(machine.p, machine.p.Top(), 0, old(shape), shape, start, end, end)
      ensures Kept(old(shape), old(machine.mem), old(machine.free), shape, machine.mem, machine.free)
      ensures StepCovered(machine.p, old(shape), old(flush.record), shape, flush.record)
      ensures Frugal(old(flush.record), flush.record, old(shape), shape, start, end, Spans(machine.p, s, start, end))
    {
      hide Owns, Apart, Remembers, Kept, Aligned, PageNo, IndexOf, Find, Trims, Trimmed, Within, Good, Size, Ready;
      hide Frugal, StepCovered, ReadyKept;
      var p := machine.p;
      forall va: nat | start <= va < end ensures Find(p, p.Top(), shape, va).Some?
        && Find(p, p.Top(), shape, va).value.level == s {
        assert Translate(va) == Find(p, p.Top(), shape, va);
      }
      AllMapped(p, s, shape, start, end);
      ghost var upto;
      var ok;
      ok, upto := Operate(Kind.Remap, s, start, end, phys, flush);
      TrimmedAfter(p, old(shape), shape, start, end, end);
      FramesMoved(p, p.Top(), old(shape), old(machine.mem), old(machine.free), shape, machine.mem, machine.free);
    }

    /** Changes the attributes of a range, and neither where it is mapped to nor any table. */
    method SetAttributes(s: nat, start: nat, end: nat, attrs: Attrs, flush: Flush)
      requires Sound() && InSpace(machine.p, s, start, end)
      requires forall va: nat | start <= va < end :: Translate(va).Some? && Translate(va).value.level == s
      modifies this, machine, flush
      ensures Sound() && Within(old(shape), shape) && Within(shape, old(shape)) && machine.free == old(machine.free)
      ensures machine.asked == old(machine.asked)
      ensures old(Valid()) ==> Valid()
      ensures forall va: nat | va < Size(machine.p, |machine.p.entries|) ::
        Translate(va) == if start <= va < end then Some(old(Translate(va)).value.(attrs := attrs))
          else old(Translate(va))
      ensures Trims(machine.p, machine.p.Top(), 0, old(shape), shape, start, end, end)
      ensures Kept(old(shape), old(machine.mem), old(machine.free), shape, machine.mem, machine.free)
      ensures StepCovered(machine.p, old(shape), old(flush.record), shape, flush.record)
      ensures Frugal(old(flush.record), flush.record, old(shape), shape, start, end, Spans(machine.p, s, start, end))
    {
      hide Owns, Apart, Remembers, Kept, Aligned, PageNo, IndexOf, Find, Trims, Trimmed, Within, Good, Size, Ready;
      hide Frugal, StepCovered, ReadyKept;
      var p := machine.p;
      forall va: nat | start <= va < end ensures Find(p, p.Top(), shape, va).Some?
        && Find(p, p.Top(), shape, va).value.level == s {
        assert Translate(va) == Find(p, p.Top(), shape, va);
      }
      AllMapped(p, s, shape, start, end);
      ghost var upto;
      var ok;
      ok, upto := Operate(Kind.SetAttributes(attrs), s, start, end, 0, flush);
      TrimmedAfter(p, old(shape), shape, start, end, end);
      FramesMoved(p, p.Top(), old(shape), old(machine.mem), old(machine.free), shape, machine.mem, machine.free);
    }

    /**
     Unmaps a range that is mapped in pages of level `s`, or what a failed mapping left of it. If no other table is
     without entries, then of the tables there were, those are left that still translate something; the frames of the
     others are free.
     */
    method Unmap(s: nat, start: nat, end: nat, flush: Flush)
      requires Sound() && InSpace(machine.p, s, start, end)
      requires Ready(machine.p, machine.p.Top(), s, shape, start, end)
      modifies this, machine, flush
      ensures Sound() && Within(shape, old(shape)) && old(machine.free) <= machine.free
      ensures machine.asked == old(machine.asked)
      ensures forall va: nat | va < Size(machine.p, |machine.p.entries|) ::
        Translate(va) == if start <= va < end then None else old(Translate(va))
      ensures Trims(machine.p, machine.p.Top(), 0, old(shape), shape, start, end, end)
      ensures old(Trim(start, end)) ==> Valid()
      ensures old(Trim(start, end)) ==>
        forall va: nat, j: nat | va < Size(machine.p, |machine.p.entries|) && j < machine.p.Top() ::
        TableAt(machine.p, machine.p.Top(), shape, va, j) ==
          if Used(machine.p, machine.p.Top(), shape, va, j) then TableAt(machine.p, machine.p.Top(), old(shape), va, j)
            else None
      ensures Kept(old(shape), old(machine.mem), old(machine.free), shape, machine.mem, machine.free)
      ensures StepCovered(machine.p, old(shape), old(flush.record), shape, flush.record)
      ensures Frugal(old(flush.record), flush.record, old(shape), shape, start, end, Spans(machine.p, s, start, end))
    {
      hide Owns, Apart, Remembers, Kept, Aligned, PageNo, IndexOf, Find, Trims, Trimmed, Within, Good, Size, Ready;
      hide StepCovered, Used, TableAt, ReadyKept;
      var p := machine.p;
      ghost var upto;
      var ok;
      ok, upto := Operate(Kind.Unmap, s, start, end, 0, flush);
      TrimmedAfter(p, old(shape), shape, start, end, end);
      FramesMoved(p, p.Top(), old(shape), old(machine.mem), old(machine.free), shape, machine.mem, machine.free);
      if old(Trim(start, end)) {
        TrimmedSolid(p, shape);
        forall va: nat, j: nat | va < Size(p, |p.entries|) && j < p.Top()
          ensures TableAt(p, p.Top(), shape, va, j) == if Used(p, p.Top(), shape, va, j) then
            TableAt(p, p.Top(), old(shape), va, j) else None
        {
          InRoot(p, va);
          TablesLeft(p, p.Top(), 0, old(shape), shape, va, j);
        }
      }
    }

    /** Mapping an unmapped range, successfully or not, and then unmapping it restores the tree of tables and the free
        frames. */
    method MapThenUnmap(s: nat, start: nat, end: nat, phys: nat, attrs: Attrs, flush: Flush)
      requires Valid() && InSpace(machine.p, s, start, end) && Aligned(machine.p, s, phys)
      requires forall va: nat | start <= va < end :: Translate(va) == None
      modifies this, machine, flush
      ensures Valid() && shape == old(shape) && machine.free == old(machine.free)
    {
      hide Owns, Apart, Remembers, Kept, Aligned, PageNo, IndexOf, Find, Trims, Trimmed, Within, Good, Size, Ready;
      hide StepCovered, Used, TableAt, ReadyKept;
      var p := machine.p;
      ghost var t, m, f := shape, machine.mem, machine.free;
      forall va: nat | start <= va < end ensures Find(p, p.Top(), t, va) == None {
        assert Translate(va) == Find(p, p.Top(), t, va);
      }
      AllUnmapped(p, s, t, start, end);
      ghost var upto;
      var ok;
      ok, upto := MapContiguous(s, start, end, phys, attrs, flush);
      label Mapped:
      ghost var t1, m1, f1 := shape, machine.mem, machine.free;
      StillReady(p, s, t, t1, start, end, start, end);
      Unmap(s, start, end, flush);
      forall va: nat | va < Size(p, |p.entries|) ensures Find(p, p.Top(), t, va) == Find(p, p.Top(), shape, va) {
        assert old(Translate(va)) == Find(p, p.Top(), t, va);
        assert old@Mapped(Translate(va)) == Find(p, p.Top(), t1, va);
        assert Translate(va) == Find(p, p.Top(), shape, va);
      }
      Restored(p, t, m, f, t1, m1, f1, shape, machine.mem, machine.free);
    }

    /** So does mapping it block by block and then unmapping all of it. */
    method MapBlocksThenUnmap(s: nat, start: nat, blocks: seq<Block>, attrs: Attrs, flush: Flush)
      requires Valid() && s <= machine.p.Top() && Aligned(machine.p, s, start) && BlocksFit(machine.p, s, blocks)
      requires blocks != []
      requires start + Total(blocks) <= Size(machine.p, |machine.p.entries|)
      requires forall va: nat | start <= va < start + Total(blocks) :: Translate(va) == None
      modifies this, machine, flush
      ensures Valid() && shape == old(shape) && machine.free == old(machine.free)
    {
      hide Owns, Apart, Remembers, Kept, Aligned, PageNo, IndexOf, Find, Trims, Trimmed, Within, Good, Size, Ready;
      hide StepCovered, Used, TableAt, ReadyKept;
      hide BlocksAt, Total;
      var p := machine.p;
      var end := start + Total(blocks);
      ghost var t, m, f := shape, machine.mem, machine.free;
      forall va: nat | start <= va < end ensures Find(p, p.Top(), t, va) == None {
        assert Translate(va) == Find(p, p.Top(), t, va);
      }
      BlocksEnd(p, s, start, blocks);
      AllUnmapped(p, s, t, start, end);
      ghost var upto;
      var ok;
      ok, upto := Map(s, start, blocks, attrs, flush);
      label Mapped:
      ghost var t1, m1, f1 := shape, machine.mem, machine.free;
      StillReady(p, s, t, t1, start, end, start, end);
      Unmap(s, start, end, flush);
      forall va: nat | va < Size(p, |p.entries|) ensures Find(p, p.Top(), t, va) == Find(p, p.Top(), shape, va) {
        assert old(Translate(va)) == Find(p, p.Top(), t, va);
        assert old@Mapped(Translate(va)) == Find(p, p.Top(), t1, va);
        assert Translate(va) == Find(p, p.Top(), shape, va);
      }
      Restored(p, t, m, f, t1, m1, f1, shape, machine.mem, machine.free);
    }

    // ---- Runs ----

    /** Follows the tables on the way to `va` down to level `s`, and tells what is found where nothing else is in the
        way. */
    method Probe(s: nat, va: nat) returns (ready: bool, found: Option<Translation>)
      requires Sound() && s <= machine.p.Top()
      ensures ready <==> ReadyAt(machine.p, machine.p.Top(), s, shape, va)
      ensures ready ==> found == Translate(va)
    {
      hide Owns, Apart, WF, PageNo, IndexOf, Size;
      var p := machine.p;
      var k: nat, table: nat := p.Top(), root;
      ghost var t := shape;
      while true
        invariant s <= k && Good(p, k, machine.mem, machine.free, t) && table == t.frame
        invariant Find(p, k, t, va) == Translate(va) && (ReadyAt(p, k, s, t, va) <==> ReadyAt(p, p.Top(), s, shape, va))
        decreases k
      {
        IndexInTable(p, k, va);
        var i := IndexOf(p, k, va);
        TableEntry(p, k, machine.mem, t, i);
        FindSlot(p, k, t, va, i);
        var entry := machine.mem[table][i];
        if k == s {
          return !entry.Table?, if entry.Leaf? then Some(Translation(entry.phys + va % Size(p, k), entry.attrs, k))
            else None;
        }
        match entry {
          case Vacant => return true, None;
          case Leaf(_, _) => return false, None;
          case Table(frame) =>
            GoodSub(p, k, machine.mem, machine.free, t, i);
            t, table, k := t.slots[i].node, frame, k - 1;
        }
      }
    }

    /** Whether the caller's conditions are met, page by page. */
    method Permits(op: Op) returns (permitted: bool)
      requires Sound()
      ensures permitted <==> Fits(machine.p, shape, op)
    {
      hide Owns, Apart, WF, PageNo, IndexOf, Size, Find, ReadyAt, Good, Aligned;
      var p := machine.p;
      if !InSpace(p, op.s, op.start, op.end) || (op.kind.TakesPhys() && !Aligned(p, op.s, op.phys)) {
        return false;
      }
      var va, size := op.start, Size(p, op.s);
      while va < op.end
        invariant Aligned(p, op.s, va) && op.start <= va <= op.end
        invariant forall x: nat | op.start <= x < va ::
          ReadyAt(p, p.Top(), op.s, shape, x) && Allowed(op.kind, op.s, Find(p, p.Top(), shape, x))
      {
        var ready, found := Probe(op.s, va);
        if !ready || !Allowed(op.kind, op.s, found) {
          return false;
        }
        NextPage(p, op.s, va, op.end);
        forall x: nat | va <= x < va + size
          ensures ReadyAt(p, p.Top(), op.s, shape, x) && Allowed(op.kind, op.s, Find(p, p.Top(), shape, x))
        {
          InPage(p, op.s, va, x);
          PageAlike(op.kind, p, p.Top(), op.s, shape, va, x);
        }
        va := va + size;
      }
      permitted := true;
    }

    /** One call of a run. */
    method Apply(op: Op, flush: Flush) returns (reply: Reply, ghost upto: nat)
      requires Sound()
      modifies this, machine, flush
      ensures Sound() && (reply.Refused? <==> !Fits(machine.p, old(shape), op)) && Reaches(op, reply, upto)
      ensures forall va: nat | va < Size(machine.p, |machine.p.entries|) ::
        Translate(va) == Stepped(op, upto, va, old(Translate(va)))
      ensures forall va: nat, j: nat | va < Size(machine.p, |machine.p.entries|) && j < machine.p.Top()
                                       && EmptyAt(machine.p, machine.p.Top(), shape, va, j) ::
        Left(machine.p, op, reply, va, j, EmptyAt(machine.p, machine.p.Top(), old(shape), va, j))
      ensures Kept(old(shape), old(machine.mem), old(machine.free), shape, machine.mem, machine.free)
      ensures StepCovered(machine.p, old(shape), old(flush.record), shape, flush.record)
      ensures reply.Refused? ==>
        Now() == old(Now()) && machine.mem == old(machine.mem) && flush.record == old(flush.record)
      ensures !reply.Refused? ==>
        && op.s <= machine.p.Top()
        && Frugal(old(flush.record), flush.record, old(shape), shape, op.start, op.end,
                  Spans(machine.p, op.s, op.start, op.end))
      ensures Answered(machine.refuses, old(machine.asked), machine.asked, machine.free, !reply.OutOfFrames?)
      ensures reply.OutOfFrames? ==> op.s <= machine.p.Top() && MissingAt(machine.p, machine.p.Top(), op.s, shape, upto)
    {
      hide Owns, Apart, Remembers, Kept, Aligned, PageNo, IndexOf, Find, Trims, Within, Good, Size, Ready, StepCovered;
      hide EmptyAt, ReadyKept, Touches;
      var p := machine.p;
      var permitted := Permits(op);
      if !permitted {
        KeptRefl(shape, machine.mem, machine.free);
        CoveredRefl(p, shape, flush.record);
        return Refused, op.start;
      }
      var ok := true;
      forall va: nat | op.start <= va < op.end ensures Allowed(op.kind, op.s, Translate(va)) {
        assert Translate(va) == Find(p, p.Top(), shape, va);
      }
      match op.kind {
        case Map(attrs) => ok, upto := MapContiguous(op.s, op.start, op.end, op.phys, attrs, flush);
        case Remap => RemapContiguous(op.s, op.start, op.end, op.phys, flush);
        case SetAttributes(attrs) => SetAttributes(op.s, op.start, op.end, attrs, flush);
        case Unmap => Unmap(op.s, op.start, op.end, flush);
      }
      reply := if ok then Done else OutOfFrames;
      if ok {
        upto := op.end;
      }
      forall va: nat, j: nat | va < Size(p, |p.entries|) && j < p.Top() && EmptyAt(p, p.Top(), shape, va, j)
        ensures Left(p, op, reply, va, j, EmptyAt(p, p.Top(), old(shape), va, j))
      {
        InRoot(p, va);
        TrimsLeft(p, old(shape), shape, op, reply, va, j);
      }
    }

    /**
     Any sequence of calls that share one record, whether they succeed, run out of frames or are refused. Each address
     is translated as the calls say, one after the other; every translation that changed will be flushed; tables
     without entries are only where a mapping ran out of frames and nothing was completed since.
     */
    method ApplyAll(ops: seq<Op>, flush: Flush)
      returns (replies: seq<Reply>, ghost reached: seq<nat>, ghost moments: seq<Moment>)
      requires Sound()
      modifies this, machine, flush
      ensures Sound() && |replies| == |reached| == |ops| && |moments| == |ops| + 1 && moments[0] == old(Now())
      ensures moments[|ops|] == Now() && AllCalled(machine.p, machine.refuses, ops, replies, reached, moments)
      ensures forall va: nat | va < Size(machine.p, |machine.p.entries|) ::
        Translate(va) == Replay(ops, reached, va, old(Translate(va)))
      ensures StepCovered(machine.p, old(shape), old(flush.record), shape, flush.record)
      ensures Kept(old(shape), old(machine.mem), old(machine.free), shape, machine.mem, machine.free)
      ensures forall va: nat, j: nat | va < Size(machine.p, |machine.p.entries|) && j < machine.p.Top()
                                       && EmptyAt(machine.p, machine.p.Top(), shape, va, j) ::
        Debris(machine.p, ops, replies, va, j, EmptyAt(machine.p, machine.p.Top(), old(shape), va, j))
      ensures old(Valid()) && CleanedUp(ops, replies) ==> Valid()
    {
      hide Owns, Apart, Remembers, Kept, Aligned, PageNo, IndexOf, Find, Within, Good, Size, StepCovered, EmptyAt;
      hide Touches;
      hide Fits, Left, Debris, Replay, Stepped, Reaches, CleanedUp, AllCalled, Answered, MissingAt;
      var p := machine.p;
      replies, reached, moments := [], [], [Now()];
      KeptRefl(shape, machine.mem, machine.free);
      CoveredRefl(p, shape, flush.record);
      NothingRun(p);
      NothingCalled(p, machine.refuses, ops, Now());
      for i := 0 to |ops|
        invariant Sound() && |replies| == |reached| == i && |moments| == i + 1 && moments[0] == old(Now())
        invariant moments[i] == Now() && AllCalled(p, machine.refuses, ops[..i], replies, reached, moments)
        invariant forall va: nat | va < Size(p, |p.entries|) ::
          Translate(va) == Replay(ops[..i], reached, va, old(Translate(va)))
        invariant StepCovered(p, old(shape), old(flush.record), shape, flush.record)
        invariant Kept(old(shape), old(machine.mem), old(machine.free), shape, machine.mem, machine.free)
        invariant forall va: nat, j: nat | va < Size(p, |p.entries|) && j < p.Top()
          && EmptyAt(p, p.Top(), shape, va, j) ::
          Debris(p, ops[..i], replies, va, j, EmptyAt(p, p.Top(), old(shape), va, j))
      {
        ghost var t, m, f, r, was, had := shape, machine.mem, machine.free, flush.record, replies, reached;
        label Before:
        var reply;
        ghost var upto;
        reply, upto := Apply(ops[i], flush);
        CalledMore(p, machine.refuses, ops, replies, reached, moments, reply, upto, Now());
        replies, reached, moments := replies + [reply], reached + [upto], moments + [Now()];
        KeptTrans(old(shape), old(machine.mem), old(machine.free), t, m, f, shape, machine.mem, machine.free);
        CoveredTrans(p, old(shape), old(flush.record), t, r, shape, flush.record);
        forall va: nat | va < Size(p, |p.entries|) ensures Translate(va) ==
          Replay(ops[..i + 1], reached, va, old(Translate(va))) {
          ReplayMore(ops, had, upto, i, va, old(Translate(va)));
          assert old@Before(Translate(va)) == Replay(ops[..i], had, va, old(Translate(va)));
        }
        forall va: nat, j: nat | va < Size(p, |p.entries|) && j < p.Top() && EmptyAt(p, p.Top(), shape, va, j)
          ensures Debris(p, ops[..i + 1], replies, va, j, EmptyAt(p, p.Top(), old(shape), va, j))
        {
          DebrisMore(p, ops, was, reply, i, va, j, EmptyAt(p, p.Top(), t, va, j),
                     EmptyAt(p, p.Top(), old(shape), va, j));
        }
      }
      assert ops[..|ops|] == ops;
      AllClean(p, ops, replies, old(shape), shape);
    }
  }

  // ---- The root table ----

  lemma {:induction false} InRoot(p: Paging, va: nat)
    requires va < Size(p, |p.entries|)
    ensures PageNo(p, |p.entries|, va) == 0
  {
    hide Size;
    PageSpan(p, |p.entries|, va, 0);
  }

  lemma {:induction false} EnterRoot(kind: Kind, p: Paging, s: nat, t: Node, start: nat, end: nat, phys: nat)
    requires WF(p, p.Top(), t) && Fits(p, t, Op(kind, s, start, end, phys))
    ensures Entering(kind, p, p.Top(), s, t, start, end) && s <= p.Top() && start < end <= Size(p, |p.entries|)
  {
    hide PageNo, Size, Find, Aligned, WF;
    InRoot(p, start);
    InRoot(p, end - 1);
  }

  lemma {:induction false} LeaveRoot(kind: Kind, p: Paging, s: nat, t: Node, t': Node, start: nat, end: nat, upto: nat,
                                     ok: bool, phys: nat)
    requires Leaving(kind, p, p.Top(), s, t, t', start, end, upto, ok, phys) && start < end <= Size(p, |p.entries|)
    ensures WF(p, p.Top(), t) && WF(p, p.Top(), t') && s <= p.Top()
    ensures start <= upto <= end && (ok ==> upto == end) && (!kind.Map? ==> ok)
    ensures ReadyKept(p, p.Top(), s, 0, t, t') && Ordered(kind, t, t')
    ensures Trims(p, p.Top(), 0, t, t', start, if ok then end else start, end)
    ensures !ok ==> upto < end && MissingAt(p, p.Top(), s, t', upto)
    ensures forall va: nat | va < Size(p, |p.entries|) ::
      Find(p, p.Top(), t', va) == if start <= va < upto then
        After(kind, s, Find(p, p.Top(), t, va), phys + (va - start)) else Find(p, p.Top(), t, va)
  {
    hide PageNo, Size, Find, WF, Trims, ReadyKept, Ordered;
    InRoot(p, start);
    forall va: nat | va < Size(p, |p.entries|) ensures PageNo(p, |p.entries|, va) == 0 {
      InRoot(p, va);
    }
  }

  lemma {:induction false} RootCovered(kind: Kind, p: Paging, s: nat, t: Node, t': Node, start: nat, end: nat,
                                       upto: nat, ok: bool, phys: nat, r: Record, r': Record)
    requires Leaving(kind, p, p.Top(), s, t, t', start, end, upto, ok, phys) && start < end <= Size(p, |p.entries|)
    requires WF(p, p.Top(), t) && Remembers(r, r') && Structural(r, r', t, t')
    requires Recorded(kind, p, p.Top(), t, start, upto, r')
    ensures WF(p, p.Top(), t') && StepCovered(p, t, r, t', r')
  {
    hide PageNo, Size, Find, WF, Leaving, Remembers;
    LeaveRoot(kind, p, s, t, t', start, end, upto, ok, phys);
  }

  lemma {:induction false} OfRoot(p: Paging, va: nat)
    requires PageNo(p, |p.entries|, va) == 0
    ensures va < Size(p, |p.entries|)
  {
    hide Size;
    PageSpan(p, |p.entries|, va, 0);
  }

  // ---- Tables without entries ----

  /** All tables without entries are on the way to `lo..hi`. */
  ghost predicate Trimmed(p: Paging, t: Node, lo: nat, hi: nat)
    requires WF(p, p.Top(), t)
  {
    forall va: nat, j: nat | PageNo(p, p.Top() + 1, va) == 0 && j < p.Top() && EmptyAt(p, p.Top(), t, va, j) ::
      Touches(p, j + 1, va, lo, hi)
  }

  lemma {:induction false} TrimmedSolid(p: Paging, t: Node)
    requires WF(p, p.Top(), t)
    ensures Trimmed(p, t, 0, 0) <==> Solid(p, p.Top(), 0, t)
  {
    hide PageNo, EmptyAt, WF;
  }

  /** What a walk leaves of tables without entries. */
  lemma {:induction false} TrimmedAfter(p: Paging, t: Node, t': Node, lo: nat, mid: nat, hi: nat)
    requires WF(p, p.Top(), t) && WF(p, p.Top(), t') && lo <= mid <= hi && Trims(p, p.Top(), 0, t, t', lo, mid, hi)
    ensures Trimmed(p, t, 0, 0) ==> Trimmed(p, t', lo, hi)
    ensures mid == hi && (Trimmed(p, t, lo, hi) || Trimmed(p, t, 0, 0)) ==> Trimmed(p, t', 0, 0)
  {
    hide PageNo, EmptyAt, WF, Touches;
    forall va: nat, j: nat | PageNo(p, p.Top() + 1, va) == 0 && j < p.Top() && EmptyAt(p, p.Top(), t', va, j)
      ensures Trimmed(p, t, 0, 0) ==> Touches(p, j + 1, va, lo, hi)
      ensures !(mid == hi && (Trimmed(p, t, lo, hi) || Trimmed(p, t, 0, 0)))
    {
      TouchesSplit(p, j + 1, va, lo, mid, hi);
      TouchesNone(p, j + 1, va, 0);
      TouchesNone(p, j + 1, va, hi);
    }
  }

  lemma {:induction false} TouchesNone(p: Paging, k: nat, va: nat, lo: nat)
    requires k <= |p.entries|
    ensures !Touches(p, k, va, lo, lo)
  {
  }

  // ---- Runs ----

  lemma {:induction false} NextPage(p: Paging, s: nat, va: nat, end: nat)
    requires s <= |p.entries| && Aligned(p, s, va) && Aligned(p, s, end) && va < end
    ensures Aligned(p, s, va + Size(p, s)) && va + Size(p, s) <= end
  {
    hide Size;
    var b := Size(p, s);
    AlignedPlus(p, s, va, 1);
    OnePage(p, s, s, va);
    WholePage(p, s, va, end, va, va + b - 1);
  }

  lemma {:induction false} InPage(p: Paging, s: nat, va: nat, x: nat)
    requires s <= |p.entries| && Aligned(p, s, va) && va <= x < va + Size(p, s)
    ensures PageNo(p, s, x) == PageNo(p, s, va)
  {
    hide Size, PageNo;
    OnePage(p, s, s, va);
    PageMonotone(p, s, va, x);
    PageMonotone(p, s, x, va + Size(p, s) - 1);
  }

  lemma {:induction false} TrimsLeft(p: Paging, t: Node, t': Node, op: Op, reply: Reply, va: nat, j: nat)
    requires WF(p, p.Top(), t) && WF(p, p.Top(), t') && !reply.Refused? && j < p.Top()
    requires PageNo(p, p.Top() + 1, va) == 0
    requires Trims(p, p.Top(), 0, t, t', op.start, if reply.Done? then op.end else op.start, op.end)
    requires EmptyAt(p, p.Top(), t', va, j)
    ensures Left(p, op, reply, va, j, EmptyAt(p, p.Top(), t, va, j))
  {
    hide PageNo, EmptyAt, WF, Touches;
    TouchesNone(p, j + 1, va, op.end);
  }

  lemma {:induction false} NothingRun(p: Paging)
    ensures forall va: nat, old_ :: Replay([], [], va, old_) == old_
    ensures forall va: nat, j: nat, before | j < |p.entries| :: Debris(p, [], [], va, j, before) == before
  {
  }

  lemma {:induction false} AllClean(p: Paging, ops: seq<Op>, replies: seq<Reply>, t: Node, t': Node)
    requires WF(p, p.Top(), t) && WF(p, p.Top(), t') && |ops| == |replies|
    requires forall va: nat, j: nat | va < Size(p, |p.entries|) && j < p.Top() && EmptyAt(p, p.Top(), t', va, j) ::
      Debris(p, ops, replies, va, j, EmptyAt(p, p.Top(), t, va, j))
    ensures Trimmed(p, t, 0, 0) && CleanedUp(ops, replies) ==> Trimmed(p, t', 0, 0)
  {
    hide WF, EmptyAt, Debris, PageNo, Size, CleanedUp;
    if Trimmed(p, t, 0, 0) && CleanedUp(ops, replies) {
      forall va: nat, j: nat | PageNo(p, p.Top() + 1, va) == 0 && j < p.Top() ensures !EmptyAt(p, p.Top(), t', va, j) {
        OfRoot(p, va);
        NoDebris(p, ops, replies, va, j);
        TouchesNone(p, j + 1, va, 0);
      }
    }
  }

  // ---- Success ----

  /** Mapping fails only where a table was missing to begin with, and never for the largest pages. */
  lemma {:induction false} MissedBefore(p: Paging, s: nat, t: Node, t': Node, start: nat, end: nat, upto: nat, ok: bool)
    requires WF(p, p.Top(), t) && WF(p, p.Top(), t') && s <= p.Top() && Within(t, t') && start <= upto
    requires Ready(p, p.Top(), s, t, start, end) && (!ok ==> upto < end && MissingAt(p, p.Top(), s, t', upto))
    ensures (forall va: nat | start <= va < end :: !MissingAt(p, p.Top(), s, t, va)) ==> ok
    ensures s == p.Top() ==> ok
  {
    hide Within, WF, ReadyAt;
    if !ok {
      assert ReadyAt(p, p.Top(), s, t, upto);
      MissingBefore(p, p.Top(), s, t, t', upto);
    }
  }

  // ---- Blocks ----

  /** Before the first block. */
  lemma {:induction false} StartedFacts(p: Paging, s: nat, t: Node, mem: Memory, free: set<nat>, r: Record, start: nat)
    requires WF(p, p.Top(), t) && s <= p.Top()
    ensures ReadyKept(p, p.Top(), s, 0, t, t) && Trims(p, p.Top(), 0, t, t, start, start, start)
    ensures Within(t, t) && Kept(t, mem, free, t, mem, free) && StepCovered(p, t, r, t, r)
  {
    hide WF, Trims, Within, Kept, StepCovered, ReadyAt;
    TrimsRefl(p, p.Top(), 0, t, start, start);
    WithinRefl(t);
    KeptRefl(t, mem, free);
    CoveredRefl(p, t, r);
  }

  /** After one more block: `t` at first, `t1` before the block, `t2` after it. */
  lemma {:induction false} BlockDone(p: Paging, s: nat, t: Node, m: Memory, f: set<nat>, r: Record, t1: Node,
                                     m1: Memory, f1: set<nat>, r1: Record, t2: Node, m2: Memory, f2: set<nat>,
                                     r2: Record, start: nat, pos: nat, hi: nat, end: nat, ok: bool)
    requires WF(p, p.Top(), t) && WF(p, p.Top(), t1) && WF(p, p.Top(), t2) && s <= p.Top() && start <= pos <= hi <= end
    requires ReadyKept(p, p.Top(), s, 0, t, t1) && ReadyKept(p, p.Top(), s, 0, t1, t2)
    requires Trims(p, p.Top(), 0, t, t1, start, pos, pos)
    requires Trims(p, p.Top(), 0, t1, t2, pos, if ok then hi else pos, hi)
    requires Within(t, t1) && Within(t1, t2) && Kept(t, m, f, t1, m1, f1) && Kept(t1, m1, f1, t2, m2, f2)
    requires StepCovered(p, t, r, t1, r1) && StepCovered(p, t1, r1, t2, r2)
    ensures ReadyKept(p, p.Top(), s, 0, t, t2) && Within(t, t2) && Kept(t, m, f, t2, m2, f2)
    ensures StepCovered(p, t, r, t2, r2)
    ensures if ok then Trims(p, p.Top(), 0, t, t2, start, hi, hi) else Trims(p, p.Top(), 0, t, t2, start, start, end)
  {
    hide WF, Trims, Within, Kept, StepCovered, ReadyKept;
    var k := p.Top();
    ReadyKeptTrans(p, k, s, 0, t, t1, t2);
    WithinTrans(t, t1, t2);
    KeptTrans(t, m, f, t1, m1, f1, t2, m2, f2);
    CoveredTrans(p, t, r, t1, r1, t2, r2);
    TrimsTrans(p, k, 0, t, t1, t2, start, pos, if ok then hi else pos, hi);
    if !ok {
      TrimsLess(p, k, 0, t, t2, start, pos, hi);
      TrimsWider(p, t, t2, start, hi, end);
    }
  }

  lemma {:induction false} BlockFrugal(p: Paging, t: Node, r: Record, t1: Node, r1: Record, t2: Node, r2: Record,
                                       start: nat, pos: nat, hi: nat, end: nat, n: nat, m: nat, all: nat)
    requires WF(p, p.Top(), t1) && WF(p, p.Top(), t2) && StepCovered(p, t1, r1, t2, r2)
    requires Within(t, t1) && Within(t1, t2) && start <= pos <= hi <= end && n + m <= all
    requires Frugal(r, r1, t, t1, start, pos, n) && Frugal(r1, r2, t1, t2, pos, hi, m)
    ensures Frugal(r, r2, t, t2, start, hi, n + m) && Frugal(r, r2, t, t2, start, end, all)
  {
    hide WF, Within, Frugal, Find, SameTables;
    FrugalTrans(Kind.Map(0), r, r1, r2, t, t1, t2, start, pos, hi, n, m);
    FrugalMore(r, r2, t, t2, start, hi, n + m, end, all);
  }

  lemma {:induction false} TrimsWider(p: Paging, t: Node, t': Node, lo: nat, hi: nat, end: nat)
    requires WF(p, p.Top(), t) && WF(p, p.Top(), t') && lo <= hi <= end && Trims(p, p.Top(), 0, t, t', lo, lo, hi)
    ensures Trims(p, p.Top(), 0, t, t', lo, lo, end)
  {
    hide PageNo, EmptyAt, WF, Touches;
    forall va: nat, j: nat | PageNo(p, p.Top() + 1, va) == 0 && j < p.Top() && EmptyAt(p, p.Top(), t', va, j)
      ensures Touches(p, j + 1, va, lo, end) || (EmptyAt(p, p.Top(), t, va, j) && !Touches(p, j + 1, va, lo, lo))
    {
      TouchesSplit(p, j + 1, va, lo, hi, end);
      TouchesNone(p, j + 1, va, lo);
    }
  }

  lemma {:induction false} BlocksEnd(p: Paging, s: nat, start: nat, blocks: seq<Block>)
    requires s <= |p.entries| && Aligned(p, s, start) && BlocksFit(p, s, blocks)
    ensures Aligned(p, s, start + Total(blocks)) && (blocks != [] ==> Total(blocks) > 0)
    decreases blocks
  {
    hide Aligned;
    if blocks != [] {
      ZeroAligned(p, s);
      AlignedOn(Kind.Remap, p, s, start, 0, blocks[0].len);
      BlocksEnd(p, s, start + blocks[0].len, blocks[1..]);
    }
  }

  /** Equal translations after mapping and unmapping: everything is as it was. */
  lemma {:induction false} Restored(p: Paging, t: Node, m: Memory, f: set<nat>, t1: Node, m1: Memory, f1: set<nat>,
                                    t2: Node, m2: Memory, f2: set<nat>)
    requires Good(p, p.Top(), m, f, t) && WF(p, p.Top(), t1) && Good(p, p.Top(), m2, f2, t2)
    requires Kept(t, m, f, t1, m1, f1) && Kept(t1, m1, f1, t2, m2, f2) && Within(t, t1) && Within(t2, t1)
    requires Trimmed(p, t, 0, 0) && Trimmed(p, t2, 0, 0)
    requires forall va: nat | va < Size(p, |p.entries|) :: Find(p, p.Top(), t, va) == Find(p, p.Top(), t2, va)
    ensures t2 == t && f2 == f
  {
    hide Owns, Apart, Rep, WF, Kept, PageNo, Find, Trimmed, Solid, Within, Size;
    KeptTrans(t, m, f, t1, m1, f1, t2, m2, f2);
    assert SameFinds(p, p.Top(), 0, t, t2) by {
      forall va: nat | PageNo(p, p.Top() + 1, va) == 0 ensures Find(p, p.Top(), t, va) == Find(p, p.Top(), t2, va) {
        OfRoot(p, va);
      }
    }
    TrimmedSolid(p, t);
    TrimmedSolid(p, t2);
    SameTree(p, p.Top(), 0, t, t2, t1);
    FramesMoved(p, p.Top(), t, m, f, t2, m2, f2);
  }

  // ---- Where the walk can go ----

  lemma {:induction false} StillReady(p: Paging, s: nat, t: Node, t': Node, start: nat, end: nat, lo: nat, hi: nat)
    requires WF(p, p.Top(), t) && WF(p, p.Top(), t') && s <= p.Top() && start <= lo && hi <= end <= Size(p, |p.entries|)
    requires Ready(p, p.Top(), s, t, start, end) && ReadyKept(p, p.Top(), s, 0, t, t')
    ensures Ready(p, p.Top(), s, t', lo, hi)
  {
    hide PageNo, Size, WF, ReadyAt;
    forall va: nat | lo <= va < hi ensures ReadyAt(p, p.Top(), s, t', va) {
      InRoot(p, va);
      assert ReadyAt(p, p.Top(), s, t, va);
    }
  }

  lemma {:induction false} AllMapped(p: Paging, s: nat, t: Node, start: nat, end: nat)
    requires WF(p, p.Top(), t) && s <= p.Top()
    requires forall va: nat | start <= va < end ::
      Find(p, p.Top(), t, va).Some? && Find(p, p.Top(), t, va).value.level == s
    ensures Ready(p, p.Top(), s, t, start, end)
  {
    hide Find, WF, ReadyAt;
    forall va: nat | start <= va < end ensures ReadyAt(p, p.Top(), s, t, va) {
      MappedReady(p, p.Top(), s, t, va);
    }
  }

  lemma {:induction false} AllUnmapped(p: Paging, s: nat, t: Node, start: nat, end: nat)
    requires WF(p, p.Top(), t) && InSpace(p, s, start, end) && Trimmed(p, t, 0, 0)
    requires forall va: nat | start <= va < end :: Find(p, p.Top(), t, va) == None
    ensures Ready(p, p.Top(), s, t, start, end)
  {
    hide Find, WF, ReadyAt, Size, Aligned, Trimmed;
    ReadyElsewhere(p, s, t, start, end, 0, 0);
  }

  /** Empty tables on the way to one range do not matter for another. */
  lemma {:induction false} ReadyElsewhere(p: Paging, s: nat, t: Node, start: nat, end: nat, lo: nat, hi: nat)
    requires WF(p, p.Top(), t) && InSpace(p, s, start, end) && Trimmed(p, t, lo, hi) && (hi <= start || end <= lo)
    requires forall va: nat | start <= va < end :: AtLevel(s, Find(p, p.Top(), t, va))
    ensures Ready(p, p.Top(), s, t, start, end)
  {
    hide Find, WF, ReadyAt, Size, Aligned, EmptyAt, PageNo;
    forall va: nat, j: nat | start <= va < end && PageNo(p, p.Top() + 1, va) == 0 && j < s
      ensures !EmptyAt(p, p.Top(), t, va, j)
    {
      if EmptyAt(p, p.Top(), t, va, j) {
        TouchesUp(p, j + 1, s, va, lo, hi);
        var x: nat :| lo <= x < hi && PageNo(p, j + 1, x) == PageNo(p, j + 1, va)
          && PageNo(p, s, x) == PageNo(p, s, va);
        WholePage(p, s, start, end, va, x);
      }
    }
    AllReady(p, s, t, start, end);
  }

  /** Ranges that are unmapped, or mapped in pages of level `s`, can be walked exactly if no smaller table there is
      without entries. */
  lemma {:induction false} AllReady(p: Paging, s: nat, t: Node, start: nat, end: nat)
    requires WF(p, p.Top(), t) && InSpace(p, s, start, end)
    requires forall va: nat | start <= va < end :: AtLevel(s, Find(p, p.Top(), t, va))
    ensures Ready(p, p.Top(), s, t, start, end) <==> Furnished(p, p.Top(), s, 0, t, start, end)
  {
    hide PageNo, Size, Find, Aligned, WF, ReadyAt, EmptyAt;
    if Furnished(p, p.Top(), s, 0, t, start, end) {
      forall va: nat | start <= va < end ensures ReadyAt(p, p.Top(), s, t, va) {
        InRoot(p, va);
        AtLevelReady(p, p.Top(), s, 0, t, start, end, va);
      }
    }
    if Ready(p, p.Top(), s, t, start, end) {
      forall va: nat, j: nat | start <= va < end && j < s ensures !EmptyAt(p, p.Top(), t, va, j) {
        ReadyFurnished(p, p.Top(), s, t, va, j);
      }
    }
  }
}
