/**
 The range tree seen from outside: a sequence of ranges ordered by their last element
 (lib/range-tree/fuzz/range_tree.rs:129-362), and what its users rely on.
 */
module Models {
  import opened Shapes
  import opened Cells
  import opened Paths

  datatype Op<V> = Insert(start: nat, last: nat, value: V) | Remove(key: nat) | Get(key: nat) | Clear

  datatype Reply<V> = Done | Overlap | Found(value: V) | Missing

  /** The number of leading entries that end before `key`. */
  function PartitionPoint<V>(es: seq<Entry<V>>, key: nat): (i: nat)
    ensures IsLowerBound(es, i, key)
  {
    if es == [] || key <= es[0].last then 0
    else
      var i := PartitionPoint(es[1..], key);
      assert forall k | 0 <= k < i :: es[1..][..i][k] == es[k + 1] && es[1..][..i][k].last < key;
      assert es[1..][..i] == es[1..i + 1];
      assert forall k | 0 < k < i + 1 :: es[k] == es[1..][..i][k - 1];
      i + 1
  }

  /** There is only one such number, ordered or not. */
  lemma {:induction false} PartitionUnique<V>(es: seq<Entry<V>>, i: nat, key: nat)
    requires IsLowerBound(es, i, key)
    ensures i == PartitionPoint(es, key)
  {
    var j := PartitionPoint(es, key);
    assert forall k | 0 <= k < i :: es[..i][k] == es[k] && es[k].last < key;
    assert forall k | 0 <= k < j :: es[..j][k] == es[k] && es[k].last < key;
  }

  /** Whether putting `start..=last` at position `i` breaks the order with a neighbour. */
  predicate Clashes<V>(es: seq<Entry<V>>, i: nat, start: nat, last: nat)
    requires i <= |es|
  {
    (i < |es| && es[i].start < last) || (i > 0 && es[i - 1].last > start)
  }

  /** What one operation does to the sequence, and what it answers. */
  function Step<V>(es: seq<Entry<V>>, op: Op<V>): (seq<Entry<V>>, Reply<V>) {
    match op
    case Clear => ([], Done)
    case Insert(start, last, value) =>
      var i := PartitionPoint(es, last);
      if Clashes(es, i, start, last) then (es, Overlap) else (InsertedAt(es, i, Entry(start, last, value)), Done)
    case Get(key) =>
      var i := PartitionPoint(es, key);
      (es, if i < |es| && es[i].start <= key then Found(es[i].value) else Missing)
    case Remove(key) =>
      var i := PartitionPoint(es, key);
      if i < |es| && es[i].start <= key then (RemovedAt(es, i), Found(es[i].value)) else (es, Missing)
  }

  function Run<V>(es: seq<Entry<V>>, ops: seq<Op<V>>): (seq<Entry<V>>, seq<Reply<V>>)
    decreases |ops|
  {
    if ops == [] then (es, [])
    else
      var n := |ops| - 1;
      var (before, replies) := Run(es, ops[..n]);
      var (after, reply) := Step(before, ops[n]);
      (after, replies + [reply])
  }

  // ---- What every run keeps ----

  /** Non-empty ranges in order, each ending no later than the next one starts. */
  ghost predicate Ordered<V>(es: seq<Entry<V>>) {
    && (forall i | 0 <= i < |es| :: es[i].start <= es[i].last)
    && (forall i, j | 0 <= i < j < |es| :: es[i].last <= es[j].start)
  }

  ghost predicate Contains<V>(e: Entry<V>, x: nat) {
    e.start <= x <= e.last
  }

  /** Without a clash the new range fits in between its neighbours, and so in between all others. */
  lemma {:induction false} FitsBetween<V>(es: seq<Entry<V>>, i: nat, e: Entry<V>)
    requires Ordered(es) && e.start <= e.last && i <= |es| && !Clashes(es, i, e.start, e.last)
    ensures Ordered(InsertedAt(es, i, e))
  {
    var r := InsertedAt(es, i, e);
    assert forall j | 0 <= j < |r| :: r[j] == if j < i then es[j] else if j == i then e else es[j - 1];
    forall j | 0 <= j < i ensures es[j].last <= e.start {
      assert es[j].last <= es[i - 1].last;
    }
    forall j | i <= j < |es| ensures e.last <= es[j].start {
      assert es[i].start <= es[j].start;
    }
  }

  /** `insert` fails exactly when the order would break at its insertion point. */
  lemma {:induction false} InsertKeepsOrder<V>(es: seq<Entry<V>>, e: Entry<V>)
    requires Ordered(es) && e.start <= e.last
    ensures var i := PartitionPoint(es, e.last);
      Clashes(es, i, e.start, e.last) <==> !Ordered(InsertedAt(es, i, e))
  {
    hide PartitionPoint;
    var i := PartitionPoint(es, e.last);
    var r := InsertedAt(es, i, e);
    if !Clashes(es, i, e.start, e.last) {
      FitsBetween(es, i, e);
    } else if i < |es| && es[i].start < e.last {
      assert r[i] == e && r[i + 1] == es[i];
    } else {
      assert r[i - 1] == es[i - 1] && r[i] == e;
    }
  }

  /**
   The same rule without positions. A proper range is accepted exactly when every stored range
   lies on one side of it, shared end points allowed. A single point is also refused when it is
   the last element of a stored proper range.
   */
  lemma {:induction false} InsertAccepted<V>(es: seq<Entry<V>>, start: nat, last: nat)
    requires Ordered(es) && start <= last
    ensures !Clashes(es, PartitionPoint(es, last), start, last) <==>
      forall k | 0 <= k < |es| ::
        (es[k].last <= start || last <= es[k].start) && (start == last ==> es[k].last < last || last <= es[k].start)
  {
    var i := PartitionPoint(es, last);
    forall k | 0 <= k < i ensures es[k].last < last && es[k].last <= es[i - 1].last {
      assert es[..i][k] == es[k];
    }
    if !Clashes(es, i, start, last) {
      forall k | 0 <= k < |es|
        ensures (es[k].last <= start || last <= es[k].start)
        ensures (start == last ==> es[k].last < last || last <= es[k].start)
      {
        if i <= k {
          assert es[i].start <= es[k].start;
        }
      }
    } else if i < |es| && es[i].start < last {
      assert last <= es[i].last;
    } else {
      assert es[i - 1].last < last && es[i - 1].start <= es[i - 1].last;
    }
  }

  /** Acceptance depends on the order of insertion: a point at the end of a range is refused only when it comes
      second. */
  lemma {:induction false} PointAtTheEnd<V>(v: V)
    ensures Step([Entry(3, 5, v)], Insert(5, 5, v)).1 == Overlap
    ensures Step([Entry(5, 5, v)], Insert(3, 5, v)) == ([Entry(3, 5, v), Entry(5, 5, v)], Done)
  {
    var a, b := [Entry(3, 5, v)], [Entry(5, 5, v)];
    assert IsLowerBound(a, 0, 5) && IsLowerBound(b, 0, 5);
    PartitionUnique(a, 0, 5);
    PartitionUnique(b, 0, 5);
    assert InsertedAt(b, 0, Entry(3, 5, v)) == [Entry(3, 5, v), Entry(5, 5, v)];
  }

  lemma {:induction false} RemoveKeepsOrder<V>(es: seq<Entry<V>>, i: nat)
    requires Ordered(es) && i < |es|
    ensures Ordered(RemovedAt(es, i))
  {
    var r := RemovedAt(es, i);
    assert forall j | 0 <= j < |r| :: r[j] == if j < i then es[j] else es[j + 1];
  }

  /** Every operation keeps the order, provided inserted ranges are not reversed. */
  lemma {:induction false} StepKeepsOrder<V>(es: seq<Entry<V>>, op: Op<V>)
    requires Ordered(es) && (op.Insert? ==> op.start <= op.last)
    ensures Ordered(Step(es, op).0)
  {
    match op
    case Insert(start, last, value) =>
      InsertKeepsOrder(es, Entry(start, last, value));
    case Remove(key) =>
      if PartitionPoint(es, key) < |es| {
        RemoveKeepsOrder(es, PartitionPoint(es, key));
      }
    case _ =>
  }

  lemma {:induction false} RunKeepsOrder<V>(es: seq<Entry<V>>, ops: seq<Op<V>>)
    requires Ordered(es) && forall i | 0 <= i < |ops| :: ops[i].Insert? ==> ops[i].start <= ops[i].last
    ensures Ordered(Run(es, ops).0)
    decreases |ops|
  {
    if ops != [] {
      var n := |ops| - 1;
      RunKeepsOrder(es, ops[..n]);
      StepKeepsOrder(Run(es, ops[..n]).0, ops[n]);
    }
  }

  /** `get` finds a value exactly when a stored range contains the key, and then that of the first one. */
  lemma {:induction false} GetFindsContaining<V>(es: seq<Entry<V>>, x: nat)
    requires Ordered(es)
    ensures Step(es, Get(x)).1.Found? <==> exists k :: 0 <= k < |es| && Contains(es[k], x)
    ensures Step(es, Get(x)).1 == Missing || Step(es, Get(x)).1.Found?
    ensures forall k | 0 <= k < |es| && Contains(es[k], x) && (forall j | 0 <= j < k :: !Contains(es[j], x)) ::
      Step(es, Get(x)).1 == Found(es[k].value)
  {
    var i := PartitionPoint(es, x);
    forall k | 0 <= k < i ensures es[k].last < x {
      assert es[..i][k] == es[k];
    }
    if i < |es| {
      forall k | i < k < |es| && Contains(es[k], x) ensures Contains(es[i], x) {
        assert es[i].start <= es[i].last <= es[k].start;
      }
    }
  }

  /** Removing the last element of a range just inserted undoes the insertion. */
  lemma {:induction false} InsertThenRemove<V>(es: seq<Entry<V>>, start: nat, last: nat, v: V)
    requires Step(es, Insert(start, last, v)).1 == Done && start <= last
    ensures Step(Step(es, Insert(start, last, v)).0, Remove(last)) == (es, Found(v))
  {
    var i, e := PartitionPoint(es, last), Entry(start, last, v);
    var r := InsertedAt(es, i, e);
    assert r[..i] == es[..i];
    PartitionUnique(r, i, last);
    assert RemovedAt(r, i) == es;
  }

  // ---- The steps, one operation at a time ----

  /** Keys and range ends must be proper keys, not the absent one. */
  predicate InKeys<V>(op: Op<V>, max: nat) {
    match op
    case Insert(_, last, _) => last < max
    case Remove(key) => key < max
    case Get(key) => key < max
    case Clear => true
  }

  lemma {:induction false} SortedAfterInsert<V>(es: seq<Entry<V>>, i: nat, e: Entry<V>)
    requires Sorted(es) && IsLowerBound(es, i, e.last)
    ensures Sorted(InsertedAt(es, i, e))
  {
    assert forall k | 0 <= k < i :: es[..i][k] == es[k];
    var r := InsertedAt(es, i, e);
    forall j, k | 0 <= j < k < |r| ensures r[j].last <= r[k].last {
      if i <= k - 1 && i <= |es| - 1 {
        assert e.last <= es[i].last <= es[k - 1].last;
      }
    }
  }

  lemma {:induction false} SortedAfterRemove<V>(es: seq<Entry<V>>, i: nat)
    requires Sorted(es) && i < |es|
    ensures Sorted(RemovedAt(es, i))
  {
    var r := RemovedAt(es, i);
    assert forall j | 0 <= j < |r| :: r[j] == if j < i then es[j] else es[j + 1];
  }

  lemma {:induction false} StepOfInsert<V>(es: seq<Entry<V>>, start: nat, last: nat, v: V)
    requires Sorted(es)
    ensures var i, e := PartitionPoint(es, last), Entry(start, last, v);
      && i <= |es| && Sorted(InsertedAt(es, i, e))
      && Step(es, Insert(start, last, v)) ==
         if (i < |es| && es[i].start < last) || (i > 0 && es[i - 1].last > start) then (es, Overlap)
           else (InsertedAt(es, i, e), Done)
  {
    SortedAfterInsert(es, PartitionPoint(es, last), Entry(start, last, v));
  }

  lemma {:induction false} StepOfRemove<V>(es: seq<Entry<V>>, key: nat)
    requires Sorted(es)
    ensures var i := PartitionPoint(es, key);
      && i <= |es| && (i < |es| ==> Sorted(RemovedAt(es, i)))
      && Step(es, Remove(key)) == if i < |es| && es[i].start <= key then (RemovedAt(es, i), Found(es[i].value))
         else (es, Missing)
  {
    var i := PartitionPoint(es, key);
    if i < |es| {
      SortedAfterRemove(es, i);
    }
  }

  lemma {:induction false} StepOfGet<V>(es: seq<Entry<V>>, key: nat)
    ensures var i := PartitionPoint(es, key);
      i <= |es| && Step(es, Get(key)) == (es, if i < |es| && es[i].start <= key then Found(es[i].value) else Missing)
  {
  }

  lemma {:induction false} StepOfClear<V>(es: seq<Entry<V>>)
    ensures Step(es, Clear) == ([], Done) && Sorted<V>([])
  {
  }

  lemma {:induction false} RunNothing<V>(es: seq<Entry<V>>, ops: seq<Op<V>>)
    ensures Run(es, ops[..0]) == (es, [])
  {
  }

  lemma {:induction false} RunMore<V>(es: seq<Entry<V>>, ops: seq<Op<V>>, i: nat)
    requires i < |ops|
    ensures var (before, replies) := Run(es, ops[..i]); var (after, reply) := Step(before, ops[i]);
      Run(es, ops[..i + 1]) == (after, replies + [reply])
  {
    hide Step;
    assert ops[..i + 1][..i] == ops[..i] && ops[..i + 1][i] == ops[i];
  }

  // ---- Cursors ----

  datatype CursorOp<V> = Forward | Back | Add(e: Entry<V>) | Swap(e: Entry<V>) | Take

  /** Whether a step was taken, the entry that was there before, or no answer. */
  datatype CursorReply<V> = Moved(ok: bool) | Was(e: Entry<V>) | Nothing

  /** A cursor is an index into the sequence; at the end there is no entry to step over, swap or take. */
  function CursorStep<V>(es: seq<Entry<V>>, i: nat, op: CursorOp<V>): (seq<Entry<V>>, nat, CursorReply<V>) {
    match op
    case Forward => (es, if i < |es| then i + 1 else i, Nothing)
    case Back => (es, if i > 0 then i - 1 else i, Moved(i > 0))
    case Add(e) => (if i <= |es| then InsertedAt(es, i, e) else es, i, Nothing)
    case Swap(e) => if i < |es| then (es[i := e], i, Was(es[i])) else (es, i, Nothing)
    case Take => if i < |es| then (RemovedAt(es, i), i, Was(es[i])) else (es, i, Nothing)
  }

  function CursorRun<V>(es: seq<Entry<V>>, i: nat, ops: seq<CursorOp<V>>): (seq<Entry<V>>, nat, seq<CursorReply<V>>)
    decreases |ops|
  {
    if ops == [] then (es, i, [])
    else
      var (es', i', replies) := CursorRun(es, i, ops[..|ops| - 1]);
      var (es'', i'', reply) := CursorStep(es', i', ops[|ops| - 1]);
      (es'', i'', replies + [reply])
  }

  lemma {:induction false} CursorRunMore<V>(es: seq<Entry<V>>, i: nat, ops: seq<CursorOp<V>>, k: nat)
    requires k < |ops|
    ensures var (es', i', replies) := CursorRun(es, i, ops[..k]); var (es'', i'', reply) := CursorStep(es', i', ops[k]);
      CursorRun(es, i, ops[..k + 1]) == (es'', i'', replies + [reply])
  {
    hide CursorStep;
    assert ops[..k + 1][..k] == ops[..k] && ops[..k + 1][k] == ops[k];
  }

  lemma {:induction false} NoCursorOps<V>(es: seq<Entry<V>>, i: nat, ops: seq<CursorOp<V>>)
    ensures CursorRun(es, i, ops[..0]) == (es, i, [])
  {
  }
}
