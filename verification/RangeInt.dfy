/**
 The integers behind the keys (lib/range-tree/src/int.rs). A key is a non-zero unsigned integer of some
 width; a node stores it less one, plus a bias that makes signed comparison usable. Everywhere else in this
 project a key is its rank, a natural number below the absent key `max`; this module is why that is enough.
 */
module Keys {
  import opened Options

  /** Wrapping arithmetic modulo `n`, the number of values of the raw type. */
  function WrappingAdd(a: nat, b: nat, n: nat): nat
    requires a < n && b < n
  {
    if a + b < n then a + b else a + b - n
  }

  function WrappingSub(a: nat, b: nat, n: nat): nat
    requires a < n && b < n
  {
    if b <= a then a - b else a + n - b
  }

  /** The number of values of the raw type, and the bias: zero, or half of the values where only signed comparison
      exists. */
  datatype Width = Width(values: nat, bias: nat) {
    ghost predicate Valid() {
      values >= 2 && (bias == 0 || 2 * bias == values)
    }

    /** The raw value that marks an absent pivot. */
    function Max(): nat
      requires Valid()
    {
      WrappingAdd(values - 1, bias, values)
    }

    function ToRaw(key: nat): nat
      requires Valid() && 0 < key < values
    {
      WrappingAdd(WrappingSub(key, 1, values), bias, values)
    }

    function FromRaw(raw: nat): Option<nat>
      requires Valid() && raw < values
    {
      var key := WrappingAdd(WrappingSub(raw, bias, values), 1, values);
      if key == 0 then None else Some(key)
    }

    /** What `bias_cmp` compares. */
    function Unbiased(raw: nat): nat
      requires Valid() && raw < values
    {
      WrappingAdd(raw, bias, values)
    }

    function Increment(raw: nat): nat
      requires Valid() && raw < values
    {
      WrappingAdd(raw, 1, values)
    }

    /** The rank of a raw value: the number of raw values that compare below it. */
    function Rank(raw: nat): nat
      requires Valid() && raw < values
    {
      WrappingSub(raw, bias, values)
    }
  }

  /** Keys survive the way to the node and back, and compare there as they do here. */
  lemma {:induction false} KeysRoundTrip(w: Width, a: nat, b: nat)
    requires w.Valid() && 0 < a < w.values && 0 < b < w.values
    ensures w.ToRaw(a) < w.values && w.FromRaw(w.ToRaw(a)) == Some(a)
    ensures w.Rank(w.ToRaw(a)) == a - 1
    ensures w.ToRaw(b) < w.values && (w.Unbiased(w.ToRaw(a)) < w.Unbiased(w.ToRaw(b)) <==> a < b)
  {
  }

  /** Exactly the largest raw value stands for no key; it compares above all others; stepping past the last key gives
      it. */
  lemma {:induction false} MaxIsAbsent(w: Width, raw: nat)
    requires w.Valid() && raw < w.values
    ensures w.Max() < w.values && w.Rank(w.Max()) == w.values - 1
    ensures w.FromRaw(raw) == None <==> raw == w.Max()
    ensures w.FromRaw(raw).Some? ==> w.ToRaw(w.FromRaw(raw).value) == raw
    ensures raw != w.Max() ==> w.Unbiased(raw) < w.Unbiased(w.Max()) && w.Rank(w.Increment(raw)) == w.Rank(raw) + 1
    ensures w.Increment(w.Max()) < w.values && w.Rank(w.Increment(w.Max())) == 0
  {
  }

  /** Comparing raw values is comparing ranks, and ranks name raw values uniquely. */
  lemma {:induction false} RankIsOrder(w: Width, x: nat, y: nat)
    requires w.Valid() && x < w.values && y < w.values
    ensures w.Unbiased(x) < w.Unbiased(y) <==> w.Rank(x) < w.Rank(y)
    ensures w.Rank(x) == w.Rank(y) <==> x == y
  {
  }
}
