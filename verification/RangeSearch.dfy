/**
 Searching the pivots of one node (lib/range-tree/src/int.rs:69-78, lib/range-tree/src/simd/mod.rs:128-192).
 */
module Searching {
  /** The index of the first pivot greater than or equal to `key`. */
  function FirstGe(pivots: seq<nat>, key: nat): (r: nat)
    requires pivots != [] && key <= pivots[|pivots| - 1]
    ensures r < |pivots| && key <= pivots[r]
    ensures forall i | 0 <= i < r :: pivots[i] < key
  {
    if key <= pivots[0] then 0 else 1 + FirstGe(pivots[1..], key)
  }

  ghost predicate Ascending(pivots: seq<nat>) {
    forall i, j | 0 <= i < j < |pivots| :: pivots[i] <= pivots[j]
  }

  /** The pivots below `key` come first. That is all that a search relies on: it holds for every key where the pivots
      are sorted, and for the absent key wherever absent pivots come last. */
  ghost predicate Partitioned(pivots: seq<nat>, key: nat) {
    forall i, j | 0 <= i < j < |pivots| && key <= pivots[i] :: key <= pivots[j]
  }

  lemma {:induction false} AscendingPartitioned(pivots: seq<nat>, key: nat)
    requires Ascending(pivots)
    ensures Partitioned(pivots, key)
  {
  }

  lemma {:induction false} AbsentLast(pivots: seq<nat>, n: nat, max: nat)
    requires forall i | 0 <= i < |pivots| :: if i < n then pivots[i] < max else pivots[i] == max
    ensures Partitioned(pivots, max)
  {
  }

  ghost predicate PowerOfTwo(n: nat)
    decreases n
  {
    n == 1 || (n > 0 && n % 2 == 0 && PowerOfTwo(n / 2))
  }

  /** How many pivots are below `key`. */
  function CountBelow(pivots: seq<nat>, key: nat): nat {
    if pivots == [] then 0 else (if pivots[0] < key then 1 else 0) + CountBelow(pivots[1..], key)
  }

  /** The two ways the contract names to implement the search: counting smaller pivots ... */
  lemma {:induction false} CountingFinds(pivots: seq<nat>, key: nat)
    requires pivots != [] && key <= pivots[|pivots| - 1] && Partitioned(pivots, key)
    ensures CountBelow(pivots, key) == FirstGe(pivots, key)
  {
    if key <= pivots[0] {
      NoneBelow(pivots, key);
    } else {
      assert pivots[1..][|pivots| - 2] == pivots[|pivots| - 1];
      CountingFinds(pivots[1..], key);
    }
  }

  lemma {:induction false} NoneBelow(pivots: seq<nat>, key: nat)
    requires Partitioned(pivots, key) && (pivots != [] ==> key <= pivots[0])
    ensures CountBelow(pivots, key) == 0
  {
    if pivots != [] {
      NoneBelow(pivots[1..], key);
    }
  }

  lemma {:induction false} Halves(n: nat)
    requires PowerOfTwo(n) && n > 1
    ensures n / 2 > 0 && 2 * (n / 2) == n && PowerOfTwo(n / 2)
  {
  }

  lemma {:induction false} TwiceAtMost(n: nat, width: nat)
    requires PowerOfTwo(n) && PowerOfTwo(width) && width < n
    ensures width <= n / 2
    decreases n
  {
    if width > 1 && n > 2 {
      TwiceAtMost(n / 2, width / 2);
    }
  }

  /**
   ... and halving: as long as the window is longer than what one final search handles, the last pivot
   of its first half decides which half goes on. With a final width of one nothing is left to search.
   */
  method Search(pivots: seq<nat>, key: nat, width: nat) returns (index: nat)
    requires PowerOfTwo(|pivots|) && PowerOfTwo(width) && width <= |pivots|
    requires Partitioned(pivots, key) && key <= pivots[|pivots| - 1]
    ensures index == FirstGe(pivots, key)
  {
    hide Partitioned, PowerOfTwo, FirstGe;
    var len: nat, base: nat := |pivots|, 0;
    Positive(len, width);
    while len > width
      invariant PowerOfTwo(len) && 0 < width <= len && base + len <= |pivots|
      invariant base == 0 || pivots[base - 1] < key
      invariant key <= pivots[base + len - 1]
    {
      Halves(len);
      TwiceAtMost(len, width);
      var mid := base + len / 2;
      if key > pivots[mid - 1] {
        base := mid;
      }
      len := len / 2;
    }
    index := base + FirstGe(pivots[base..base + len], key);
    WindowFinds(pivots, key, base, len);
  }

  lemma {:induction false} Positive(len: nat, width: nat)
    requires PowerOfTwo(len) && PowerOfTwo(width)
    ensures len > 0 && width > 0
  {
  }

  /** Searching the window that is left finds the same pivot. */
  lemma {:induction false} WindowFinds(pivots: seq<nat>, key: nat, base: nat, len: nat)
    requires Partitioned(pivots, key) && 0 < len && base + len <= |pivots| && key <= pivots[base + len - 1]
    requires base == 0 || pivots[base - 1] < key
    ensures key <= pivots[|pivots| - 1] && base + FirstGe(pivots[base..base + len], key) == FirstGe(pivots, key)
  {
    var window := pivots[base..base + len];
    var i := base + FirstGe(window, key);
    assert i > base ==> pivots[i - 1] == window[i - base - 1];
    FirstIsUnique(pivots, key, i);
  }

  lemma {:induction false} FirstIsUnique(pivots: seq<nat>, key: nat, i: nat)
    requires Partitioned(pivots, key) && i < |pivots| && key <= pivots[i] && key <= pivots[|pivots| - 1]
    requires i == 0 || pivots[i - 1] < key
    ensures i == FirstGe(pivots, key)
  {
  }
}
