/**
 Splitting virtual addresses into page numbers and table indices (lib/mem-core/src/arch/mod.rs:236-296,
 lib/mem-mmu/src/utils.rs). Addresses carry no sign extension here: a range lies in one half of the
 canonical address space and is given by the bits that translation looks at.

 Levels are counted from the smallest page up: an entry of a table at level `k` maps a page of `Size(k)`,
 and a whole table at level `k` spans `Size(k + 1)`.
 */
module Pagings {
  datatype Layout = Layout(granule: nat, entries: seq<nat>) {
    predicate Valid() {
      granule > 0 && entries != [] && forall i | 0 <= i < |entries| :: entries[i] > 0
    }

    /** The level of the root table. */
    function Top(): nat
      requires Valid()
    {
      |entries| - 1
    }
  }

  /** The RISC-V Sv39 layout: three levels of 512 entries over pages of 4 KiB. */
  const SV39 := Layout(4096, [512, 512, 512])

  type Paging = p: Layout | p.Valid() witness SV39

  function Size(p: Paging, k: nat): (r: nat)
    requires k <= |p.entries|
    ensures r > 0
  {
    if k == 0 then p.granule
    else
      Positive(p.entries[k - 1], Size(p, k - 1));
      p.entries[k - 1] * Size(p, k - 1)
  }

  lemma {:induction false} Positive(a: nat, b: nat)
    requires a > 0 && b > 0
    ensures a * b > 0
  {
  }

  /** The number of the page of size `Size(k)` that holds `va`. */
  function PageNo(p: Paging, k: nat, va: nat): nat
    requires k <= |p.entries|
  {
    va / Size(p, k)
  }

  /** `pte_index_of`: the entry of a table at level `k` that translates `va`. */
  function IndexOf(p: Paging, k: nat, va: nat): nat
    requires k < |p.entries|
  {
    PageNo(p, k, va) % p.entries[k]
  }

  predicate Aligned(p: Paging, k: nat, va: nat)
    requires k <= |p.entries|
  {
    va % Size(p, k) == 0
  }

  // ---- Division, once and for all ----

  lemma {:induction false} DivSpan(a: nat, b: nat, q: nat)
    requires b > 0
    ensures a / b == q <==> q * b <= a < (q + 1) * b
    ensures a == (a / b) * b + a % b
  {
    assert a == b * (a / b) + a % b;
    var d := a / b;
    assert d * b <= a < (d + 1) * b by { assert (d + 1) * b == d * b + b; }
    if q * b <= a < (q + 1) * b {
      if q < d {
        Scale(q + 1, d, b);
      } else if d < q {
        Scale(d + 1, q, b);
      }
    }
  }

  lemma {:induction false} Scale(x: nat, y: nat, b: nat)
    requires x <= y
    ensures x * b <= y * b
  {
  }

  lemma {:induction false} DivMonotone(x: nat, y: nat, b: nat)
    requires b > 0 && x <= y
    ensures x / b <= y / b
  {
    DivSpan(x, b, x / b);
    DivSpan(y, b, y / b);
    if y / b < x / b {
      Scale(y / b + 1, x / b, b);
    }
  }

  lemma {:induction false} DivDiv(a: nat, b: nat, c: nat)
    requires b > 0 && c > 0
    ensures c * b > 0 && a / (c * b) == (a / b) / c
  {
    Positive(c, b);
    var m := a / b;
    var q := m / c;
    DivSpan(a, b, m);
    DivSpan(m, c, q);
    assert q * (c * b) == (q * c) * b;
    assert (q + 1) * (c * b) == ((q + 1) * c) * b;
    Scale(q * c, m, b);
    Scale(m + 1, (q + 1) * c, b);
    DivSpan(a, c * b, q);
  }

  // ---- Page numbers ----

  /** The page that holds an address is known from any bounds that enclose it. */
  lemma {:induction false} PageSpan(p: Paging, k: nat, va: nat, n: nat)
    requires k <= |p.entries|
    ensures PageNo(p, k, va) == n <==> n * Size(p, k) <= va < (n + 1) * Size(p, k)
    ensures va == PageNo(p, k, va) * Size(p, k) + va % Size(p, k)
  {
    DivSpan(va, Size(p, k), n);
  }

  lemma {:induction false} PageMonotone(p: Paging, k: nat, va: nat, va': nat)
    requires k <= |p.entries| && va <= va'
    ensures PageNo(p, k, va) <= PageNo(p, k, va')
  {
    DivMonotone(va, va', Size(p, k));
  }

  /** A table at level `k` is one page of the level above. */
  lemma {:induction false} PageUp(p: Paging, k: nat, va: nat)
    requires k < |p.entries|
    ensures PageNo(p, k + 1, va) == PageNo(p, k, va) / p.entries[k]
  {
    DivDiv(va, Size(p, k), p.entries[k]);
  }

  /** Page numbers within one table differ as their indices do. */
  lemma {:induction false} IndexInTable(p: Paging, k: nat, va: nat)
    requires k < |p.entries|
    ensures IndexOf(p, k, va) < p.entries[k]
    ensures PageNo(p, k, va) == PageNo(p, k + 1, va) * p.entries[k] + IndexOf(p, k, va)
  {
    PageUp(p, k, va);
    DivSpan(PageNo(p, k, va), p.entries[k], 0);
  }

  /** Two addresses in one table have the same index exactly when they are in the same page. */
  lemma {:induction false} SameIndex(p: Paging, k: nat, va: nat, va': nat)
    requires k < |p.entries| && PageNo(p, k + 1, va) == PageNo(p, k + 1, va')
    ensures IndexOf(p, k, va) == IndexOf(p, k, va') <==> PageNo(p, k, va) == PageNo(p, k, va')
    ensures IndexOf(p, k, va) <= IndexOf(p, k, va') <==> PageNo(p, k, va) <= PageNo(p, k, va')
    ensures IndexOf(p, k, va') - IndexOf(p, k, va) == PageNo(p, k, va') - PageNo(p, k, va)
  {
    IndexInTable(p, k, va);
    IndexInTable(p, k, va');
  }

  /** Pages of one table are in that table. */
  lemma {:induction false} SamePageUp(p: Paging, k: nat, va: nat, va': nat)
    requires k < |p.entries| && PageNo(p, k, va) == PageNo(p, k, va')
    ensures PageNo(p, k + 1, va) == PageNo(p, k + 1, va') && IndexOf(p, k, va) == IndexOf(p, k, va')
  {
    PageUp(p, k, va);
    PageUp(p, k, va');
  }

  lemma {:induction false} UpFrom(p: Paging, j: nat, k: nat, x: nat, y: nat)
    requires j <= k <= |p.entries| && PageNo(p, j, x) == PageNo(p, j, y)
    ensures PageNo(p, k, x) == PageNo(p, k, y)
    decreases k
  {
    hide PageNo;
    if j < k {
      UpFrom(p, j, k - 1, x, y);
      SamePageUp(p, k - 1, x, y);
    }
  }

  /** Large pages start and end where small pages do. */
  lemma {:induction false} AlignedDown(p: Paging, s: nat, k: nat, n: nat)
    requires s <= k <= |p.entries|
    ensures Aligned(p, s, n * Size(p, k))
    decreases k
  {
    if s == k {
      Multiple(n, Size(p, k));
    } else {
      assert n * Size(p, k) == (n * p.entries[k - 1]) * Size(p, k - 1);
      AlignedDown(p, s, k - 1, n * p.entries[k - 1]);
    }
  }

  lemma {:induction false} Multiple(n: nat, b: nat)
    requires b > 0
    ensures (n * b) % b == 0 && (n * b) / b == n
  {
    DivSpan(n * b, b, n);
    assert (n + 1) * b == n * b + b;
  }

  /** A small page lies within one page of every larger size. */
  lemma {:induction false} OnePage(p: Paging, s: nat, k: nat, va: nat)
    requires s <= k <= |p.entries| && Aligned(p, s, va)
    ensures PageNo(p, k, va) == PageNo(p, k, va + Size(p, s) - 1)
    decreases k
  {
    hide PageNo, IndexOf;
    if k == s {
      var b, n := Size(p, s), PageNo(p, s, va);
      PageSpan(p, s, va, n);
      assert (n + 1) * b == n * b + b;
      PageSpan(p, s, va + b - 1, n);
    } else {
      OnePage(p, s, k - 1, va);
      SamePageUp(p, k - 1, va, va + Size(p, s) - 1);
    }
  }

  lemma {:induction false} Sv39Sizes()
    ensures Size(SV39, 0) == 0x1000 && Size(SV39, 1) == 0x20_0000 && Size(SV39, 2) == 0x4000_0000
    ensures Size(SV39, 3) == 0x80_0000_0000
  {
  }
}
