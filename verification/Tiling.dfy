/** The abstract state of one region: which block owns each page.  The
    canonical-form theorems are proved here, on values; `Region` proves that
    the pointer code keeps its headers and free lists in step with it. */
module Tiling {
  import opened Bits

  const MAX_ORDER: nat := 10

  /** A block of `2^ord` pages whose first page is `idx`, counted from the
      start of the region. */
  datatype Tile = Tile(idx: nat, ord: nat, free: bool) {
    function End(): nat { idx + Pow2(ord) }

    predicate Covers(p: int) { idx <= p < End() }

    predicate Fits(n: nat) {
      ord <= MAX_ORDER && Aligned(idx, ord) && End() <= n
    }
  }

  /** `own[p]` is the block that page `p` belongs to: every page is covered,
      by an aligned block inside the region, and blocks do not overlap. */
  ghost predicate IsTiling(own: seq<Tile>) {
    && (forall p :: 0 <= p < |own| ==> own[p].Fits(|own|) && own[p].Covers(p))
    && Exclusive(own)
  }

  ghost predicate Exclusive(own: seq<Tile>) {
    forall p, q :: 0 <= p < |own| && 0 <= q < |own| && own[p].Covers(q) ==> own[q] == own[p]
  }

  /** First page of the other half of the run of order `k + 1` around `i`. */
  function Buddy(i: nat, k: nat): int {
    if Aligned(i, k + 1) then i + Pow2(k) else i - Pow2(k)
  }

  ghost predicate IsFree(own: seq<Tile>, i: int, k: nat) {
    0 <= i < |own| && own[i] == Tile(i, k, true)
  }

  /** The block at page `p` has no free buddy it should have merged with. */
  ghost predicate Lonely(own: seq<Tile>, p: int)
    requires 0 <= p < |own|
  {
    own[p].free && own[p].ord < MAX_ORDER ==>
      !IsFree(own, Buddy(own[p].idx, own[p].ord), own[p].ord)
  }

  ghost predicate Coalesced(own: seq<Tile>) {
    forall p {:trigger Lonely(own, p)} :: 0 <= p < |own| ==> Lonely(own, p)
  }

  /** What every reachable state satisfies. */
  ghost predicate Canon(own: seq<Tile>) {
    IsTiling(own) && Coalesced(own)
  }

  /** An aligned run of `2^k` pages, none of them allocated. */
  ghost predicate FreeRun(own: seq<Tile>, i: int, k: nat) {
    && 0 <= i && k <= MAX_ORDER && Aligned(i, k) && i + Pow2(k) <= |own|
    && forall p :: i <= p < i + Pow2(k) ==> own[p].free
  }

  /** The allocated blocks. */
  ghost function Live(own: seq<Tile>): set<Tile> {
    set t | t in own && !t.free
  }

  // ---------------------------------------------------------------- geometry

  /** Aligned runs are nested or disjoint. */
  lemma Nested(a: nat, j: nat, b: nat, k: nat)
    requires Aligned(a, j) && Aligned(b, k) && j <= k
    requires a < b + Pow2(k) && b < a + Pow2(j)
    ensures b <= a && a + Pow2(j) <= b + Pow2(k)
  {
    hide Aligned;
    AlignedWeaken(b, j, k);
    AlignedAddPow(b, j, k);
    if a < b {
      AlignedGap(a, b, j);
    }
    AlignedGap(a, b + Pow2(k), j);
  }

  /** A tile that meets an aligned run of no larger order contains it. */
  lemma TileSwallows(own: seq<Tile>, p: int, i: nat, k: nat)
    requires IsTiling(own) && 0 <= p < |own|
    requires Aligned(i, k) && i + Pow2(k) <= |own| && k <= own[p].ord
    requires own[p].idx < i + Pow2(k) && i < own[p].End()
    ensures own[p].idx <= i && i + Pow2(k) <= own[p].End() && own[i] == own[p]
  {
    hide Aligned;
    Nested(i, k, own[p].idx, own[p].ord);
    assert own[p].Covers(i);
  }

  lemma BuddyFacts(i: nat, k: nat)
    requires Aligned(i, k)
    ensures Buddy(i, k) >= 0 && Aligned(Buddy(i, k), k)
    ensures Buddy(Buddy(i, k), k) == i
    ensures var lo := if i < Buddy(i, k) then i else Buddy(i, k);
            Aligned(lo, k + 1) && (i == lo || i == lo + Pow2(k)) && (Buddy(i, k) == lo || Buddy(i, k) == lo + Pow2(k))
  {
    hide Aligned;
    AlignedHalves(i, k);
    if Aligned(i, k + 1) {
    } else {
      var lo := i - Pow2(k);
      AlignedWeaken(lo, k, k + 1);
      AlignedHalves(lo, k);
    }
  }

  /** The geometric fact that makes stale headers harmless: the page at which
      a block's buddy would start is always the first page of some block. */
  lemma BuddyIsHead(own: seq<Tile>, i: nat)
    requires IsTiling(own) && i < |own| && own[i].idx == i
    requires Buddy(i, own[i].ord) < |own|
    ensures Buddy(i, own[i].ord) >= 0
    ensures own[Buddy(i, own[i].ord)].idx == Buddy(i, own[i].ord)
    ensures own[Buddy(i, own[i].ord)].ord <= own[i].ord
  {
    hide Aligned;
    var k := own[i].ord;
    BuddyFacts(i, k);
    var j := Buddy(i, k);
    var t := own[j];
    var lo := if i < j then i else j;
    if t.ord > k {
      AlignedWeaken(t.idx, k + 1, t.ord);
      Pow2Monotone(k + 1, t.ord);
      Nested(lo, k + 1, t.idx, t.ord);
      assert false;
    }
    Nested(t.idx, t.ord, j, k);
  }

  // ------------------------------------------------------- canonical form

  /** Every unallocated aligned run lies inside a single free block. */
  lemma {:induction false} RunInsideFreeTile(own: seq<Tile>, i: nat, k: nat)
    requires Canon(own) && FreeRun(own, i, k)
    ensures own[i].free && k <= own[i].ord
    ensures own[i].idx <= i && i + Pow2(k) <= own[i].End()
    decreases k
  {
    hide Aligned, Coalesced;
    if own[i].ord >= k {
      TileSwallows(own, i, i, k);
    } else {
      HalfRuns(own, i, k - 1);
      RunInsideFreeTile(own, i, k - 1);
      RunInsideFreeTile(own, i + Pow2(k - 1), k - 1);
      NoTwoFreeHalves(own, i, k - 1);
    }
  }

  /** In canonical form the halves of an aligned run are not two free blocks
      that each fill, or reach beyond, their half. */
  lemma NoTwoFreeHalves(own: seq<Tile>, i: nat, k: nat)
    requires Canon(own) && k < MAX_ORDER && Aligned(i, k + 1) && i + 2 * Pow2(k) <= |own|
    requires own[i].free && own[i + Pow2(k)].free && own[i + Pow2(k)].ord >= k
    ensures own[i].ord != k
  {
    hide Aligned, Coalesced, IsTiling;
    if own[i].ord == k {
      HalvesAreTiles(own, i, k);
      NoFreeHalves(own, i, k);
    }
  }

  lemma HalfRuns(own: seq<Tile>, i: nat, k: nat)
    requires FreeRun(own, i, k + 1)
    ensures FreeRun(own, i, k) && FreeRun(own, i + Pow2(k), k)
  {
    hide Aligned;
    AlignedWeaken(i, k, k + 1);
    AlignedHalves(i, k);
  }

  lemma HalvesAreTiles(own: seq<Tile>, i: nat, k: nat)
    requires IsTiling(own) && Aligned(i, k + 1) && i + 2 * Pow2(k) <= |own|
    requires own[i].free && own[i].ord == k
    requires own[i + Pow2(k)].free && own[i + Pow2(k)].ord >= k
    ensures IsFree(own, i, k) && IsFree(own, i + Pow2(k), k)
  {
    hide Aligned, IsTiling;
    AlignedWeaken(i, k, k + 1);
    AlignedHalves(i, k);
    TileAt(own, i);
    Nested(own[i].idx, k, i, k);
    UpperHalfOrder(own, i, k);
    TileAt(own, i + Pow2(k));
    Nested(own[i + Pow2(k)].idx, k, i + Pow2(k), k);
  }

  lemma TileAt(own: seq<Tile>, p: nat)
    requires IsTiling(own) && p < |own|
    ensures own[p].Fits(|own|) && own[p].Covers(p)
    ensures forall q :: 0 <= q < |own| && own[p].Covers(q) ==> own[q] == own[p]
  {
    hide Aligned, Pow2;
  }

  /** A larger block over the upper half would also cover the lower half. */
  lemma UpperHalfOrder(own: seq<Tile>, i: nat, k: nat)
    requires IsTiling(own) && Aligned(i, k + 1) && i + 2 * Pow2(k) <= |own| && own[i].ord == k
    ensures own[i + Pow2(k)].ord <= k
  {
    hide Aligned, IsTiling;
    var u := own[i + Pow2(k)];
    TileAt(own, i + Pow2(k));
    if u.ord > k {
      Nested(i, k + 1, u.idx, u.ord);
    }
  }

  /** The two halves of an aligned run are never both free blocks. */
  lemma NoFreeHalves(own: seq<Tile>, i: nat, k: nat)
    requires Coalesced(own) && k < MAX_ORDER && Aligned(i, k + 1)
    ensures !(IsFree(own, i, k) && IsFree(own, i + Pow2(k), k))
  {
    if IsFree(own, i, k) {
      assert Lonely(own, i);
    }
  }

  /** `p` belongs to no allocated block. */
  ghost predicate Unallocated(live: set<Tile>, p: int) {
    forall t :: t in live ==> !t.Covers(p)
  }

  /** An aligned run of `2^k` pages, in a region of `n` pages, that meets no
      allocated block. */
  ghost predicate OpenRun(n: nat, live: set<Tile>, i: nat, k: nat) {
    && Tile(i, k, true).Fits(n)
    && forall p :: i <= p < i + Pow2(k) ==> Unallocated(live, p)
  }

  /** An open run that no other open run contains. */
  ghost predicate MaximalRun(n: nat, live: set<Tile>, i: nat, k: nat) {
    && OpenRun(n, live, i, k)
    && forall j: nat, m: nat :: OpenRun(n, live, j, m) && j <= i && i + Pow2(k) <= j + Pow2(m) ==> j == i && m == k
  }

  lemma UnallocatedMeansFree(own: seq<Tile>, p: nat)
    requires IsTiling(own) && p < |own|
    ensures Unallocated(Live(own), p) <==> own[p].free
  {
  }

  lemma OpenRunIsFreeRun(own: seq<Tile>, i: nat, k: nat)
    requires IsTiling(own)
    ensures OpenRun(|own|, Live(own), i, k) <==> FreeRun(own, i, k)
  {
    forall p: nat | p < |own|
      ensures Unallocated(Live(own), p) <==> own[p].free
    {
      UnallocatedMeansFree(own, p);
    }
  }

  /** A free block's own pages form an unallocated run. */
  lemma FreeTileIsRun(own: seq<Tile>, i: nat, k: nat)
    requires IsTiling(own) && IsFree(own, i, k)
    ensures FreeRun(own, i, k)
  {
  }

  lemma EqualRuns(i: nat, k: nat, j: nat, m: nat)
    requires j <= i && i + Pow2(k) <= j + Pow2(m)
    requires i <= j && j + Pow2(m) <= i + Pow2(k)
    ensures i == j && k == m
  {
  }

  /** Canonical form: in every reachable state the free blocks are exactly the
      maximal aligned runs of unallocated pages. */
  lemma CanonicalForm(own: seq<Tile>, i: nat, k: nat)
    requires Canon(own)
    ensures IsFree(own, i, k) <==> MaximalRun(|own|, Live(own), i, k)
  {
    hide Aligned;
    var n, live := |own|, Live(own);
    OpenRunIsFreeRun(own, i, k);
    if IsFree(own, i, k) {
      FreeTileIsRun(own, i, k);
      forall j: nat, m: nat | OpenRun(n, live, j, m) && j <= i && i + Pow2(k) <= j + Pow2(m)
        ensures j == i && m == k
      {
        OpenRunIsFreeRun(own, j, m);
        RunInsideFreeTile(own, j, m);
        assert own[j].Covers(i);
        EqualRuns(i, k, j, m);
      }
    }
    if MaximalRun(n, live, i, k) {
      RunInsideFreeTile(own, i, k);
      var t := own[i];
      assert t.Covers(t.idx);
      FreeTileIsRun(own, t.idx, t.ord);
      OpenRunIsFreeRun(own, t.idx, t.ord);
    }
  }

  /** The free blocks depend only on what is live, not on history: two
      reachable states of a region with the same live blocks are equal. */
  lemma SameLiveSameTiling(a: seq<Tile>, b: seq<Tile>)
    requires Canon(a) && Canon(b) && |a| == |b| && Live(a) == Live(b)
    ensures a == b
  {
    forall p: nat | p < |a|
      ensures a[p] == b[p]
    {
      UnallocatedMeansFree(a, p);
      UnallocatedMeansFree(b, p);
      if a[p].free {
        SameLiveCovers(a, b, p);
        SameLiveCovers(b, a, p);
        EqualRuns(a[p].idx, a[p].ord, b[p].idx, b[p].ord);
      } else {
        assert a[p] in Live(b);
        var q :| 0 <= q < |b| && b[q] == a[p];
        assert b[q].Covers(p);
      }
    }
  }

  lemma SameLiveCovers(a: seq<Tile>, b: seq<Tile>, p: nat)
    requires Canon(a) && Canon(b) && |a| == |b| && Live(a) == Live(b)
    requires p < |a| && b[p].free
    ensures a[p].idx <= b[p].idx && b[p].End() <= a[p].End()
  {
    var t := b[p];
    assert t.Covers(t.idx);
    FreeTileIsRun(b, t.idx, t.ord);
    OpenRunIsFreeRun(b, t.idx, t.ord);
    OpenRunIsFreeRun(a, t.idx, t.ord);
    RunInsideFreeTile(a, t.idx, t.ord);
    assert a[t.idx].Covers(p);
  }
}
