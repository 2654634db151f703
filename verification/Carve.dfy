/** The state of a region with nothing allocated: the tiling that the greedy
    carve of `pmm_add_region` produces. */
module Carve {
  import opened Bits
  import opened Tiling
  import opened TilingSteps

  /** First page of the aligned run of `2^k` pages that contains `p`. */
  function Base(p: nat, k: nat): nat {
    if k == 0 then p else 2 * Base(p / 2, k - 1)
  }

  lemma {:induction false} BaseContains(p: nat, k: nat)
    ensures Aligned(Base(p, k), k) && Base(p, k) <= p < Base(p, k) + Pow2(k)
  {
    if k > 0 {
      BaseContains(p / 2, k - 1);
      var b := Base(p / 2, k - 1);
      assert (2 * b) % 2 == 0 && (2 * b) / 2 == b;
    }
  }

  lemma BaseUnique(p: nat, b: nat, k: nat)
    requires Aligned(b, k) && b <= p < b + Pow2(k)
    ensures b == Base(p, k)
  {
  }

  /** The aligned run of order `k` around `p` lies inside the region. */
  predicate RunFits(n: nat, p: nat, k: nat) {
    Base(p, k) + Pow2(k) <= n
  }

  lemma RunsNest(p: nat, j: nat, k: nat)
    requires j <= k
    ensures Base(p, k) <= Base(p, j) && Base(p, j) + Pow2(j) <= Base(p, k) + Pow2(k)
  {
    BaseContains(p, j);
    BaseContains(p, k);
    Nested(Base(p, j), j, Base(p, k), k);
  }

  /** The largest order, from `k` up, whose run around `p` fits. */
  function Best(n: nat, p: nat, k: nat): (r: nat)
    requires k <= MAX_ORDER && RunFits(n, p, k)
    ensures k <= r <= MAX_ORDER && RunFits(n, p, r)
    ensures r < MAX_ORDER ==> !RunFits(n, p, r + 1)
    decreases MAX_ORDER - k
  {
    if k < MAX_ORDER && RunFits(n, p, k + 1) then Best(n, p, k + 1) else k
  }

  lemma BestIsMaximum(n: nat, p: nat, k: nat)
    requires p < n && k <= MAX_ORDER && RunFits(n, p, k)
    ensures k <= Best(n, p, 0)
  {
    var b := Best(n, p, 0);
    if b < k {
      RunsNest(p, b + 1, k);
    }
  }

  lemma FitsAlone(n: nat, p: nat)
    requires p < n
    ensures RunFits(n, p, 0)
  {
  }

  function InitialTile(n: nat, p: nat): Tile
    requires p < n
  {
    var k := Best(n, p, 0);
    Tile(Base(p, k), k, true)
  }

  function InitialTiling(n: nat): (own: seq<Tile>)
    ensures |own| == n
  {
    seq(n, p requires 0 <= p < n => InitialTile(n, p))
  }

  /** All pages of a run have the same largest fitting run. */
  lemma SameTile(n: nat, p: nat, q: nat)
    requires p < n && q < n && InitialTile(n, p).Covers(q)
    ensures InitialTile(n, q) == InitialTile(n, p)
  {
    hide Aligned, Base, Pow2;
    FitsAlone(n, p);
    FitsAlone(n, q);
    var k := Best(n, p, 0);
    BaseContains(p, k);
    BaseUnique(q, Base(p, k), k);
    BestIsMaximum(n, q, k);
    var m := Best(n, q, 0);
    if k < m {
      RunsNest(p, k, m);
      BaseContains(q, m);
      RunsNest(q, k, m);
      BaseUnique(p, Base(q, m), m);
      BestIsMaximum(n, p, m);
    }
  }

  /** The carve is a coalesced tiling with nothing allocated. */
  lemma InitialCanon(n: nat)
    ensures Canon(InitialTiling(n)) && Live(InitialTiling(n)) == {}
  {
    hide Aligned;
    var own := InitialTiling(n);
    forall p | 0 <= p < |own|
      ensures own[p].Fits(|own|) && own[p].Covers(p)
    {
      BaseContains(p, Best(n, p, 0));
    }
    forall p, q | 0 <= p < |own| && 0 <= q < |own| && own[p].Covers(q)
      ensures own[q] == own[p]
    {
      SameTile(n, p, q);
    }
    forall p | 0 <= p < |own|
      ensures Lonely(own, p)
    {
      InitialLonely(n, p);
    }
  }

  /** A fitting run around `p` bounds the order of its block from below. */
  lemma LargerRunFits(n: nat, p: nat, k: nat, lo: nat)
    requires p < n && k < MAX_ORDER && Aligned(lo, k + 1) && lo <= p < lo + 2 * Pow2(k) && lo + 2 * Pow2(k) <= n
    ensures Best(n, p, 0) > k
  {
    hide Aligned;
    BaseUnique(p, lo, k + 1);
    BestIsMaximum(n, p, k + 1);
  }

  lemma InitialLonely(n: nat, p: nat)
    requires p < n && IsTiling(InitialTiling(n))
    ensures Lonely(InitialTiling(n), p)
  {
    hide Aligned, Exclusive;
    var own := InitialTiling(n);
    var t := own[p];
    if t.ord < MAX_ORDER && IsFree(own, Buddy(t.idx, t.ord), t.ord) {
      var k, j := t.ord, Buddy(t.idx, t.ord);
      BuddyFacts(t.idx, k);
      assert own[j].Fits(n) && t.Fits(n) && t.Covers(p);
      LargerRunFits(n, p, k, if t.idx < j then t.idx else j);
    }
  }

  /** Freeing everything restores the initial carve: the only reachable state
      with no live block is the one the region started in. */
  lemma NothingLiveIsInitial(own: seq<Tile>)
    requires Canon(own) && Live(own) == {}
    ensures own == InitialTiling(|own|)
  {
    InitialCanon(|own|);
    SameLiveSameTiling(own, InitialTiling(|own|));
  }

  /** A block of order `k` may start at `offset`. */
  predicate Legal(n: nat, offset: nat, k: nat) {
    k <= MAX_ORDER && Aligned(offset, k) && offset + Pow2(k) <= n
  }

  /** In a canonical tiling with nothing allocated, the block at a boundary
      has the largest order that may start there, and the next block starts
      where it ends. */
  lemma GreedyBlock(own: seq<Tile>, offset: nat, k: nat)
    requires Canon(own) && AllFree(own) && offset < |own| && own[offset].idx == offset
    requires Legal(|own|, offset, k) && !Legal(|own|, offset, k + 1)
    ensures own[offset] == Tile(offset, k, true)
    ensures var e := offset + Pow2(k); e <= |own| && (e < |own| ==> own[e].idx == e)
  {
    hide Aligned;
    assert FreeRun(own, offset, k);
    RunInsideFreeTile(own, offset, k);
    var t := own[offset];
    if k < t.ord {
      AlignedWeaken(offset, k + 1, t.ord);
      Pow2Monotone(k + 1, t.ord);
    }
    if offset + Pow2(k) < |own| {
      NextBoundary(own, offset);
    }
  }

  ghost predicate AllFree(own: seq<Tile>) {
    forall p :: 0 <= p < |own| ==> own[p].free
  }

  lemma NothingLiveAllFree(own: seq<Tile>)
    requires Live(own) == {}
    ensures AllFree(own)
  {
    forall p | 0 <= p < |own|
      ensures own[p].free
    {
      var t := own[p];
      assert t in Live(own) || t.free;
    }
  }

  lemma NextBoundary(own: seq<Tile>, p: nat)
    requires IsTiling(own) && p < |own| && own[p].End() < |own|
    ensures own[own[p].End()].idx == own[p].End()
  {
    var e := own[p].End();
    var t := own[e];
    assert own[p].Covers(e - 1);
    assert own[e - 1] == own[p];
    if t.idx < e {
      assert t.Covers(e - 1);
    }
  }
}
