/** The four elementary changes that allocation and freeing make to a tiling:
    take a free block, split an allocated one, merge an allocated block with
    its free buddy, give a block back.  Each keeps the tiling canonical. */
module TilingSteps {
  import opened Bits
  import opened Tiling

  /** Make `t` the owner of all its pages. */
  function Paint(own: seq<Tile>, t: Tile): (r: seq<Tile>)
    ensures |r| == |own|
    ensures forall q :: 0 <= q < |own| ==> r[q] == if t.Covers(q) then t else own[q]
  {
    seq(|own|, q requires 0 <= q < |own| => if t.Covers(q) then t else own[q])
  }

  function SetFree(own: seq<Tile>, i: nat, free: bool): seq<Tile>
    requires i < |own|
  {
    Paint(own, own[i].(free := free))
  }

  /** Replace the allocated block at `i` by its halves, the upper one free. */
  function Split(own: seq<Tile>, i: nat): seq<Tile>
    requires i < |own| && own[i].ord > 0
  {
    var k := own[i].ord - 1;
    Paint(Paint(own, Tile(i, k, false)), Tile(i + Pow2(k), k, true))
  }

  /** Replace the two blocks of order `k` at `lo` and `lo + 2^k` by one
      allocated block. */
  function Merge(own: seq<Tile>, lo: nat, k: nat): seq<Tile> {
    Paint(own, Tile(lo, k + 1, false))
  }

  // ------------------------------------------------------------ tilings

  /** Painting a run whose boundary no block straddles leaves a tiling. */
  lemma PaintTiling(own: seq<Tile>, t: Tile)
    requires IsTiling(own) && t.Fits(|own|)
    requires forall q :: 0 <= q < |own| && t.Covers(q) ==> t.idx <= own[q].idx && own[q].End() <= t.End()
    ensures IsTiling(Paint(own, t))
  {
    hide Aligned;
    var r := Paint(own, t);
    forall p, q | 0 <= p < |r| && 0 <= q < |r| && r[p].Covers(q)
      ensures r[q] == r[p]
    {
      if !t.Covers(p) {
        assert own[p].Covers(q);
        assert own[q] == own[p];
      }
    }
  }

  lemma SetFreeTiling(own: seq<Tile>, i: nat, free: bool)
    requires IsTiling(own) && i < |own| && own[i].idx == i
    ensures IsTiling(SetFree(own, i, free))
  {
    hide Aligned;
    forall q | 0 <= q < |own| && own[i].Covers(q)
      ensures own[q] == own[i]
    {
    }
    PaintTiling(own, own[i].(free := free));
  }

  /** Who owns page `q` after a split. */
  lemma SplitAt(own: seq<Tile>, i: nat, q: nat)
    requires Exclusive(own) && i < |own| && own[i].idx == i && own[i].ord > 0 && q < |own|
    ensures var k := own[i].ord - 1;
            Split(own, i)[q] ==
              if !own[i].Covers(q) then own[q]
              else if q < i + Pow2(k) then Tile(i, k, false) else Tile(i + Pow2(k), k, true)
  {
  }

  lemma SplitHalvesFit(own: seq<Tile>, i: nat)
    requires IsTiling(own) && i < |own| && own[i].idx == i && own[i].ord > 0
    ensures var k := own[i].ord - 1;
            Tile(i, k, false).Fits(|own|) && Tile(i + Pow2(k), k, true).Fits(|own|)
  {
    hide Aligned;
    var k := own[i].ord - 1;
    AlignedWeaken(i, k, k + 1);
    AlignedHalves(i, k);
  }

  lemma SplitTiling(own: seq<Tile>, i: nat)
    requires IsTiling(own) && i < |own| && own[i].idx == i && own[i].ord > 0
    ensures IsTiling(Split(own, i))
    ensures i + Pow2(own[i].ord - 1) < |own|
  {
    hide Aligned;
    var k := own[i].ord - 1;
    var r := Split(own, i);
    SplitHalvesFit(own, i);
    forall p | 0 <= p < |r|
      ensures r[p].Fits(|r|) && r[p].Covers(p)
    {
      SplitAt(own, i, p);
    }
    forall p, q | 0 <= p < |r| && 0 <= q < |r| && r[p].Covers(q)
      ensures r[q] == r[p]
    {
      SplitAt(own, i, p);
      SplitAt(own, i, q);
      if own[i].Covers(p) {
        assert own[i].Covers(q);
      } else {
        assert own[q] == own[p];
      }
    }
  }

  lemma MergeTiling(own: seq<Tile>, lo: nat, k: nat)
    requires IsTiling(own) && k < MAX_ORDER && Aligned(lo, k + 1)
    requires lo + Pow2(k) < |own|
    requires own[lo].idx == lo && own[lo].ord == k
    requires own[lo + Pow2(k)].idx == lo + Pow2(k) && own[lo + Pow2(k)].ord == k
    ensures IsTiling(Merge(own, lo, k))
  {
    hide Aligned;
    var t := Tile(lo, k + 1, false);
    forall q | 0 <= q < |own| && t.Covers(q)
      ensures own[q] == own[lo] || own[q] == own[lo + Pow2(k)]
    {
      assert own[lo].Covers(q) || own[lo + Pow2(k)].Covers(q);
    }
    PaintTiling(own, t);
  }

  // -------------------------------------------------- which blocks are free

  lemma TakeFree(own: seq<Tile>, i: nat)
    requires Exclusive(own) && i < |own| && own[i].idx == i && own[i].free
    ensures forall j, m :: IsFree(SetFree(own, i, false), j, m) <==> IsFree(own, j, m) && j != i
  {
  }

  lemma GiveFree(own: seq<Tile>, i: nat)
    requires Exclusive(own) && i < |own| && own[i].idx == i && !own[i].free
    ensures forall j, m :: IsFree(SetFree(own, i, true), j, m) <==> IsFree(own, j, m) || (j == i && m == own[i].ord)
  {
  }

  lemma SplitFree(own: seq<Tile>, i: nat)
    requires Exclusive(own) && i < |own| && own[i].End() <= |own| && own[i].idx == i && own[i].ord > 0 && !own[i].free
    ensures var k := own[i].ord - 1;
            forall j, m :: IsFree(Split(own, i), j, m) <==> IsFree(own, j, m) || (j == i + Pow2(k) && m == k)
  {
    var k := own[i].ord - 1;
    forall j, m
      ensures IsFree(Split(own, i), j, m) <==> IsFree(own, j, m) || (j == i + Pow2(k) && m == k)
    {
      if 0 <= j < |own| && own[i].Covers(j) {
        assert own[j] == own[i];
      }
    }
  }

  lemma MergeFree(own: seq<Tile>, lo: nat, k: nat)
    requires Exclusive(own) && lo + Pow2(k) < |own|
    requires own[lo].idx == lo && own[lo].ord == k
    requires own[lo + Pow2(k)].idx == lo + Pow2(k) && own[lo + Pow2(k)].ord == k
    ensures forall j, m :: IsFree(Merge(own, lo, k), j, m) <==> IsFree(own, j, m) && j != lo && j != lo + Pow2(k)
  {
    forall j, m
      ensures IsFree(Merge(own, lo, k), j, m) <==> IsFree(own, j, m) && j != lo && j != lo + Pow2(k)
    {
      if 0 <= j < |own| {
        MergeAt(own, lo, k, j);
      }
    }
  }

  /** Only pages of the two halves change hands in a merge. */
  lemma MergeAt(own: seq<Tile>, lo: nat, k: nat, j: nat)
    requires Exclusive(own) && lo + Pow2(k) < |own| && j < |own|
    requires own[lo].idx == lo && own[lo].ord == k
    requires own[lo + Pow2(k)].idx == lo + Pow2(k) && own[lo + Pow2(k)].ord == k
    ensures var t := Tile(lo, k + 1, false);
            if t.Covers(j) then own[j] == own[lo] || own[j] == own[lo + Pow2(k)] else Merge(own, lo, k)[j] == own[j]
  {
    var hi := lo + Pow2(k);
    assert Pow2(k + 1) == 2 * Pow2(k);
    if own[lo].Covers(j) {
      assert own[j] == own[lo];
    } else if own[hi].Covers(j) {
      assert own[j] == own[hi];
    }
  }

  // --------------------------------------------------------- coalescedness

  /** Having fewer free blocks cannot break coalescedness. */
  lemma FewerFreeCoalesced(a: seq<Tile>, b: seq<Tile>)
    requires IsTiling(a) && IsTiling(b) && |a| == |b| && Coalesced(a)
    requires forall j, m :: IsFree(b, j, m) ==> IsFree(a, j, m)
    ensures Coalesced(b)
  {
    forall p | 0 <= p < |b|
      ensures Lonely(b, p)
    {
      var t := b[p];
      if t.free {
        assert t.Covers(t.idx);
        assert IsFree(b, t.idx, t.ord);
        assert Lonely(a, t.idx);
      }
    }
  }

  /** Adding one free block whose buddy is not a free block of its order keeps
      a tiling coalesced. */
  lemma OneMoreFreeCoalesced(a: seq<Tile>, b: seq<Tile>, i: nat, k: nat)
    requires IsTiling(a) && IsTiling(b) && |a| == |b| && Coalesced(a)
    requires forall j, m :: IsFree(b, j, m) ==> IsFree(a, j, m) || (j == i && m == k)
    requires Aligned(i, k) && (k < MAX_ORDER ==> !IsFree(b, Buddy(i, k), k))
    ensures Coalesced(b)
  {
    hide Aligned;
    BuddyFacts(i, k);
    forall p | 0 <= p < |b|
      ensures Lonely(b, p)
    {
      var t := b[p];
      if t.free && t.ord < MAX_ORDER {
        assert t.Covers(t.idx);
        assert IsFree(b, t.idx, t.ord);
        BuddyFacts(t.idx, t.ord);
        if t.idx != i || t.ord != k {
          assert Lonely(a, t.idx);
        }
      }
    }
  }

  lemma TakeCanon(own: seq<Tile>, i: nat)
    requires Canon(own) && i < |own| && own[i].idx == i && own[i].free
    ensures Canon(SetFree(own, i, false))
  {
    SetFreeTiling(own, i, false);
    TakeFree(own, i);
    FewerFreeCoalesced(own, SetFree(own, i, false));
  }

  lemma GiveCanon(own: seq<Tile>, i: nat)
    requires Canon(own) && i < |own| && own[i].idx == i && !own[i].free
    requires own[i].ord < MAX_ORDER ==> !IsFree(own, Buddy(i, own[i].ord), own[i].ord)
    ensures Canon(SetFree(own, i, true))
  {
    hide Aligned;
    var k := own[i].ord;
    BuddyFacts(i, k);
    SetFreeTiling(own, i, true);
    GiveFree(own, i);
    OneMoreFreeCoalesced(own, SetFree(own, i, true), i, k);
  }

  lemma SplitCanon(own: seq<Tile>, i: nat)
    requires Canon(own) && i < |own| && own[i].idx == i && own[i].ord > 0 && !own[i].free
    ensures Canon(Split(own, i))
  {
    hide Aligned;
    var k := own[i].ord - 1;
    SplitTiling(own, i);
    SplitFree(own, i);
    AlignedWeaken(i, k, k + 1);
    AlignedHalves(i, k);
    var r := Split(own, i);
    assert Buddy(i + Pow2(k), k) == i;
    assert r[i] == Tile(i, k, false);
    OneMoreFreeCoalesced(own, r, i + Pow2(k), k);
  }

  lemma MergeCanon(own: seq<Tile>, lo: nat, k: nat)
    requires Canon(own) && k < MAX_ORDER && Aligned(lo, k + 1)
    requires lo + Pow2(k) < |own|
    requires own[lo].idx == lo && own[lo].ord == k
    requires own[lo + Pow2(k)].idx == lo + Pow2(k) && own[lo + Pow2(k)].ord == k
    ensures Canon(Merge(own, lo, k))
  {
    MergeTiling(own, lo, k);
    MergeFree(own, lo, k);
    FewerFreeCoalesced(own, Merge(own, lo, k));
  }

  // ------------------------------------------------------- allocated blocks

  /** A block is in a tiling exactly when it owns its first page. */
  lemma LiveMembership(own: seq<Tile>, t: Tile)
    requires IsTiling(own)
    ensures t in Live(own) <==> t.idx < |own| && own[t.idx] == t && !t.free
  {
  }

  lemma TakeLive(own: seq<Tile>, i: nat)
    requires IsTiling(own) && i < |own| && own[i].idx == i && own[i].free
    ensures Live(SetFree(own, i, false)) == Live(own) + {own[i].(free := false)}
  {
    hide Aligned;
    var r := SetFree(own, i, false);
    SetFreeTiling(own, i, false);
    forall t
      ensures t in Live(r) <==> t in Live(own) + {own[i].(free := false)}
    {
      LiveMembership(own, t);
      LiveMembership(r, t);
      if t.idx < |own| && own[i].Covers(t.idx) {
        assert own[t.idx] == own[i];
      }
    }
  }

  lemma GiveLive(own: seq<Tile>, i: nat)
    requires IsTiling(own) && i < |own| && own[i].idx == i && !own[i].free
    ensures Live(SetFree(own, i, true)) == Live(own) - {own[i]}
  {
  }

  lemma SplitLive(own: seq<Tile>, i: nat)
    requires IsTiling(own) && i < |own| && own[i].idx == i && own[i].ord > 0 && !own[i].free
    ensures Live(Split(own, i)) == Live(own) - {own[i]} + {Tile(i, own[i].ord - 1, false)}
  {
    hide Aligned;
    var r := Split(own, i);
    SplitTiling(own, i);
    forall t
      ensures t in Live(r) <==> t in Live(own) - {own[i]} + {Tile(i, own[i].ord - 1, false)}
    {
      LiveMembership(own, t);
      LiveMembership(r, t);
      if t.idx < |own| && own[i].Covers(t.idx) {
        assert own[t.idx] == own[i];
      }
    }
  }

  /** Merging an allocated block with a free buddy grows the allocated block. */
  lemma MergeLive(own: seq<Tile>, lo: nat, k: nat, b: nat)
    requires IsTiling(own) && k < MAX_ORDER && Aligned(lo, k + 1)
    requires lo + Pow2(k) < |own|
    requires own[lo].idx == lo && own[lo].ord == k
    requires own[lo + Pow2(k)].idx == lo + Pow2(k) && own[lo + Pow2(k)].ord == k
    requires b == lo || b == lo + Pow2(k)
    requires own[lo].free == (b != lo) && own[lo + Pow2(k)].free == (b == lo)
    ensures Live(Merge(own, lo, k)) == Live(own) - {own[b]} + {Tile(lo, k + 1, false)}
  {
    hide Aligned;
    var r := Merge(own, lo, k);
    MergeTiling(own, lo, k);
    forall t
      ensures t in Live(r) <==> t in Live(own) - {own[b]} + {Tile(lo, k + 1, false)}
    {
      LiveMembership(own, t);
      LiveMembership(r, t);
      if t.idx < |own| {
        MergeAt(own, lo, k, t.idx);
      }
    }
  }
}
