/** The representation invariant of a region across the four elementary steps
    of allocation and freeing: which header fields change, which list gains or
    loses a block, and what the tiling becomes. */
module RegionSteps {
  import opened Bits
  import opened Tiling
  import opened TilingSteps
  import opened FreeLists

  /** `after` is `before` without header `i`. */
  ghost predicate Dropped(before: seq<seq<nat>>, after: seq<seq<nat>>, i: int) {
    && |before| == |after| == NUM_ORDERS
    && forall m, j {:trigger j in after[m]} :: 0 <= m < NUM_ORDERS ==> (j in after[m] <==> j in before[m] && j != i)
  }

  /** `after` is `before` with header `i` added to list `k`. */
  ghost predicate Gained(before: seq<seq<nat>>, after: seq<seq<nat>>, i: int, k: nat) {
    && |before| == |after| == NUM_ORDERS
    && forall m, j {:trigger j in after[m]} ::
         0 <= m < NUM_ORDERS ==> (j in after[m] <==> j in before[m] || (j == i && m == k))
  }

  /** Headers `a` and `b` differ at most in `next`. */
  predicate SameLabel(a: Header, b: Header) {
    a.address == b.address && a.order == b.order && a.isFree == b.isFree
  }

  ghost predicate SameLabelsBut(a: seq<Header>, b: seq<Header>, changed: set<int>) {
    && |a| == |b|
    && (forall j :: 0 <= j < |a| ==> a[j].address == b[j].address)
    && (forall j :: 0 <= j < |a| && j !in changed ==> SameLabel(a[j], b[j]))
  }

  lemma TakeInv(start: nat, pool: seq<Header>, heads: seq<int>, own: seq<Tile>, lists: seq<seq<nat>>, i: nat, k: nat,
                pool': seq<Header>, heads': seq<int>, lists': seq<seq<nat>>)
    requires RegionInv(start, pool, heads, own, lists, NULL) && IsFree(own, i, k)
    requires ListsOk(pool', heads', lists') && Dropped(lists, lists', i)
    requires SameLabelsBut(pool, pool', {i}) && pool'[i].order == pool[i].order && !pool'[i].isFree
    ensures RegionInv(start, pool', heads', SetFree(own, i, false), lists', NULL)
  {
    var r := SetFree(own, i, false);
    TakeCanon(own, i);
    TakeFree(own, i);
    assert HeadsTrue(r, pool', NULL) by {
      assert forall q :: 0 <= q < |own| && own[i].Covers(q) ==> own[q] == own[i];
    }
  }

  lemma SplitInv(start: nat, pool: seq<Header>, heads: seq<int>, own: seq<Tile>, lists: seq<seq<nat>>, i: nat,
                 pool': seq<Header>, heads': seq<int>, lists': seq<seq<nat>>)
    requires RegionInv(start, pool, heads, own, lists, NULL)
    requires i < |own| && own[i].idx == i && own[i].ord > 0 && !own[i].free
    requires ListsOk(pool', heads', lists')
    requires var k := own[i].ord - 1; var hi := i + Pow2(k);
             && hi < |own| && Gained(lists, lists', hi, k)
             && SameLabelsBut(pool, pool', {i, hi})
             && pool'[i].order == k && pool'[i].isFree == pool[i].isFree
             && pool'[hi].order == k && pool'[hi].isFree
    ensures RegionInv(start, pool', heads', Split(own, i), lists', NULL)
  {
    hide Canon, ListsOk, Aligned, HeadsTrue, ListsTrack, IsTiling, Split, Pow2;
    SplitCanonical(own, i);
    SplitHeads(own, pool, pool', i);
    SplitLists(own, lists, lists', i);
  }

  lemma SplitCanonical(own: seq<Tile>, i: nat)
    requires Canon(own) && i < |own| && own[i].idx == i && own[i].ord > 0 && !own[i].free
    ensures IsTiling(own) && Exclusive(own) && own[i].End() <= |own| && own[i].ord <= MAX_ORDER
    ensures Canon(Split(own, i)) && |Split(own, i)| == |own|
  {
    SplitCanon(own, i);
  }

  lemma SplitHeads(own: seq<Tile>, pool: seq<Header>, pool': seq<Header>, i: nat)
    requires Exclusive(own) && |own| == |pool| && HeadsTrue(own, pool, NULL)
    requires i < |own| && own[i].idx == i && own[i].ord > 0 && !own[i].free && own[i].End() <= |own|
    requires var k := own[i].ord - 1; var hi := i + Pow2(k);
             && hi < |own| && SameLabelsBut(pool, pool', {i, hi})
             && pool'[i].order == k && pool'[i].isFree == pool[i].isFree
             && pool'[hi].order == k && pool'[hi].isFree
    ensures |Split(own, i)| == |own| && HeadsTrue(Split(own, i), pool', NULL)
  {
    var r := Split(own, i);
    forall q | 0 <= q < |r| && r[q].idx == q
      ensures pool'[q].order == r[q].ord && pool'[q].isFree == r[q].free
    {
      SplitAt(own, i, q);
    }
  }

  lemma SplitLists(own: seq<Tile>, lists: seq<seq<nat>>, lists': seq<seq<nat>>, i: nat)
    requires Exclusive(own) && |lists| == NUM_ORDERS && ListsTrack(own, lists)
    requires i < |own| && own[i].idx == i && own[i].ord > 0 && !own[i].free && own[i].End() <= |own|
    requires Gained(lists, lists', i + Pow2(own[i].ord - 1), own[i].ord - 1)
    ensures ListsTrack(Split(own, i), lists')
  {
    hide Split;
    SplitFree(own, i);
  }

  lemma MergeInv(start: nat, pool: seq<Header>, heads: seq<int>, own: seq<Tile>, lists: seq<seq<nat>>, lo: nat, k: nat,
                 b: nat, f: nat, pool': seq<Header>, heads': seq<int>, lists': seq<seq<nat>>)
    requires RegionInv(start, pool, heads, own, lists, b)
    requires k < MAX_ORDER && Aligned(lo, k + 1) && lo + Pow2(k) < |own|
    requires (b == lo && f == lo + Pow2(k)) || (f == lo && b == lo + Pow2(k))
    requires own[b] == Tile(b, k, false) && own[f] == Tile(f, k, true)
    requires ListsOk(pool', heads', lists') && Dropped(lists, lists', f)
    requires SameLabelsBut(pool, pool', {b, f}) && pool'[lo].order == k + 1
    ensures RegionInv(start, pool', heads', Merge(own, lo, k), lists', lo)
  {
    hide Canon, ListsOk, Aligned, HeadsTrue, ListsTrack, IsTiling;
    CanonExclusive(own);
    MergeCanonical(own, lo, k);
    MergeHeads(own, pool, pool', lo, k, b, f);
    MergeLists(own, lists, lists', lo, k, f, b);
  }

  lemma CanonExclusive(own: seq<Tile>)
    requires Canon(own)
    ensures IsTiling(own) && Exclusive(own)
  {
  }

  lemma MergeCanonical(own: seq<Tile>, lo: nat, k: nat)
    requires Canon(own) && k < MAX_ORDER && Aligned(lo, k + 1) && lo + Pow2(k) < |own|
    requires own[lo].idx == lo && own[lo].ord == k
    requires own[lo + Pow2(k)].idx == lo + Pow2(k) && own[lo + Pow2(k)].ord == k
    ensures Canon(Merge(own, lo, k))
  {
    MergeCanon(own, lo, k);
  }

  lemma MergeHeads(own: seq<Tile>, pool: seq<Header>, pool': seq<Header>, lo: nat, k: nat, b: nat, f: nat)
    requires lo + Pow2(k) < |own| == |pool| && HeadsTrue(own, pool, b)
    requires (b == lo && f == lo + Pow2(k)) || (f == lo && b == lo + Pow2(k))
    requires SameLabelsBut(pool, pool', {b, f}) && pool'[lo].order == k + 1
    ensures HeadsTrue(Merge(own, lo, k), pool', lo)
  {
    var r, t := Merge(own, lo, k), Tile(lo, k + 1, false);
    assert t.Covers(b) && t.Covers(f);
    forall q | 0 <= q < |r| && r[q].idx == q
      ensures pool'[q].order == r[q].ord && (q != lo ==> pool'[q].isFree == r[q].free)
    {
      if !t.Covers(q) {
        assert SameLabel(pool[q], pool'[q]);
      }
    }
  }

  lemma MergeLists(own: seq<Tile>, lists: seq<seq<nat>>, lists': seq<seq<nat>>, lo: nat, k: nat, f: nat, b: nat)
    requires Exclusive(own) && lo + Pow2(k) < |own| && |lists| == NUM_ORDERS && ListsTrack(own, lists)
    requires (b == lo && f == lo + Pow2(k)) || (f == lo && b == lo + Pow2(k))
    requires own[b] == Tile(b, k, false) && own[f] == Tile(f, k, true)
    requires Dropped(lists, lists', f)
    ensures ListsTrack(Merge(own, lo, k), lists')
  {
    MergeFree(own, lo, k);
    assert forall j, m :: IsFree(Merge(own, lo, k), j, m) <==> IsFree(own, j, m) && j != f;
  }

  lemma GiveInv(start: nat, pool: seq<Header>, heads: seq<int>, own: seq<Tile>, lists: seq<seq<nat>>, b: nat,
                pool': seq<Header>, heads': seq<int>, lists': seq<seq<nat>>)
    requires RegionInv(start, pool, heads, own, lists, b)
    requires b < |own| && own[b].idx == b && !own[b].free
    requires own[b].ord < MAX_ORDER ==> !IsFree(own, Buddy(b, own[b].ord), own[b].ord)
    requires ListsOk(pool', heads', lists') && Gained(lists, lists', b, own[b].ord)
    requires SameLabelsBut(pool, pool', {b}) && pool'[b].order == pool[b].order && pool'[b].isFree
    ensures RegionInv(start, pool', heads', SetFree(own, b, true), lists', NULL)
  {
    var r := SetFree(own, b, true);
    GiveCanon(own, b);
    GiveFree(own, b);
    assert HeadsTrue(r, pool', NULL) by {
      assert forall q :: 0 <= q < |own| && own[b].Covers(q) ==> own[q] == own[b];
    }
  }
}
