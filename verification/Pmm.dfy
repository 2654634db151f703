/** The physical memory manager: the list of regions and the allocation
    interface of `pmm.h`. */
module Pmms {
  import opened Bits
  import opened Tiling
  import opened TilingSteps
  import opened FreeLists
  import opened Handouts
  import opened Regions
  import opened Carve
  import opened Alignment
  import opened Extents
  import Runs

  const MAX_BLOCK: nat := 0x40_0000

  /** Blocks of order `k` hold `size` bytes and smaller blocks do not. */
  predicate IsLeastOrder(size: nat, k: nat) {
    k <= MAX_ORDER && size <= BlockSize(k) && (k > 0 ==> BlockSize(k - 1) < size)
  }

  lemma OnePageOrder(k: nat)
    requires IsLeastOrder(PAGE_SIZE, k)
    ensures k == 0
  {
  }

  /** The least order whose block holds `size` bytes, for the sizes that have
      one: those up to 4 MiB. */
  method SizeToOrder(size: nat) returns (found: bool, order: nat)
    ensures found <==> size <= MAX_BLOCK
    ensures found ==> IsLeastOrder(size, order)
    ensures found && size > PAGE_SIZE ==> BlockSize(order) < 2 * size
  {
    var blockSize := BlockSize(0);
    order := 0;
    assert Pow2(10) == 1024 by { assert Pow2(5) == 32; }
    while blockSize < size && order <= MAX_ORDER
      invariant order <= NUM_ORDERS && blockSize == BlockSize(order)
      invariant order > 0 ==> BlockSize(order - 1) < size
      decreases NUM_ORDERS - order
    {
      order := order + 1;
      blockSize := 2 * blockSize;
    }
    if order > MAX_ORDER {
      return false, 0;
    }
    Pow2Monotone(order, MAX_ORDER);
    return true, order;
  }

  /** No tiling has an unallocated aligned run of the order. */
  ghost predicate NoRunIn(ts: seq<seq<Tile>>, order: nat) {
    forall a, i :: 0 <= a < |ts| ==> !FreeRun(ts[a], i, order)
  }

  class Pmm {
    var regions: seq<Region>

    ghost function Footprint(): set<object>
      reads this
    {
      (set r | r in regions :: r as object) + (set r | r in regions :: r.pool as object) +
      (set r | r in regions :: r.freeLists as object)
    }

    /** Regions are valid, share no storage and overlap nowhere. */
    ghost predicate Valid()
      reads this, Footprint()
    {
      && (forall r :: r in regions ==> r.Valid())
      && Separate()
    }

    ghost predicate Separate()
      reads this
    {
      forall a, b :: 0 <= a < b < |regions| ==>
        && regions[a] != regions[b] && regions[a].pool != regions[b].pool
        && regions[a].freeLists != regions[b].freeLists
        && (regions[a].end <= regions[b].start || regions[b].end <= regions[a].start)
    }

    /** The tiling of each region, in list order. */
    ghost function Tilings(): (ts: seq<seq<Tile>>)
      reads this, regions
      ensures |ts| == |regions| && forall a :: 0 <= a < |ts| ==> ts[a] == regions[a].own
    {
      seq(|regions|, a requires 0 <= a < |regions| reads this, regions => regions[a].own)
    }

    ghost predicate NoRun(order: nat)
      reads this, regions
    {
      NoRunIn(Tilings(), order)
    }

    ghost function Starts(): (ss: seq<nat>)
      reads this
      ensures |ss| == |regions| && forall a :: 0 <= a < |ss| ==> ss[a] == regions[a].start
    {
      seq(|regions|, a requires 0 <= a < |regions| reads this => regions[a].start)
    }

    /** The live blocks of all regions. */
    ghost function Extents(): set<Extent>
      reads this, regions
    {
      LiveExtents(Starts(), Tilings())
    }

    /** The pages, by address, that no live block has. */
    ghost function FreePages(): set<nat>
      reads this, regions
    {
      UnusedPages(Starts(), Tilings())
    }

    ghost function Lists(): (ll: seq<seq<seq<nat>>>)
      reads this, regions
      ensures |ll| == |regions| && forall a :: 0 <= a < |ll| ==> ll[a] == regions[a].lists
    {
      seq(|regions|, a requires 0 <= a < |regions| reads this, regions => regions[a].lists)
    }

    /** The unused pages, in the order in which single pages are handed out. */
    ghost function NextPages(): seq<nat>
      reads this, regions
    {
      Upcoming(Starts(), Lists())
    }

    /** They are exactly the unused pages, each once. */
    lemma NextPagesExact()
      requires Valid()
      ensures Distinct(NextPages()) && forall x :: x in NextPages() <==> x in FreePages()
    {
      hide RegionInv, Canon, Tracked, Apart, Upcoming, UnusedPages, Distinct;
      ValidApart();
      forall a | 0 <= a < |regions|
        ensures Tracked(Tilings()[a], Lists()[a])
      {
        ListsTracked(a);
      }
      UpcomingExact(Starts(), Tilings(), Lists());
    }

    lemma ListsTracked(a: nat)
      requires Valid() && a < |regions|
      ensures Tracked(regions[a].own, regions[a].lists)
    {
      hide Coalesced, Chain;
      assert regions[a].Valid();
    }

    lemma FreePageIsRun(own: seq<Tile>, i: nat)
      requires i < |own| && own[i].free
      ensures FreeRun(own, i, 0)
    {
      assert Aligned(i, 0) && Pow2(0) == 1;
    }

    /** A region without an unused page has nothing to hand out. */
    lemma NothingToHandOut(a: nat)
      requires Valid() && a < |regions| && forall i :: !FreeRun(regions[a].own, i, 0)
      ensures PagesFrom(regions[a].lists, 0) == []
    {
      hide Tracked, PagesFrom, RegionInv, FreeRun;
      var pages := PagesFrom(regions[a].lists, 0);
      ListsTracked(a);
      ListsPages(regions[a].own, regions[a].lists, 0);
      if pages != [] {
        assert pages[0] in pages;
        FreePageIsRun(regions[a].own, pages[0]);
      }
    }

    lemma NoPageNoRun()
      ensures FreePages() == {} <==> NoRun(0)
    {
      UnusedMeansRun(Starts(), Tilings());
    }

    lemma ValidApart()
      requires Valid()
      ensures Apart(Starts(), Tilings())
      ensures forall a :: 0 <= a < |regions| ==> Canon(regions[a].own)
    {
      forall a | 0 <= a < |regions|
        ensures Canon(Tilings()[a]) && RegionEnd(Starts()[a], Tilings()[a]) == regions[a].end
      {
        assert regions[a].Valid();
      }
    }

    /** Live blocks never overlap. */
    lemma NoOverlap()
      requires Valid()
      ensures forall e, f :: e in Extents() && f in Extents() && e != f ==> e.Disjoint(f)
    {
      ValidApart();
      LiveDisjoint(Starts(), Tilings());
    }

    /** One block at most is live at an address. */
    lemma OneAtAddress(address: nat, order: nat)
      requires Valid() && Extent(address, order) in Extents()
      ensures forall k :: Extent(address, k) in Extents() ==> k == order
    {
      hide Valid, LiveExtents;
      NoOverlap();
    }

    lemma InFootprint(a: nat)
      requires a < |regions|
      ensures regions[a] as object in Footprint()
      ensures regions[a].pool as object in Footprint() && regions[a].freeLists as object in Footprint()
    {
      assert regions[a] in regions;
    }

    constructor ()
      ensures Valid() && regions == []
    {
      regions := [];
    }

    /** The first region with a free block of order `order` or more. */
    method FindRegionForOrder(order: nat) returns (index: nat)
      requires Valid() && order <= MAX_ORDER
      ensures index <= |regions|
      ensures index < |regions| ==> exists i :: FreeRun(regions[index].own, i, order)
      ensures forall a, i :: 0 <= a < index ==> !FreeRun(regions[a].own, i, order)
    {
      index := 0;
      while index < |regions|
        invariant index <= |regions|
        invariant forall a, i :: 0 <= a < index ==> !FreeRun(regions[a].own, i, order)
      {
        var current := regions[index].FirstNonEmpty(order);
        if current <= MAX_ORDER {
          return;
        }
        index := index + 1;
      }
    }

    /** The region at `index` took its smallest sufficient block for `order`,
        no earlier region had one, and nothing else changed. */
    ghost predicate AllocatedIn(before: seq<seq<Tile>>, index: nat, address: nat, order: nat)
      reads this, regions
    {
      && index < |regions| == |before| && order <= MAX_ORDER
      && regions[index].start <= address < regions[index].end && address % PAGE_SIZE == 0
      && Tilings() == before[index := regions[index].own]
      && (forall a, i :: 0 <= a < index ==> !FreeRun(before[a], i, order))
      && TookSmallest(before[index], regions[index].own, (address - regions[index].start) / PAGE_SIZE, order)
    }

    /** A request panics exactly when the order is invalid or no region has an
        unallocated aligned run of that order. */
    method AllocOrder(order: nat) returns (r: AllocResult, ghost index: nat)
      requires Valid()
      modifies Footprint()
      ensures Valid() && regions == old(regions)
      ensures r.Panicked? <==> order > MAX_ORDER || old(NoRun(order))
      ensures r.Panicked? ==> Tilings() == old(Tilings())
      ensures r.Returned? ==> AllocatedIn(old(Tilings()), index, r.address, order)
      ensures r.Panicked? ==> Lists() == old(Lists())
      ensures r.Returned? ==> PickedIn(old(Tilings()), old(Lists()), index, r.address, order)
      ensures r.Returned? && order == 0 ==> old(NextPages()) == [r.address] + NextPages()
    {
      hide Valid, FreeRun, TookSmallest, Upcoming, PagesFrom, Picked;
      if order > MAX_ORDER {
        return Panicked, 0;
      }
      var found := FindRegionForOrder(order);
      index := found;
      if found == |regions| {
        return Panicked, found;
      }
      r := AllocNext(found, order);
    }

    /** The first region that can serve the request does; a single page is then
        the next of all. */
    method AllocNext(index: nat, order: nat) returns (r: AllocResult)
      requires Valid() && index < |regions| && order <= MAX_ORDER
      requires exists i :: FreeRun(regions[index].own, i, order)
      requires forall a, i :: 0 <= a < index ==> !FreeRun(regions[a].own, i, order)
      modifies Footprint()
      ensures Valid() && regions == old(regions) && r.Returned?
      ensures regions[index].start <= r.address < regions[index].end && r.address % PAGE_SIZE == 0
      ensures Tilings() == old(Tilings())[index := regions[index].own]
      ensures TookSmallest(
                old(regions[index].own), regions[index].own, (r.address - regions[index].start) / PAGE_SIZE, order)
      ensures PickedIn(old(Tilings()), old(Lists()), index, r.address, order)
      ensures order == 0 ==> old(NextPages()) == [r.address] + NextPages()
    {
      hide Valid, FreeRun, TookSmallest, Upcoming, PagesFrom, Picked;
      ghost var ts, ll := Tilings(), Lists();
      if order == 0 {
        NothingBefore(index);
      }
      r := AllocFrom(index, order);
      if order == 0 {
        HandedOut(ts, ll, index, r.address);
      }
    }

    lemma NothingBefore(index: nat)
      requires Valid() && index <= |regions| && forall a, i :: 0 <= a < index ==> !FreeRun(regions[a].own, i, 0)
      ensures forall a :: 0 <= a < index ==> PagesFrom(Lists()[a], 0) == []
    {
      hide RegionInv, FreeRun, PagesFrom;
      forall a | 0 <= a < index
        ensures PagesFrom(Lists()[a], 0) == []
      {
        NothingToHandOut(a);
      }
    }

    lemma RegionAligned(index: nat)
      requires Valid() && index < |regions|
      ensures regions[index].start % PAGE_SIZE == 0
    {
      hide RegionInv;
      assert regions[index].Valid();
    }

    /** The page that region `index` handed out was the next of all. */
    lemma HandedOut(ts: seq<seq<Tile>>, ll: seq<seq<seq<nat>>>, index: nat, address: nat)
      requires Valid() && PickedIn(ts, ll, index, address, 0) && address % PAGE_SIZE == 0
      requires forall a :: 0 <= a < index ==> PagesFrom(ll[a], 0) == []
      ensures Upcoming(Starts(), ll) == [address] + NextPages()
    {
      hide Valid, Upcoming, PagesFrom, Picked;
      RegionAligned(index);
      PageAddress(regions[index].start, address);
      var i := (address - regions[index].start) / PAGE_SIZE;
      FirstTakenBy(ll[index], regions[index].lists, i, ts[index][i].ord);
      UpcomingPops(Starts(), ll, index, regions[index].lists, i);
    }

    /** Region `index` handed out the first block of its lowest sufficient list;
        the lists of the others are as before. */
    ghost predicate PickedIn(ts: seq<seq<Tile>>, ll: seq<seq<seq<nat>>>, index: nat, address: nat, order: nat)
      reads this, regions
    {
      && index < |regions| == |ll| == |ts| && regions[index].start <= address
      && Lists() == ll[index := regions[index].lists]
      && var i := (address - regions[index].start) / PAGE_SIZE;
         i < |ts[index]| && Picked(ll[index], regions[index].lists, order, ts[index][i].ord, i)
    }

    method AllocFrom(index: nat, order: nat) returns (r: AllocResult)
      requires Valid() && index < |regions| && order <= MAX_ORDER
      requires exists i :: FreeRun(regions[index].own, i, order)
      modifies Footprint()
      ensures Valid() && regions == old(regions) && r.Returned?
      ensures regions[index].start <= r.address < regions[index].end && r.address % PAGE_SIZE == 0
      ensures Tilings() == old(Tilings())[index := regions[index].own]
      ensures TookSmallest(
                old(regions[index].own), regions[index].own, (r.address - regions[index].start) / PAGE_SIZE, order)
      ensures PickedIn(old(Tilings()), old(Lists()), index, r.address, order)
    {
      hide RegionInv, FreeRun, TookSmallest, Picked;
      InFootprint(index);
      r := regions[index].AllocOrder(order);
    }

    /** In terms of addresses: one more live block, of the order asked for,
        aligned relative to its region and disjoint from every other. */
    method AllocBlock(order: nat) returns (r: AllocResult)
      requires Valid()
      modifies Footprint()
      ensures Valid() && regions == old(regions)
      ensures r.Panicked? <==> order > MAX_ORDER || old(NoRun(order))
      ensures r.Panicked? ==> Extents() == old(Extents()) && (order <= MAX_ORDER ==> NoRun(order))
      ensures r.Returned? ==> NewExtent(old(Extents()), r.address, order)
      ensures r.Returned? ==> PagesTaken(old(FreePages()), r.address, order)
      ensures r.Panicked? ==> NextPages() == old(NextPages())
      ensures r.Returned? && order == 0 ==> old(NextPages()) == [r.address] + NextPages()
    {
      hide RegionInv, FreeRun, AllocatedIn, NewExtent, PagesTaken, LiveExtents, UnusedPages, Separate, Upcoming;
      ghost var ts := Tilings();
      ghost var index;
      ValidApart();
      r, index := AllocOrder(order);
      if r.Returned? {
        AllocExtent(ts, index, r.address, order);
      }
    }

    lemma AllocExtent(ts: seq<seq<Tile>>, index: nat, address: nat, order: nat)
      requires Valid() && AllocatedIn(ts, index, address, order)
      requires forall a :: 0 <= a < |ts| ==> Canon(ts[a])
      ensures NewExtent(LiveExtents(Starts(), ts), address, order)
      ensures PagesTaken(UnusedPages(Starts(), ts), address, order)
    {
      hide RegionInv, TookSmallest, Canon, Apart, InsideRegion, LiveExtents, UnusedPages, PagesOf, BlockSize,
           Extent.Disjoint;
      var region := regions[index];
      assert region.Valid();
      var t := Tile((address - region.start) / PAGE_SIZE, order, false);
      PageAddress(region.start, address);
      TookLive(ts[index], region.own, t.idx, order);
      ApartAlike(ts, index);
      ExtentsNew(Starts(), ts, index, region.own, t);
      UnusedWithout(Starts(), ts, index, region.own, t);
      LiveInside(index, t);
    }

    lemma TookLive(before: seq<Tile>, after: seq<Tile>, i: nat, order: nat)
      requires TookSmallest(before, after, i, order)
      ensures |after| == |before| && Tile(i, order, false) !in Live(before)
      ensures Live(after) == Live(before) + {Tile(i, order, false)}
    {
      hide FreeRun, Coalesced, Live, Runs.Apply;
      Runs.ApplyFacts(before, Runs.Alloc(i, order));
      TakenWasFree(before, i);
    }

    /** Regions stay where they are. */
    lemma ApartAlike(ts: seq<seq<Tile>>, index: nat)
      requires Valid() && index < |regions| == |ts| && Tilings() == ts[index := regions[index].own]
      requires |ts[index]| == |regions[index].own| && forall a :: 0 <= a < |ts| ==> Canon(ts[a])
      ensures Apart(Starts(), Tilings()) && Apart(Starts(), ts)
    {
      hide RegionInv, IsTiling, Coalesced;
      ValidApart();
      forall a | 0 <= a < |ts|
        ensures |ts[a]| == |Tilings()[a]|
      {
      }
    }

    lemma LiveInside(index: nat, t: Tile)
      requires Valid() && index < |regions| && t in Live(regions[index].own)
      ensures InsideRegion(index, regions[index].start + t.idx * PAGE_SIZE, t.ord)
    {
      hide Aligned, Pow2;
      var region := regions[index];
      assert region.Valid();
      InRegion(region.start, region.own, t);
      AlignedInRegion(region.start, region.own, t);
    }

    lemma TakenWasFree(own: seq<Tile>, i: nat)
      requires Canon(own) && i < |own| && own[i].free
      ensures forall k :: Tile(i, k, false) !in Live(own)
    {
    }

    lemma PageAddress(start: nat, address: nat)
      requires start <= address && start % PAGE_SIZE == 0 && address % PAGE_SIZE == 0
      ensures start + ((address - start) / PAGE_SIZE) * PAGE_SIZE == address
    {
    }

    ghost predicate NewExtent(before: set<Extent>, address: nat, order: nat)
      reads this, regions
    {
      && address % PAGE_SIZE == 0
      && Extents() == before + {Extent(address, order)}
      && (forall e :: e in before ==> e.Disjoint(Extent(address, order)))
      && exists a :: 0 <= a < |regions| && InsideRegion(a, address, order)
    }

    /** The pages of the block were free; the others still are. */
    ghost predicate PagesTaken(before: set<nat>, address: nat, order: nat)
      reads this, regions
    {
      && PagesOf(Extent(address, order)) <= before
      && FreePages() == before - PagesOf(Extent(address, order))
    }

    /** The pages of the block are free again; the others are what they were. */
    ghost predicate PagesReturned(before: set<nat>, address: nat, order: nat)
      reads this, regions
    {
      && PagesOf(Extent(address, order)) !! before
      && FreePages() == before + PagesOf(Extent(address, order))
    }

    ghost predicate InsideRegion(a: nat, address: nat, order: nat)
      requires a < |regions|
      reads this
    {
      && regions[a].start <= address && Extent(address, order).End() <= regions[a].end
      && (address - regions[a].start) % BlockSize(order) == 0
    }

    method AllocSize(size: nat) returns (r: AllocResult, ghost order: nat)
      requires Valid()
      modifies Footprint()
      ensures Valid() && regions == old(regions)
      ensures size == 0 ==> r == Returned(0)
      ensures 0 < size <= MAX_BLOCK ==> IsLeastOrder(size, order)
      ensures r.Panicked? <==> size > MAX_BLOCK || (size > 0 && old(NoRun(order)))
      ensures r.Panicked? || size == 0 ==> Extents() == old(Extents())
      ensures r.Panicked? && size <= MAX_BLOCK ==> NoRun(order)
      ensures r.Returned? && size > 0 ==> NewExtent(old(Extents()), r.address, order)
      ensures r.Returned? && size > 0 ==> PagesTaken(old(FreePages()), r.address, order)
      ensures r.Panicked? ==> NextPages() == old(NextPages())
      ensures r.Returned? && size > 0 && order == 0 ==> old(NextPages()) == [r.address] + NextPages()
    {
      hide RegionInv, FreeRun, NewExtent, PagesTaken, LiveExtents, UnusedPages, Upcoming, Separate;
      order := 0;
      if size == 0 {
        return Returned(0), 0;
      }
      var found, k := SizeToOrder(size);
      if !found {
        return Panicked, 0;
      }
      order := k;
      r := AllocBlock(k);
    }

    method AllocPages(numPages: nat) returns (r: AllocResult, ghost order: nat)
      requires Valid()
      modifies Footprint()
      ensures Valid() && regions == old(regions)
      ensures numPages == 0 ==> r == Returned(0)
      ensures 0 < numPages * PAGE_SIZE <= MAX_BLOCK ==> IsLeastOrder(numPages * PAGE_SIZE, order)
      ensures r.Panicked? <==> numPages * PAGE_SIZE > MAX_BLOCK || (numPages > 0 && old(NoRun(order)))
      ensures r.Panicked? || numPages == 0 ==> Extents() == old(Extents())
      ensures r.Panicked? && numPages * PAGE_SIZE <= MAX_BLOCK ==> NoRun(order)
      ensures r.Returned? && numPages > 0 ==> NewExtent(old(Extents()), r.address, order)
      ensures r.Returned? && numPages > 0 ==> PagesTaken(old(FreePages()), r.address, order)
      ensures r.Panicked? ==> NextPages() == old(NextPages())
      ensures r.Returned? && numPages > 0 && order == 0 ==> old(NextPages()) == [r.address] + NextPages()
    {
      hide RegionInv, FreeRun, NewExtent, PagesTaken, LiveExtents, UnusedPages, Upcoming, Separate, IsLeastOrder;
      if numPages == 0 {
        return Returned(0), 0;
      }
      if numPages > (WORD - 1) / PAGE_SIZE {
        return Panicked, 0;
      }
      r, order := AllocSize(numPages * PAGE_SIZE);
    }

    method FindRegionByAddress(address: nat) returns (index: nat)
      requires Valid()
      ensures index <= |regions|
      ensures index < |regions| ==> regions[index].start <= address < regions[index].end
      ensures index == |regions| ==> forall a :: 0 <= a < |regions| ==> !(regions[a].start <= address < regions[a].end)
    {
      index := 0;
      while index < |regions|
        invariant index <= |regions|
        invariant forall a :: 0 <= a < index ==> !(regions[a].start <= address < regions[a].end)
      {
        if regions[index].start <= address < regions[index].end {
          return;
        }
        index := index + 1;
      }
    }

    /** `address` is the first byte of a block of region `a`. */
    ghost predicate HeadOf(a: nat, address: nat)
      requires a < |regions|
      reads this, regions
    {
      && regions[a].start <= address < regions[a].end && address % PAGE_SIZE == 0
      && var i := (address - regions[a].start) / PAGE_SIZE;
         i < |regions[a].own| && regions[a].own[i].idx == i
    }

    /** The caller's duty: an aligned address inside a region is the start of
        a block there.  The double-free guard is meaningful only for those. */
    ghost predicate MayFree(address: nat)
      reads this, regions
    {
      forall a :: 0 <= a < |regions| && regions[a].start <= address < regions[a].end && address % PAGE_SIZE == 0 ==>
        HeadOf(a, address)
    }

    /** The block of order `order` at `address` was given back: it is not live
        any more and its pages are unused; region `index` freed it, and the
        lists of the other regions are as before. */
    ghost predicate GivenBack(ts: seq<seq<Tile>>, ll: seq<seq<seq<nat>>>, index: nat, address: nat, order: nat)
      reads this, regions
    {
      && |regions| == |ll| == |ts|
      && Extent(address, order) in LiveExtents(Starts(), ts)
      && Extents() == LiveExtents(Starts(), ts) - {Extent(address, order)}
      && PagesReturned(UnusedPages(Starts(), ts), address, order)
      && FreedIn(ts, ll, index, address)
      && order == ts[index][(address - regions[index].start) / PAGE_SIZE].ord
    }

    ghost predicate FreedIn(ts: seq<seq<Tile>>, ll: seq<seq<seq<nat>>>, index: nat, address: nat)
      reads this, regions
    {
      && index < |regions| && regions[index].start <= address && address % PAGE_SIZE == 0
      && FreedPage(ts, ll, index, (address - regions[index].start) / PAGE_SIZE)
    }

    ghost predicate FreedPage(ts: seq<seq<Tile>>, ll: seq<seq<seq<nat>>>, index: nat, i: nat)
      reads this, regions
    {
      && index < |regions| == |ll| == |ts|
      && Tilings() == ts[index := regions[index].own] && Lists() == ll[index := regions[index].lists]
      && regions[index].Freed(ts[index], ll[index], i)
    }

    lemma FreedFrom(live: set<Extent>, ts: seq<seq<Tile>>, ll: seq<seq<seq<nat>>>, index: nat, address: nat, order: nat)
      requires GivenBack(ts, ll, index, address, order) && |ts| == |Starts()| && live == LiveExtents(Starts(), ts)
      ensures Extent(address, order) in live && Extents() == live - {Extent(address, order)}
    {
    }

    /** `address` is a page of region `index` whose buddy is no free page, and
        earlier regions have no unused page. */
    ghost predicate ComesFirst(index: nat, address: nat)
      reads this, regions
    {
      && index < |regions| && regions[index].start <= address
      && (forall a, i :: 0 <= a < index ==> !FreeRun(regions[a].own, i, 0))
      && !IsFree(regions[index].own, Buddy((address - regions[index].start) / PAGE_SIZE, 0), 0)
    }

    /** Freeing a live block makes it, and nothing else, not live, and lists it
        first; freeing address 0 does nothing; anything else that may be freed
        panics.  A single page that is not merged is the next to be handed
        out, unless an earlier region has one. */
    method Free(address: nat) returns (ok: bool, ghost index: nat, ghost order: nat)
      requires Valid() && MayFree(address)
      modifies Footprint()
      ensures Valid() && regions == old(regions)
      ensures ok <==> address == 0 || exists k :: Extent(address, k) in old(Extents())
      ensures !ok || address == 0 ==> Tilings() == old(Tilings()) && Lists() == old(Lists())
      ensures ok && address != 0 ==> GivenBack(old(Tilings()), old(Lists()), index, address, order)
      ensures ok && address != 0 && order == 0 && old(ComesFirst(index, address)) ==>
                NextPages() == [address] + old(NextPages())
    {
      hide Valid, FreeRun, LiveExtents, GivenBack, BitAnd, ComesFirst, Upcoming;
      PageMask(address);
      index, order := 0, 0;
      if address == 0 {
        return true, 0, 0;
      }
      if BitAnd(address, PAGE_SIZE - 1) != 0 {
        NotLiveOutside(address);
        return false, 0, 0;
      }
      var found := FindRegionByAddress(address);
      index := found;
      if found == |regions| {
        NotLiveOutside(address);
        return false, found, 0;
      }
      assert HeadOf(found, address);
      ok, order := FreeIn(found, address);
      if ok {
        assert Extent(address, order) in old(Extents());
      }
    }

    lemma NotLiveOutside(address: nat)
      requires Valid()
      requires || address % PAGE_SIZE != 0
               || forall a :: 0 <= a < |regions| ==> !(regions[a].start <= address < regions[a].end)
      ensures forall k :: Extent(address, k) !in Extents()
    {
      hide RegionInv, LiveExtents, Apart;
      ValidApart();
      forall k: nat
        ensures Extent(address, k) !in Extents()
      {
        if Extent(address, k) in Extents() {
          var a := LiveSomewhere(Starts(), Tilings(), Extent(address, k));
          assert regions[a].Valid();
          RegionEndIs(a);
        }
      }
    }

    /** Live blocks may be freed. */
    lemma LiveMayFree(address: nat, k: nat)
      requires Valid() && Extent(address, k) in Extents()
      ensures MayFree(address)
    {
      hide RegionInv, LiveExtents, Apart;
      ValidApart();
      forall a | 0 <= a < |regions| && regions[a].start <= address < regions[a].end && address % PAGE_SIZE == 0
        ensures HeadOf(a, address)
      {
        assert regions[a].Valid();
        RegionEndIs(a);
        PageIndex(regions[a].start, |regions[a].own|, address);
        LiveIsHead(Starts(), Tilings(), a, (address - regions[a].start) / PAGE_SIZE, k);
      }
    }

    lemma LiveAligned(e: Extent)
      requires Valid() && e in Extents()
      ensures e.address % PAGE_SIZE == 0
    {
      if e.address % PAGE_SIZE != 0 {
        NotLiveOutside(e.address);
      }
    }

    lemma RegionEndIs(a: nat)
      requires Valid() && a < |regions|
      ensures RegionEnd(regions[a].start, regions[a].own) == regions[a].end
    {
      assert regions[a].Valid();
    }

    /** At the head of a block, "some block is live here" is that block's
        allocation status. */
    lemma LiveAtHead(index: nat, address: nat)
      requires Valid() && index < |regions| && HeadOf(index, address)
      ensures var i := (address - regions[index].start) / PAGE_SIZE; var t := regions[index].own[i];
              && regions[index].start + i * PAGE_SIZE == address
              && forall k :: Extent(address, k) in Extents() <==> !t.free && k == t.ord
    {
      hide RegionInv, LiveExtents, Apart;
      assert regions[index].Valid();
      ValidApart();
      PageAddress(regions[index].start, address);
      var i := (address - regions[index].start) / PAGE_SIZE;
      forall k: nat
        ensures Extent(address, k) in Extents() <==> !regions[index].own[i].free && k == regions[index].own[i].ord
      {
        LiveAt(Starts(), Tilings(), index, i, k);
      }
    }

    method FreeIn(index: nat, address: nat) returns (ok: bool, ghost k: nat)
      requires Valid() && index < |regions| && HeadOf(index, address)
      modifies Footprint()
      ensures Valid() && regions == old(regions)
      ensures forall j :: Extent(address, j) in old(Extents()) <==> ok && j == k
      ensures !ok ==> Tilings() == old(Tilings()) && Lists() == old(Lists())
      ensures ok ==> GivenBack(old(Tilings()), old(Lists()), index, address, k)
      ensures ok && k == 0 && old(ComesFirst(index, address)) ==> NextPages() == [address] + old(NextPages())
    {
      hide Valid, LiveExtents, GivenBack, Upcoming, NothingAhead, ComesFirst, HeadOf;
      ghost var ts, ll, first := Tilings(), Lists(), ComesFirst(index, address);
      if first {
        NothingBeforeIt(index, address);
      }
      ok, k := FreeHere(index, address);
      if ok && k == 0 && first {
        BackInFront(ts, ll, index, address);
      }
    }

    method FreeHere(index: nat, address: nat) returns (ok: bool, ghost k: nat)
      requires Valid() && index < |regions| && HeadOf(index, address)
      modifies Footprint()
      ensures Valid() && regions == old(regions)
      ensures forall j :: Extent(address, j) in old(Extents()) <==> ok && j == k
      ensures !ok ==> Tilings() == old(Tilings()) && Lists() == old(Lists())
      ensures ok ==> GivenBack(old(Tilings()), old(Lists()), index, address, k)
    {
      hide Valid, LiveExtents, GivenBack, FreedPage;
      ghost var ts, ll := Tilings(), Lists();
      LiveAtHead(index, address);
      BeforeFree(index, address);
      ghost var t: Tile := ts[index][(address - regions[index].start) / PAGE_SIZE];
      k := t.ord;
      ok := FreeBlockOf(index, address);
      if ok {
        BlockGivenBack(ts, ll, index, address);
      }
    }

    lemma BeforeFree(index: nat, address: nat)
      requires Valid() && index < |regions| && HeadOf(index, address)
      ensures Apart(Starts(), Tilings())
    {
      hide RegionInv;
      ValidApart();
    }

    lemma BlockGivenBack(ts: seq<seq<Tile>>, ll: seq<seq<seq<nat>>>, index: nat, address: nat)
      requires Valid() && FreedIn(ts, ll, index, address) && Apart(Starts(), ts)
      ensures GivenBack(ts, ll, index, address, ts[index][(address - regions[index].start) / PAGE_SIZE].ord)
    {
      hide Valid, LiveExtents, UnusedPages, PagesReturned, Canon, Apart, IsTiling, Released, MergesFirst, Runs.Apply;
      var t := ts[index][(address - regions[index].start) / PAGE_SIZE];
      RegionAligned(index);
      PageAddress(regions[index].start, address);
      LiveHead(ts[index], t);
      FreedExtent(ts, index, t);
      InLiveExtents(Starts(), ts, index, t);
    }

    lemma InLiveExtents(starts: seq<nat>, ts: seq<seq<Tile>>, a: nat, t: Tile)
      requires a < |ts| == |starts| && t in Live(ts[a])
      ensures ExtentOf(starts[a], t) in LiveExtents(starts, ts)
    {
    }

    ghost predicate NothingAhead(ts: seq<seq<Tile>>, ll: seq<seq<seq<nat>>>, index: nat, i: nat) {
      && index < |ts| == |ll| && !IsFree(ts[index], Buddy(i, 0), 0)
      && forall a :: 0 <= a < index ==> PagesFrom(ll[a], 0) == []
    }

    lemma NothingBeforeIt(index: nat, address: nat)
      requires Valid() && ComesFirst(index, address)
      ensures NothingAhead(Tilings(), Lists(), index, (address - regions[index].start) / PAGE_SIZE)
    {
      hide RegionInv, FreeRun, PagesFrom;
      NothingBefore(index);
    }

    lemma BackInFront(ts: seq<seq<Tile>>, ll: seq<seq<seq<nat>>>, index: nat, address: nat)
      requires Valid() && GivenBack(ts, ll, index, address, 0)
      requires NothingAhead(ts, ll, index, (address - regions[index].start) / PAGE_SIZE)
      ensures NextPages() == [address] + Upcoming(Starts(), ll)
    {
      hide Valid, Upcoming, PagesFrom, Released, Canon, Live, Runs.Apply, LiveExtents, UnusedPages, PagesReturned;
      RegionAligned(index);
      PageAddress(regions[index].start, address);
      var i := (address - regions[index].start) / PAGE_SIZE;
      assert regions[index].own[i].ord == 0;
      ReleasedPage(ll[index], regions[index].lists, i) by { Unmerged(ll[index], regions[index].lists, i); }
      assert Lists()[index := ll[index]] == ll;
      UpcomingPops(Starts(), Lists(), index, ll[index], i);
    }

    lemma Unmerged(before: seq<seq<nat>>, after: seq<seq<nat>>, i: nat)
      requires Released(before, after, i, 0, 0)
      ensures 0 < |before| == |after|
    {
    }

    /** A block less in one region, seen from outside. */
    lemma FreedExtent(ts: seq<seq<Tile>>, index: nat, t: Tile)
      requires Valid() && index < |regions| == |ts| && Tilings() == ts[index := regions[index].own]
      requires Apart(Starts(), ts) && t in Live(ts[index]) && |regions[index].own| == |ts[index]|
      requires Live(regions[index].own) == Live(ts[index]) - {t}
      ensures var e := ExtentOf(Starts()[index], t);
              && Extents() == LiveExtents(Starts(), ts) - {e}
              && PagesReturned(UnusedPages(Starts(), ts), e.address, e.order)
    {
      hide RegionInv, Canon, Apart, UnusedPages, PagesOf, Live, LiveExtents;
      ValidApart();
      assert Tilings()[index := ts[index]] == ts;
      ExtentsLose(Starts(), ts, index, regions[index].own, t);
      UnusedWithout(Starts(), Tilings(), index, ts[index], t);
    }

    lemma LiveHead(own: seq<Tile>, t: Tile)
      requires Canon(own) && t.idx < |own| && own[t.idx] == t && !t.free
      ensures t in Live(own)
    {
    }

    method FreeBlockOf(index: nat, address: nat) returns (ok: bool)
      requires Valid() && index < |regions| && HeadOf(index, address)
      modifies Footprint()
      ensures Valid() && regions == old(regions)
      ensures ok == !old(regions[index].own)[(address - regions[index].start) / PAGE_SIZE].free
      ensures !ok ==> Tilings() == old(Tilings()) && Lists() == old(Lists())
      ensures ok ==> FreedIn(old(Tilings()), old(Lists()), index, address)
    {
      hide Valid, FreedPage;
      HeadInRegion(index, address);
      var block := regions[index].FindBlockByAddress(address);
      PageNumber(regions[index].start, address, block);
      ok := FreePage(index, block);
    }

    lemma PageNumber(start: nat, address: nat, i: int)
      requires address == start + i * PAGE_SIZE
      ensures i == (address - start) / PAGE_SIZE
    {
    }

    lemma HeadInRegion(index: nat, address: nat)
      requires Valid() && index < |regions| && HeadOf(index, address)
      ensures regions[index].Shape() && |regions[index].own| == regions[index].pool.Length
    {
      hide Canon;
      assert regions[index].Valid();
    }

    method FreePage(index: nat, block: nat) returns (ok: bool)
      requires Valid() && index < |regions| && block < |regions[index].own| && regions[index].own[block].idx == block
      modifies Footprint()
      ensures Valid() && regions == old(regions)
      ensures ok == !old(regions[index].own)[block].free
      ensures ok ==> FreedPage(old(Tilings()), old(Lists()), index, block)
      ensures !ok ==> Tilings() == old(Tilings()) && Lists() == old(Lists())
    {
      hide RegionInv, Region.Freed, FreedPage;
      ghost var ts, ll := Tilings(), Lists();
      InFootprint(index);
      assert regions[index].Valid();
      ok := regions[index].Free(block);
      Others(ts, ll, index);
      if ok {
        IsFreedPage(ts, ll, index, block);
      }
    }

    /** Regions whose tiling and lists did not change. */
    lemma Others(ts: seq<seq<Tile>>, ll: seq<seq<seq<nat>>>, index: nat)
      requires index < |regions| == |ts| == |ll|
      requires forall a :: 0 <= a < |regions| && a != index ==> regions[a].own == ts[a] && regions[a].lists == ll[a]
      ensures Tilings() == ts[index := regions[index].own] && Lists() == ll[index := regions[index].lists]
    {
    }

    lemma IsFreedPage(ts: seq<seq<Tile>>, ll: seq<seq<seq<nat>>>, index: nat, i: nat)
      requires index < |regions| == |ll| == |ts|
      requires Tilings() == ts[index := regions[index].own] && Lists() == ll[index := regions[index].lists]
      requires regions[index].Freed(ts[index], ll[index], i)
      ensures FreedPage(ts, ll, index, i)
    {
    }

    /** Take over the whole pages of `[start, start + size)`, or what is taken
        for them where rounding up wraps (`BoundsInsideIff`).  They are not
        managed yet. */
    method AddRegion(start: nat, size: nat) returns (ok: bool)
      requires Valid() && start < WORD && size < WORD
      requires var b := RegionBounds(start, size);
               b.Pages? ==> forall a :: 0 <= a < |regions| ==> b.hi <= regions[a].start || regions[a].end <= b.lo
      modifies this`regions
      ensures Valid()
      ensures ok <==> 0 < size && start + size < WORD
      ensures var b := RegionBounds(start, size);
              if b.Pages? then
                && |regions| == old(|regions|) + 1 && regions[..old(|regions|)] == old(regions)
                && regions[old(|regions|)].start == b.lo && regions[old(|regions|)].end == b.hi
                && regions[old(|regions|)].own == InitialTiling((b.hi - b.lo) / PAGE_SIZE)
                && Appended(old(NextPages()))
              else regions == old(regions)
    {
      hide RegionInv;
      BoundsShape(start, size);
      var originalEnd := (start + size) % WORD;
      if start >= originalEnd {
        return false;
      }
      var alignedStart := AlignUp(start, PAGE_SIZE);
      var alignedEnd := AlignDown(originalEnd, PAGE_SIZE);
      if alignedEnd <= alignedStart {
        return true;
      }
      Append(alignedStart, alignedEnd);
      return true;
    }

    method Append(lo: nat, hi: nat)
      requires Valid() && lo % PAGE_SIZE == 0 && hi % PAGE_SIZE == 0 && lo < hi < WORD
      requires forall a :: 0 <= a < |regions| ==> hi <= regions[a].start || regions[a].end <= lo
      modifies this`regions
      ensures Valid() && |regions| == old(|regions|) + 1 && regions[..old(|regions|)] == old(regions)
      ensures regions[old(|regions|)].start == lo && regions[old(|regions|)].end == hi
      ensures regions[old(|regions|)].own == InitialTiling((hi - lo) / PAGE_SIZE)
      ensures Appended(old(NextPages()))
    {
      hide RegionInv, Upcoming, Descending;
      ghost var ss, ll := Starts(), Lists();
      var region := new Region(lo, hi);
      regions := regions + [region];
      assert Starts() == ss + [lo] && Lists() == ll + [region.lists];
      UpcomingAppend(ss, ll, lo, region.lists);
    }

    /** The pages of the last region come after all others; its blocks are
        listed from the highest to the lowest. */
    ghost predicate Appended(before: seq<nat>)
      reads this, regions
    {
      && |regions| > 0
      && var r := regions[|regions| - 1];
         && |r.lists| == NUM_ORDERS && (forall k :: 0 <= k < NUM_ORDERS ==> Descending(r.lists[k]))
         && NextPages() == before + Addresses(r.start, PagesFrom(r.lists, 0))
    }

    /** When no block is live, every region is back to its initial carve. */
    lemma NothingLive()
      requires Valid() && Extents() == {}
      ensures forall a :: 0 <= a < |regions| ==> regions[a].own == InitialTiling(|regions[a].own|)
    {
      hide RegionInv;
      ValidApart();
      forall a | 0 <= a < |regions|
        ensures regions[a].own == InitialTiling(|regions[a].own|)
      {
        LiveShows(Starts(), Tilings(), a);
        NothingLiveIsInitial(Tilings()[a]);
      }
    }
  }

  /** History does not matter: managers of the same regions with the same live
      blocks are in the same state, region by region. */
  lemma SameLiveSameState(a: Pmm, b: Pmm)
    requires a.Valid() && b.Valid() && |a.regions| == |b.regions| && a.Extents() == b.Extents()
    requires forall i :: 0 <= i < |a.regions| ==>
               a.regions[i].start == b.regions[i].start && a.regions[i].end == b.regions[i].end
    ensures a.Tilings() == b.Tilings() && a.FreePages() == b.FreePages()
  {
    hide RegionInv, Canon, Apart, LiveExtents, UnusedPages;
    a.ValidApart();
    b.ValidApart();
    forall i | 0 <= i < |a.regions|
      ensures |a.Tilings()[i]| == |b.Tilings()[i]|
    {
      a.RegionEndIs(i);
      b.RegionEndIs(i);
    }
    assert a.Starts() == b.Starts();
    SameExtentsSameTilings(a.Starts(), a.Tilings(), b.Tilings());
  }
}
