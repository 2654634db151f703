/** One region of physical memory: the pool of page headers and the free lists
    that `pmm.c` changes in place. */
module Regions {
  import opened Bits
  import opened Tiling
  import opened TilingSteps
  import opened FreeLists
  import opened Handouts
  import opened RegionSteps
  import opened Carve
  import Runs

  /** An allocator call either returns a pointer, 0 being `NULL`, or panics. */
  datatype AllocResult = Returned(address: nat) | Panicked

  /** `BLOCK_SIZE(order)`. */
  function BlockSize(order: nat): nat { Pow2(order) * PAGE_SIZE }

  lemma PageSizeIsPow2()
    ensures Pow2(12) == PAGE_SIZE
  {
    assert Pow2(4) == 16;
    assert Pow2(8) == 256;
  }

  /** The source's page-alignment test. */
  lemma PageMask(address: nat)
    ensures BitAnd(address, PAGE_SIZE - 1) == address % PAGE_SIZE
  {
    PageSizeIsPow2();
    AndLowMask(address, 12);
    LowBitsIsModulo(address, 12);
  }

  lemma PageIndex(start: nat, n: nat, address: nat)
    requires start % PAGE_SIZE == 0
    ensures start <= address < start + n * PAGE_SIZE && address % PAGE_SIZE == 0 ==>
              var i := (address - start) / PAGE_SIZE; i < n && address == start + i * PAGE_SIZE
  {
  }

  /** In byte offsets, XOR with the block size finds the buddy. */
  lemma XorFindsBuddy(i: nat, k: nat)
    requires Aligned(i, k)
    ensures Buddy(i, k) >= 0
    ensures BitXor(i * PAGE_SIZE, BlockSize(k)) == Buddy(i, k) * PAGE_SIZE
  {
    hide Aligned;
    PageSizeIsPow2();
    Pow2Sum(k, 12);
    AlignedScale(i, k, 12);
    AlignedScale(i, k + 1, 12);
    XorTogglesBit(i * PAGE_SIZE, k + 12);
    BuddyFacts(i, k);
  }

  lemma BlockAligned(i: nat, k: nat)
    requires Aligned(i, k)
    ensures BlockSize(k) > 0 && (i * PAGE_SIZE) % BlockSize(k) == 0
  {
    hide Aligned;
    PageSizeIsPow2();
    Pow2Sum(k, 12);
    AlignedScale(i, k, 12);
    AlignedIsModulo(i * PAGE_SIZE, k + 12);
  }

  /** A buddy of a page below 4 GiB starts below 4 GiB. */
  lemma BuddyBelowTop(i: nat, k: nat)
    requires Aligned(i, k) && k <= MAX_ORDER && i < 0x10_0000
    ensures 0 <= Buddy(i, k) < 0x10_0000
  {
    hide Aligned;
    BuddyFacts(i, k);
    assert Pow2(20) == 0x10_0000 by { PageSizeIsPow2(); }
    if Aligned(i, k + 1) {
      AlignedZero(k + 1);
      AlignedAddPow(0, k + 1, 20);
      AlignedGap(i, Pow2(20), k + 1);
    }
  }

  lemma WrapsBelowStart(start: nat, n: nat, b: nat)
    requires start + n * PAGE_SIZE < WORD && b < 0x10_0000
    ensures var a := (start + b * PAGE_SIZE) % WORD;
            if b < n then a == start + b * PAGE_SIZE else a < start || a >= start + n * PAGE_SIZE
  {
  }

  /** The result of allocating the run of `2^order` pages at `i`: it was the
      start of a free block, no smaller free block would have done, and
      exactly that run became live. */
  ghost predicate TookSmallest(before: seq<Tile>, after: seq<Tile>, i: int, order: nat) {
    && Canon(before) && 0 <= i && Runs.Enabled(before, Runs.Alloc(i, order))
    && after == Runs.Apply(before, Runs.Alloc(i, order))
    && Live(after) == Live(before) + {Tile(i, order, false)}
    && (forall j, k :: IsFree(before, j, k) && order <= k ==> before[i].ord <= k)
  }

  /** A canonical tiling is determined by its live blocks, so the pointer code
      did what the state machine does. */
  lemma StepDetermined(before: seq<Tile>, after: seq<Tile>, op: Runs.Op)
    requires Canon(before) && Canon(after) && |after| == |before| && Runs.Enabled(before, op)
    requires op.Alloc? ==> Live(after) == Live(before) + {Tile(op.i, op.k, false)}
    requires op.Free? ==> Live(after) == Live(before) - {before[op.i]}
    ensures after == Runs.Apply(before, op)
  {
    Runs.ApplyFacts(before, op);
    SameLiveSameTiling(after, Runs.Apply(before, op));
  }

  /** A free block of at least order `order` holds a run of that order, and
      every unallocated run of that order lies in such a block. */
  lemma NoneAtLeast(own: seq<Tile>, lists: seq<seq<nat>>, order: nat, c: nat)
    requires Canon(own) && |lists| == NUM_ORDERS && ListsTrack(own, lists)
    requires order <= MAX_ORDER && order <= c <= NUM_ORDERS
    requires forall k :: order <= k < c ==> lists[k] == []
    requires c <= MAX_ORDER ==> lists[c] != []
    ensures forall j, k :: IsFree(own, j, k) && order <= k ==> c <= k
    ensures c > MAX_ORDER <==> !exists i :: FreeRun(own, i, order)
  {
    forall j, k: nat | IsFree(own, j, k) && order <= k
      ensures c <= k
    {
      assert own[j].Fits(|own|);
      assert j in lists[k];
    }
    forall i | FreeRun(own, i, order)
      ensures c <= MAX_ORDER
    {
      RunInsideFreeTile(own, i, order);
      var t := own[i];
      assert t.Covers(t.idx);
      assert IsFree(own, t.idx, t.ord);
    }
    if c <= MAX_ORDER {
      var x := lists[c][0];
      assert x in lists[c];
      assert IsFree(own, x, c);
      FreeTileIsRun(own, x, c);
      AlignedWeaken(x, order, c);
      Pow2Monotone(order, c);
      assert FreeRun(own, x, order);
    }
  }

  lemma UpperHalf(own: seq<Tile>, i: nat)
    requires IsTiling(own) && i < |own| && own[i].idx == i && own[i].ord > 0
    ensures var hi := i + Pow2(own[i].ord - 1); i < hi < |own| && own[hi] == own[i]
  {
  }

  lemma LiveHasNoHead(own: seq<Tile>, i: nat)
    requires IsTiling(own) && i < |own| && own[i].free
    ensures forall k :: Tile(i, k, false) !in Live(own)
  {
  }

  /** Headers and lists agree with the tiling below page `offset`. */
  ghost predicate CarvedTo(own: seq<Tile>, pool: seq<Header>, lists: seq<seq<nat>>, offset: nat) {
    && |pool| == |own| && |lists| == NUM_ORDERS
    && (forall i :: 0 <= i < |pool| ==> pool[i].isFree)
    && (forall i :: 0 <= i < offset && i < |pool| && own[i].idx == i ==> pool[i].order == own[i].ord)
    && (forall k, i {:trigger i in lists[k]} ::
          0 <= k < NUM_ORDERS ==> (i in lists[k] <==> IsFree(own, i, k) && i < offset))
  }

  lemma CarveStep(own: seq<Tile>, pool: seq<Header>, pool': seq<Header>,
                  lists: seq<seq<nat>>, lists': seq<seq<nat>>, offset: nat, order: nat)
    requires Canon(own) && offset < |own| && own[offset] == Tile(offset, order, true)
    requires CarvedTo(own, pool, lists, offset)
    requires SameLabelsBut(pool, pool', {offset}) && pool'[offset].order == order && pool'[offset].isFree
    requires Gained(lists, lists', offset, order)
    ensures CarvedTo(own, pool', lists', offset + Pow2(order))
  {
    var e := offset + Pow2(order);
    forall i | offset < i < e && i < |own|
      ensures own[i].idx != i
    {
      assert own[offset].Covers(i);
    }
  }

  lemma CarvedBelow(own: seq<Tile>, pool: seq<Header>, lists: seq<seq<nat>>, offset: nat, k: nat)
    requires CarvedTo(own, pool, lists, offset) && k < NUM_ORDERS
    ensures forall i :: i in lists[k] ==> i < offset
  {
  }

  lemma NotYetListed(own: seq<Tile>, pool: seq<Header>, lists: seq<seq<nat>>, offset: nat)
    requires CarvedTo(own, pool, lists, offset)
    ensures forall m :: 0 <= m < NUM_ORDERS ==> offset !in lists[m]
  {
  }

  /** Taking a block and splitting it down to a page takes the first page. */
  lemma FirstTakenBy(before: seq<seq<nat>>, after: seq<seq<nat>>, b: nat, c: nat)
    requires Picked(before, after, 0, c, b)
    ensures PagesFrom(before, 0) == [b] + PagesFrom(after, 0)
  {
    hide PagesFrom, SplitListed, Pow2;
    var taken := before[c := before[c][1..]];
    forall j | 0 <= j < |after|
      ensures after[j] == if j < c then [b + Pow2(j)] else taken[j]
    {
      OneSplit(taken, after, b, c, j);
    }
    TakingPops(before, after, c, b);
  }

  lemma OneSplit(taken: seq<seq<nat>>, after: seq<seq<nat>>, b: nat, c: nat, j: nat)
    requires c < |taken| == |after| && j < |after| && SplitListed(taken, after, b, 0, c)
    requires j < c ==> taken[j] == []
    ensures after[j] == if j < c then [b + Pow2(j)] else taken[j]
  {
    hide Pow2;
  }

  /** The buddy of the block at `i` is free, and of the same order. */
  ghost predicate MergesFirst(own: seq<Tile>, i: nat)
    requires i < |own|
  {
    own[i].ord < MAX_ORDER && IsFree(own, Buddy(i, own[i].ord), own[i].ord)
  }

  lemma StartMerge(lists: seq<seq<nat>>, own: seq<Tile>, first: nat)
    requires IsTiling(own) && first < |own| && own[first].idx == first
    ensures Base(first, own[first].ord) == first
    ensures Merged(lists, lists, first, own[first].ord, own[first].ord)
  {
    hide Aligned;
    BaseUnique(first, first, own[first].ord);
  }

  /** Merging moves the block to the base of the next order. */
  lemma MergeBase(first: nat, block: nat, order: nat)
    requires block == Base(first, order)
    ensures var buddy := Buddy(block, order);
            0 <= buddy && (if block < buddy then block else buddy) == Base(first, order + 1)
  {
    hide Aligned, Base;
    BaseContains(first, order);
    BuddyFacts(block, order);
    var lo := if block < Buddy(block, order) then block else Buddy(block, order);
    BaseUnique(first, lo, order + 1);
  }

  lemma MergeOneMore(before: seq<seq<nat>>, mid: seq<seq<nat>>, after: seq<seq<nat>>, page: nat, order: nat, k: nat)
    requires |before| == |mid| == |after| && order <= k < |mid| && Merged(before, mid, page, order, k)
    requires 0 <= Buddy(Base(page, k), k) && after == mid[k := Without(mid[k], Buddy(Base(page, k), k))]
    ensures Merged(before, after, page, order, k + 1)
  {
    hide Without, Buddy, Base;
    assert mid[k] == before[k];
    forall j | 0 <= j < |after|
      ensures after[j] == if order <= j < k + 1 then Without(before[j], Buddy(Base(page, j), j)) else before[j]
    {
      assert j != k ==> after[j] == mid[j];
    }
  }

  lemma ReleaseAfterMerge(
    before: seq<seq<nat>>, mid: seq<seq<nat>>, after: seq<seq<nat>>, page: nat, order: nat, k: nat)
    requires |before| == |mid| && order <= k < |mid| && Merged(before, mid, page, order, k)
    requires after == mid[k := [Base(page, k)] + mid[k]]
    ensures Released(before, after, page, order, k)
  {
    hide Without, Buddy, Base;
    assert mid[k] == before[k];
    assert after[k := before[k]] == mid;
  }

  /** The page stays with the block that has grown over it. */
  lemma OwnsPage(own: seq<Tile>, first: nat, k: nat)
    requires IsTiling(own) && first < |own| && Base(first, k) < |own|
    requires own[Base(first, k)] == Tile(Base(first, k), k, false)
    ensures SetFree(own, Base(first, k), true)[first] == Tile(Base(first, k), k, true)
  {
    hide Aligned, Base;
    BaseContains(first, k);
    assert own[Base(first, k)].Covers(first);
  }

  class Region {
    const start: nat
    const end: nat
    const pool: array<Header>
    const freeLists: array<int>
    ghost var own: seq<Tile>
    ghost var lists: seq<seq<nat>>

    ghost predicate Shape() {
      && start % PAGE_SIZE == 0 && pool.Length >= 1
      && end == start + pool.Length * PAGE_SIZE && end < WORD
    }

    /** The representation invariant, but for the free flag of header `x`. */
    ghost predicate Inv(x: int)
      reads this, pool, freeLists
    {
      Shape() && RegionInv(start, pool[..], freeLists[..], own, lists, x)
    }

    ghost predicate Valid()
      reads this, pool, freeLists
    {
      Inv(NULL)
    }

    /** Lines 157-201 of `pmm_add_region`: headers, empty lists, and the greedy
        carve into free blocks. */
    constructor (start: nat, end: nat)
      requires start % PAGE_SIZE == 0 && end % PAGE_SIZE == 0 && start < end < WORD
      ensures Valid() && this.start == start && this.end == end
      ensures own == InitialTiling((end - start) / PAGE_SIZE)
      ensures |lists| == NUM_ORDERS && forall k :: 0 <= k < NUM_ORDERS ==> Descending(lists[k])
      ensures fresh(pool) && fresh(freeLists)
    {
      this.start, this.end := start, end;
      var n := (end - start) / PAGE_SIZE;
      pool := new Header[n](i => Header(0, 0, false, NULL));
      freeLists := new int[NUM_ORDERS](_ => NULL);
      own := InitialTiling(n);
      lists := seq(NUM_ORDERS, _ => []);
      new;
      InitialCanon(n);
      NothingLiveAllFree(own);
      InitialHeaders();
      CarveAll();
    }

    /** Every header starts as a free block of one page, whatever the carve
        makes of the page later. */
    method InitialHeaders()
      requires Shape() && freeLists.Length == NUM_ORDERS
      requires forall k :: 0 <= k < NUM_ORDERS ==> freeLists[k] == NULL
      requires lists == seq(NUM_ORDERS, _ => [])
      modifies pool
      ensures forall i :: 0 <= i < pool.Length ==> pool[i] == Header(start + i * PAGE_SIZE, 0, true, NULL)
      ensures ListsOk(pool[..], freeLists[..], lists)
    {
      for index := 0 to pool.Length
        invariant forall i :: 0 <= i < index ==> pool[i] == Header(start + i * PAGE_SIZE, 0, true, NULL)
      {
        pool[index] := Header(start + index * PAGE_SIZE, 0, true, NULL);
      }
    }

    /** The largest order that may start at `offset`. */
    method BiggestOrder(offset: nat) returns (order: nat)
      requires offset < pool.Length
      ensures Legal(pool.Length, offset, order) && !Legal(pool.Length, offset, order + 1)
    {
      order := 0;
      while order < MAX_ORDER
        invariant Legal(pool.Length, offset, order)
      {
        AlignedIsModulo(offset, order + 1);
        var nextBlockCount := Pow2(order + 1);
        if offset % nextBlockCount != 0 {
          break;
        }
        if offset + nextBlockCount > pool.Length {
          break;
        }
        order := order + 1;
      }
    }

    /** Everything below `offset` has been carved. */
    ghost predicate Carved(offset: nat)
      reads this, pool, freeLists
    {
      && Shape() && |own| == pool.Length && Canon(own) && AllFree(own)
      && Addressed(start, pool[..]) && ListsOk(pool[..], freeLists[..], lists)
      && CarvedTo(own, pool[..], lists, offset)
      && forall k :: 0 <= k < NUM_ORDERS ==> Descending(lists[k])
    }

    method CarveAll()
      requires Carved(0)
      modifies pool, freeLists, this`lists
      ensures Valid() && own == old(own)
      ensures |lists| == NUM_ORDERS && forall k :: 0 <= k < NUM_ORDERS ==> Descending(lists[k])
    {
      var offset := 0;
      assert own[0].Covers(0);
      while offset < pool.Length
        invariant offset <= pool.Length && Carved(offset) && own == old(own)
        invariant offset < pool.Length ==> own[offset].idx == offset
      {
        var order := CarveOne(offset);
        offset := offset + Pow2(order);
      }
    }

    method CarveOne(offset: nat) returns (order: nat)
      requires offset < pool.Length && Carved(offset) && own[offset].idx == offset
      modifies pool, freeLists, this`lists
      ensures own[offset] == Tile(offset, order, true)
      ensures offset + Pow2(order) <= pool.Length && Carved(offset + Pow2(order))
      ensures offset + Pow2(order) < pool.Length ==> own[offset + Pow2(order)].idx == offset + Pow2(order)
    {
      hide ListsOk, CarvedTo, Canon;
      order := BiggestOrder(offset);
      GreedyBlock(own, offset, order);
      PushCarved(offset, order);
    }

    method PushCarved(offset: nat, order: nat)
      requires offset < pool.Length && Carved(offset) && own[offset] == Tile(offset, order, true) && order < NUM_ORDERS
      modifies pool, freeLists, this`lists
      ensures Carved(offset + Pow2(order))
    {
      hide ListsOk, CarvedTo, Canon, Pow2;
      var block := FindBlockByAddress(start + offset * PAGE_SIZE);
      LabelCarved(block, order);
      assert forall m :: 0 <= m < NUM_ORDERS ==> block !in lists[m] by {
        NotYetListed(own, old(pool[..]), lists, offset);
      }
      AddToFreelist(block, order);
      CarveStep(own, old(pool[..]), pool[..], old(lists), lists, offset, order);
      CarvedBelow(own, old(pool[..]), old(lists), offset, order);
      DescendingPush(old(lists)[order], offset);
    }

    method LabelCarved(block: nat, order: nat)
      requires ListsOk(pool[..], freeLists[..], lists) && block < pool.Length
      modifies pool
      ensures ListsOk(pool[..], freeLists[..], lists)
      ensures SameLabelsBut(old(pool[..]), pool[..], {block}) && pool[block].order == order && pool[block].isFree
    {
      pool[block] := pool[block].(order := order);
      pool[block] := pool[block].(isFree := true);
      ListsFrame(old(pool[..]), pool[..], freeLists[..], lists);
    }

    method FindBlockByAddress(address: nat) returns (i: int)
      requires Shape()
      ensures i == NULL <==> !(start <= address < end && address % PAGE_SIZE == 0)
      ensures i != NULL ==> 0 <= i < pool.Length && address == start + i * PAGE_SIZE
    {
      hide BitAnd;
      PageMask(address);
      PageIndex(start, pool.Length, address);
      if address < start || address >= end {
        return NULL;
      }
      if BitAnd(address, PAGE_SIZE - 1) != 0 {
        return NULL;
      }
      var offset := address - start;
      var blockIndex := offset / PAGE_SIZE;
      if blockIndex >= pool.Length {
        return NULL;
      }
      return blockIndex;
    }

    /** The address sum may wrap around; the range test then rejects it. */
    method GetBuddyBlock(block: nat, order: nat) returns (i: int)
      requires Shape() && block < pool.Length && pool[block].address == start + block * PAGE_SIZE
      requires order <= MAX_ORDER && Aligned(block, order)
      ensures i == if Buddy(block, order) < pool.Length then Buddy(block, order) else NULL
    {
      hide Aligned, BitXor, BlockSize, Buddy;
      XorFindsBuddy(block, order);
      var relative := pool[block].address - start;
      var buddyRelative := BitXor(relative, BlockSize(order));
      var buddyAddress := (start + buddyRelative) % WORD;
      BuddyBelowTop(block, order);
      WrapsBelowStart(start, pool.Length, Buddy(block, order));
      if buddyAddress < start || buddyAddress >= end {
        return NULL;
      }
      i := FindBlockByAddress(buddyAddress);
    }

    method AddToFreelist(block: nat, order: nat)
      requires ListsOk(pool[..], freeLists[..], lists)
      requires block < pool.Length && order < NUM_ORDERS
      requires forall m :: 0 <= m < NUM_ORDERS ==> block !in lists[m]
      modifies pool, freeLists, this`lists
      ensures ListsOk(pool[..], freeLists[..], lists)
      ensures Gained(old(lists), lists, block, order)
      ensures lists == old(lists)[order := [block] + old(lists)[order]]
      ensures pool[..] == old(pool[..])[block := old(pool[block]).(next := old(freeLists[order]))]
    {
      ListsPush(pool[..], freeLists[..], lists, block, order);
      pool[block] := pool[block].(next := freeLists[order]);
      freeLists[order] := block;
      lists := lists[order := [block] + lists[order]];
      assert pool[..] == old(pool[..])[block := old(pool[block]).(next := old(freeLists[order]))];
      assert freeLists[..] == old(freeLists[..])[order := block];
    }

    method RemoveFromFreelist(block: nat, order: nat) returns (ok: bool)
      requires ListsOk(pool[..], freeLists[..], lists) && order < NUM_ORDERS
      modifies pool, freeLists, this`lists
      ensures ok <==> block in old(lists[order])
      ensures !ok ==> lists == old(lists) && pool[..] == old(pool[..]) && freeLists[..] == old(freeLists[..])
      ensures ok ==> ListsOk(pool[..], freeLists[..], lists) && Dropped(old(lists), lists, block)
      ensures ok ==> lists == old(lists)[order := Without(old(lists)[order], block)]
      ensures SameLabelsBut(old(pool[..]), pool[..], {})
    {
      hide Chain;
      ghost var j;
      var prev, current;
      prev, current, j := FindSlot(block, order);
      if current == NULL {
        return false;
      }
      Splice(prev, block, order, j);
      CutIsWithout(old(lists)[order], j);
      return true;
    }

    /** The walk to the slot that points to `block`: it is `prev`'s `next`, or
        the list head. */
    method FindSlot(block: nat, order: nat) returns (prev: int, current: int, ghost j: nat)
      requires ListsOk(pool[..], freeLists[..], lists) && order < NUM_ORDERS
      ensures current == if block in lists[order] then block else NULL
      ensures current != NULL ==> IsSlot(prev, block, order, j)
    {
      ghost var l := lists[order];
      j := 0;
      prev := NULL;
      current := freeLists[order];
      assert l[0..] == l;
      while current != NULL && current != block
        invariant 0 <= j <= |l| && Chain(pool[..], current, l[j..])
        invariant block in l <==> block in l[j..]
        invariant prev == if j == 0 then NULL else l[j - 1]
        invariant 0 < j ==> l[j - 1] < pool.Length
        decreases |l| - j
      {
        assert l[j..][0] == l[j] && l[j..][1..] == l[j + 1..];
        prev := current;
        current := pool[current].next;
        j := j + 1;
      }
    }

    /** `block` is the `j`-th of its list and `prev` stands before it. */
    ghost predicate IsSlot(prev: int, block: nat, order: nat, j: nat)
      reads this
    {
      && order < |lists| && j < |lists[order]| && lists[order][j] == block < pool.Length
      && (prev == if j == 0 then NULL else lists[order][j - 1])
      && (0 < j ==> lists[order][j - 1] < pool.Length)
    }

    /** Take the `j`-th header out of its list. */
    method Splice(prev: int, block: nat, order: nat, ghost j: nat)
      requires ListsOk(pool[..], freeLists[..], lists) && order < NUM_ORDERS && IsSlot(prev, block, order, j)
      modifies pool, freeLists, this`lists
      ensures ListsOk(pool[..], freeLists[..], lists) && Dropped(old(lists), lists, block)
      ensures lists == old(lists)[order := Cut(old(lists)[order], j)]
      ensures SameLabelsBut(old(pool[..]), pool[..], {})
    {
      hide Chain;
      ghost var l := lists[order];
      ListsRemove(pool[..], freeLists[..], lists, order, j);
      CutElements(l, j);
      if prev == NULL {
        freeLists[order] := pool[block].next;
      } else {
        pool[prev] := pool[prev].(next := pool[block].next);
      }
      pool[block] := pool[block].(next := NULL);
      lists := lists[order := Cut(l, j)];
      assert pool[..] == Detach(old(pool[..]), l, j);
      assert freeLists[..] == if j == 0 then old(freeLists[..])[order := old(pool[block].next)] else old(freeLists[..]);
    }

    /** Detach the first block of list `order` and mark it allocated.  The
        panic on a failed removal is never taken: `ok` holds. */
    method TakeBlock(order: nat) returns (block: nat, ok: bool)
      requires Valid() && order < NUM_ORDERS && freeLists[order] != NULL
      modifies pool, freeLists, this
      ensures ok && Valid() && |own| == old(|own|) && block < |own|
      ensures Canon(old(own))
      ensures IsFree(old(own), block, order) && own[block] == Tile(block, order, false)
      ensures Tile(block, order, false) !in old(Live(own))
      ensures Live(own) == old(Live(own)) + {Tile(block, order, false)}
      ensures |old(lists)| == NUM_ORDERS && old(lists)[order] != [] && block == old(lists)[order][0]
      ensures lists == old(lists)[order := old(lists)[order][1..]]
    {
      ghost var was := pool[..];
      assert lists[order] != [] && lists[order][0] == freeLists[order];
      assert freeLists[order] in lists[order];
      block := freeLists[order];
      assert IsFree(own, block, order);
      ok := RemoveFromFreelist(block, order);
      if !ok {
        return;
      }
      ghost var mid := pool[..];
      pool[block] := pool[block].(isFree := false);
      ListsFrame(mid, pool[..], freeLists[..], lists);
      TakeInv(start, was, old(freeLists[..]), own, old(lists), block, order, pool[..], freeLists[..], lists);
      TakeLive(own, block);
      LiveHasNoHead(own, block);
      own := SetFree(own, block, false);
    }

    lemma HeaderFacts(x: int, i: nat)
      requires Inv(x) && i < |own|
      ensures |own| == pool.Length && pool[i].address == start + i * PAGE_SIZE
      ensures Canon(own) && IsTiling(own) && ListsOk(pool[..], freeLists[..], lists)
    {
    }

    /** What the headers of block heads say is what the lists hold: a head is
        in the list of its own order when it is marked free, in no other list,
        and in none when it is allocated; no other page is in any list. */
    lemma HeadersTellLists(i: nat, k: nat)
      requires Valid() && i < |own| && k < NUM_ORDERS
      ensures |lists| == NUM_ORDERS && i < pool.Length
      ensures i in lists[k] <==> own[i].idx == i && pool[i].isFree && pool[i].order == k
      ensures NoRepeats(lists[k]) && Chain(pool[..], freeLists[k], lists[k])
    {
      assert i in lists[k] <==> IsFree(own, i, k);
      if own[i].idx == i {
        assert pool[..][i] == pool[i];
      }
    }

    /** A page inside an allocated block is in no free list. */
    lemma NotListed(x: int, i: nat)
      requires Inv(x) && i < |own| && !own[i].free
      ensures forall m :: 0 <= m < NUM_ORDERS ==> i !in lists[m]
    {
    }

    /** The header writes of one turn of the splitting loop. */
    method LabelHalves(block: nat, buddy: nat, order: nat)
      requires ListsOk(pool[..], freeLists[..], lists)
      requires block < pool.Length && buddy < pool.Length && block != buddy
      requires forall m :: 0 <= m < NUM_ORDERS ==> buddy !in lists[m]
      modifies pool
      ensures ListsOk(pool[..], freeLists[..], lists)
      ensures SameLabelsBut(old(pool[..]), pool[..], {block, buddy})
      ensures pool[block].order == order && pool[block].isFree == old(pool[block].isFree)
      ensures pool[buddy].order == order && pool[buddy].isFree
    {
      pool[block] := pool[block].(order := order);
      pool[buddy] := pool[buddy].(order := order);
      pool[buddy] := pool[buddy].(isFree := true);
      pool[buddy] := pool[buddy].(next := NULL);
      ListsFrame(old(pool[..]), pool[..], freeLists[..], lists);
    }

    /** One turn of the splitting loop: the allocated block keeps its lower
        half, the upper half becomes a free block of order `order`.  The buddy
        lookup, which the source does not check for `NULL`, succeeds. */
    method SplitBlock(block: nat, order: nat)
      requires Valid() && block < |own| && order < MAX_ORDER && own[block] == Tile(block, order + 1, false)
      modifies pool, freeLists, this
      ensures Valid() && |own| == old(|own|) && own == Split(old(own), block)
      ensures |old(lists)| == NUM_ORDERS
      ensures lists == old(lists)[order := [block + Pow2(order)] + old(lists)[order]]
    {
      hide RegionInv, ListsOk, Canon, IsTiling, Pow2;
      HeaderFacts(NULL, block);
      UpperHalf(own, block);
      ghost var hi := block + Pow2(order);
      var buddyAddress := pool[block].address + BlockSize(order);
      assert buddyAddress == start + hi * PAGE_SIZE;
      var buddy := FindBlockByAddress(buddyAddress);
      NotListed(NULL, hi);
      LabelHalves(block, buddy, order);
      AddToFreelist(buddy, order);
      SplitInv(start, old(pool[..]), old(freeLists[..]), own, old(lists), block, pool[..], freeLists[..], lists);
      own := Split(own, block);
    }

    /** What one split does to the tiling. */
    lemma SplitOnce(block: nat)
      requires Valid() && block < |own| && own[block].idx == block && own[block].ord > 0 && !own[block].free
      ensures Split(own, block)[block] == Tile(block, own[block].ord - 1, false)
      ensures Live(Split(own, block)) == Live(own) - {own[block]} + {Tile(block, own[block].ord - 1, false)}
    {
      hide Aligned, ListsOk, Split;
      SplitLive(own, block);
      SplitAt(own, block, block);
    }

    /** The last write of the allocation: the block is in no list. */
    method Unlink(block: nat)
      requires Valid() && block < |own| && !own[block].free
      modifies pool
      ensures Valid()
    {
      hide Aligned, Canon;
      NotListed(NULL, block);
      ghost var mid := pool[..];
      pool[block] := pool[block].(next := NULL);
      ListsFrame(mid, pool[..], freeLists[..], lists);
    }

    /** The splitting loop and the final unlinking. */
    method SplitDown(block: nat, from: nat, order: nat)
      requires Valid() && order <= from <= MAX_ORDER && block < |own| && own[block] == Tile(block, from, false)
      modifies pool, freeLists, this
      ensures Valid() && |own| == old(|own|)
      ensures Live(own) == old(Live(own)) - {Tile(block, from, false)} + {Tile(block, order, false)}
      ensures |lists| == |old(lists)| == NUM_ORDERS && SplitListed(old(lists), lists, block, order, from)
    {
      hide RegionInv, Live, Split, Pow2;
      var current := from;
      ghost var rest := Live(own) - {Tile(block, from, false)};
      OneLiveAt(block);
      HeaderFacts(NULL, block);
      while current > order
        invariant order <= current <= from && Valid() && |own| == old(|own|)
        invariant own[block] == Tile(block, current, false)
        invariant Live(own) == rest + {Tile(block, current, false)}
        invariant forall k :: Tile(block, k, false) !in rest
        invariant |lists| == |old(lists)| == NUM_ORDERS && SplitListed(old(lists), lists, block, current, from)
      {
        SplitOnce(block);
        current := current - 1;
        SplitBlock(block, current);
      }
      Unlink(block);
    }

    lemma OneLiveAt(block: nat)
      requires Valid() && block < |own| && own[block].idx == block && !own[block].free
      ensures own[block] in Live(own) && forall k :: Tile(block, k, false) in Live(own) ==> k == own[block].ord
    {
      hide Aligned, ListsOk;
      LiveMembership(own, own[block]);
      forall k | Tile(block, k, false) in Live(own)
        ensures k == own[block].ord
      {
        LiveMembership(own, Tile(block, k, false));
      }
    }

    /** The first order, from `order` up, whose list is not empty. */
    method FirstNonEmpty(order: nat) returns (current: nat)
      requires Valid() && order <= MAX_ORDER
      ensures order <= current <= NUM_ORDERS
      ensures current <= MAX_ORDER ==> freeLists[current] != NULL
      ensures |lists| == NUM_ORDERS && forall k :: order <= k < current ==> lists[k] == []
      ensures forall j, k :: IsFree(own, j, k) && order <= k ==> current <= k
      ensures current > MAX_ORDER <==> !exists i :: FreeRun(own, i, order)
    {
      current := order;
      while current <= MAX_ORDER && freeLists[current] == NULL
        invariant order <= current <= NUM_ORDERS
        invariant forall k :: order <= k < current ==> lists[k] == []
      {
        current := current + 1;
      }
      NoneAtLeast(own, lists, order, current);
    }

    /** Lines 221-258 of `pmm_alloc_order`: the smallest sufficient block of
        this region, split down to `order`. */
    method AllocOrder(order: nat) returns (r: AllocResult)
      requires Valid() && order <= MAX_ORDER
      modifies pool, freeLists, this
      ensures Valid() && |own| == old(|own|)
      ensures r.Panicked? <==> !exists i :: FreeRun(old(own), i, order)
      ensures r.Panicked? ==> own == old(own)
      ensures r.Returned? ==>
                && start <= r.address < end && r.address % PAGE_SIZE == 0
                && TookSmallest(old(own), own, (r.address - start) / PAGE_SIZE, order)
      ensures r.Returned? ==>
                var i := (r.address - start) / PAGE_SIZE;
                i < |old(own)| && Picked(old(lists), lists, order, old(own)[i].ord, i)
    {
      hide RegionInv, FreeRun, Canon, IsTiling, Live, ListsOk, Runs.Apply, SplitListed;
      var current := FirstNonEmpty(order);
      if current > MAX_ORDER {
        return Panicked;
      }
      var target, ok := TakeBlock(current);
      if !ok {
        return Panicked;
      }
      SplitDown(target, current, order);
      HeaderFacts(NULL, target);
      StepDetermined(old(own), own, Runs.Alloc(target, order));
      return Returned(pool[target].address);
    }

    /** One turn of the coalescing loop: the block being freed, which the
        tiling still counts as allocated, swallows its free buddy.  The panic
        on a failed removal is never taken. */
    method Coalesce(block: nat, buddy: nat, order: nat) returns (merged: nat, ok: bool)
      requires Inv(block) && order < MAX_ORDER && block < |own| && own[block] == Tile(block, order, false)
      requires buddy == Buddy(block, order) && IsFree(own, buddy, order)
      modifies pool, freeLists, this
      ensures ok && merged < |own| == old(|own|) && Inv(merged) && pool[merged].isFree
      ensures own[merged] == Tile(merged, order + 1, false)
      ensures Tile(merged, order + 1, false) !in old(Live(own))
      ensures Live(own) == old(Live(own)) - {Tile(block, order, false)} + {Tile(merged, order + 1, false)}
      ensures merged == (if block < buddy then block else buddy) && Aligned(merged, order + 1)
      ensures |old(lists)| == NUM_ORDERS && lists == old(lists)[order := Without(old(lists)[order], buddy)]
    {
      hide RegionInv, ListsOk, Canon;
      HeaderFacts(block, block);
      HeaderFacts(block, buddy);
      BuddyFacts(block, order);
      assert buddy in lists[order] by { ListedIfFree(block, buddy, order); }
      merged := block;
      ok := RemoveFromFreelist(buddy, order);
      if !ok {
        return;
      }
      if pool[buddy].address < pool[block].address {
        merged := buddy;
      }
      assert merged == if block < buddy then block else buddy;
      LabelMerged(buddy, merged, order + 1);
      MergeInv(start, old(pool[..]), old(freeLists[..]), own, old(lists), merged, order, block, buddy,
               pool[..], freeLists[..], lists);
      MergeLive(own, merged, order, block);
      LiveMembership(own, Tile(merged, order + 1, false));
      own := Merge(own, merged, order);
    }

    lemma ListedIfFree(x: int, i: nat, k: nat)
      requires Inv(x) && IsFree(own, i, k)
      ensures k < NUM_ORDERS && |lists| == NUM_ORDERS && i in lists[k]
    {
    }

    /** The header writes of one turn of the coalescing loop. */
    method LabelMerged(buddy: nat, merged: nat, order: nat)
      requires ListsOk(pool[..], freeLists[..], lists)
      requires buddy < pool.Length && merged < pool.Length
      requires forall m :: 0 <= m < NUM_ORDERS ==> buddy !in lists[m]
      modifies pool
      ensures ListsOk(pool[..], freeLists[..], lists)
      ensures SameLabelsBut(old(pool[..]), pool[..], {buddy, merged})
      ensures pool[merged].order == order && pool[merged].isFree
    {
      pool[buddy] := pool[buddy].(isFree := false);
      pool[buddy] := pool[buddy].(next := NULL);
      pool[merged] := pool[merged].(order := order);
      pool[merged] := pool[merged].(isFree := true);
      ListsFrame(old(pool[..]), pool[..], freeLists[..], lists);
    }

    /** Whether the header of the buddy's first page says "free, and of this
        order".  The page is always a block head, so a stale header is never
        consulted and the answer is that of the tiling. */
    method BuddyMerges(block: nat, order: nat) returns (buddy: int)
      requires Inv(block) && order < MAX_ORDER && block < |own| && own[block] == Tile(block, order, false)
      ensures buddy == if IsFree(own, Buddy(block, order), order) then Buddy(block, order) else NULL
      ensures 0 <= Buddy(block, order) < |own| ==> own[Buddy(block, order)].idx == Buddy(block, order)
    {
      BuddyFacts(block, order);
      buddy := GetBuddyBlock(block, order);
      if buddy == NULL {
        return NULL;
      }
      BuddyIsHead(own, block);
      if !pool[buddy].isFree || pool[buddy].order != order {
        return NULL;
      }
    }

    /** Lines 306-347 of `pmm_free`, for the first page of a block: freeing a
        free block panics, freeing an allocated one always succeeds. */
    method Free(block: nat) returns (ok: bool)
      requires Valid() && block < |own| && own[block].idx == block
      modifies pool, freeLists, this
      ensures Valid()
      ensures ok <==> !old(own[block].free)
      ensures if ok then Freed(old(own), old(lists), block) else own == old(own) && lists == old(lists)
    {
      if pool[block].isFree {
        return false;
      }
      if pool[block].order > MAX_ORDER {
        return false;
      }
      BlockAligned(block, own[block].ord);
      if (pool[block].address - start) % BlockSize(pool[block].order) != 0 {
        return false;
      }
      SetFlag(block);
      ok := CoalesceAll(block);
      StepDetermined(old(own), own, Runs.Free(block));
    }

    /** The block at `block` was freed: one step of the state machine; the block
        that holds its pages now is the first of its list, the buddies merged
        into it are gone from theirs, and there are such exactly if the first
        one was free. */
    ghost predicate Freed(was: seq<Tile>, before: seq<seq<nat>>, block: nat)
      reads this
    {
      && block < |was| == |own| && Canon(was) && Runs.Enabled(was, Runs.Free(block))
      && own == Runs.Apply(was, Runs.Free(block)) && Live(own) == Live(was) - {was[block]}
      && own[block].free && Released(before, lists, block, was[block].ord, own[block].ord)
      && (own[block].ord > was[block].ord <==> MergesFirst(was, block))
    }

    method SetFlag(block: nat)
      requires Valid() && block < |own| && own[block].idx == block
      modifies pool
      ensures Inv(block) && pool[block] == old(pool[block]).(isFree := true)
    {
      pool[block] := pool[block].(isFree := true);
      ListsFrame(old(pool[..]), pool[..], freeLists[..], lists);
    }

    method CoalesceAll(first: nat) returns (ok: bool)
      requires Inv(first) && first < |own| && own[first].idx == first && !own[first].free && pool[first].isFree
      modifies pool, freeLists, this
      ensures ok && Valid() && |own| == old(|own|)
      ensures Live(own) == old(Live(own)) - {old(own[first])}
      ensures own[first].free && Released(old(lists), lists, first, old(own[first]).ord, own[first].ord)
      ensures own[first].ord > old(own[first]).ord <==> MergesFirst(old(own), first)
    {
      hide RegionInv, Canon, Merged, Base, Pow2, Aligned;
      HeadFacts(first, first);
      HeaderFacts(first, first);
      StartMerge(lists, own, first);
      ghost var rest := Live(own) - {own[first]};
      LiveMembership(own, own[first]);
      var block: nat := first;
      var order: nat := pool[block].order;
      while order < MAX_ORDER
        invariant block < |own| == old(|own|) == pool.Length && order <= MAX_ORDER && Inv(block) && pool[block].isFree
        invariant own[block] == Tile(block, order, false)
        invariant Live(own) == rest + {Tile(block, order, false)} && Tile(block, order, false) !in rest
        invariant old(own[first]).ord <= order && block == Base(first, order)
        invariant order == old(own[first]).ord ==> own == old(own)
        invariant order > old(own[first]).ord ==> MergesFirst(old(own), first)
        invariant |lists| == |old(lists)| == NUM_ORDERS
        invariant Merged(old(lists), lists, first, old(own[first]).ord, order)
      {
        var buddy := BuddyMerges(block, order);
        if buddy == NULL {
          break;
        }
        ghost var was := lists;
        MergeBase(first, block, order);
        block, ok := Coalesce(block, buddy, order);
        if !ok {
          return false;
        }
        MergeOneMore(old(lists), was, lists, first, old(own[first]).ord, order);
        order := order + 1;
      }
      HeadFacts(block, block);
      GiveLive(own, block);
      ghost var was := lists;
      OwnsPage(own, first, order);
      GiveBack(block, order);
      ReleaseAfterMerge(old(lists), was, lists, first, old(own[first]).ord, order);
      return true;
    }

    lemma HeadFacts(x: int, i: nat)
      requires Inv(x) && i < |own| && own[i].idx == i
      ensures IsTiling(own) && i < |own| == pool.Length && pool[i].order == own[i].ord <= MAX_ORDER
    {
    }

    method GiveBack(block: nat, order: nat)
      requires Inv(block) && block < |own| && own[block] == Tile(block, order, false) && pool[block].isFree
      requires order < MAX_ORDER ==> !IsFree(own, Buddy(block, order), order)
      modifies pool, freeLists, this
      ensures Valid() && own == SetFree(old(own), block, true)
      ensures |old(lists)| == NUM_ORDERS && lists == old(lists)[order := [block] + old(lists)[order]]
    {
      hide RegionInv, ListsOk, Canon;
      HeaderFacts(block, block);
      HeadFacts(block, block);
      NotListed(block, block);
      AddToFreelist(block, order);
      GiveInv(start, old(pool[..]), old(freeLists[..]), own, old(lists), block, pool[..], freeLists[..], lists);
      own := SetFree(own, block, true);
    }
  }
}
