/** The order in which single pages are handed out.  A page is taken from the
    shortest block that is first in its list, and splitting puts the rest of
    the block back so that it comes next: repeated allocation of single pages
    walks the lists from the lowest order up, and each block from its first
    page to its last. */
module Handouts {
  import opened Bits
  import opened Tiling
  import opened FreeLists
  import opened Carve

  function Span(b: nat, n: nat): (s: seq<nat>)
    ensures |s| == n && forall i :: 0 <= i < n ==> s[i] == b + i
  {
    seq(n, i requires 0 <= i => b + i)
  }

  /** The pages of the blocks of list `l`, all of order `k`. */
  function PagesOfList(l: seq<nat>, k: nat): seq<nat> {
    if |l| == 0 then [] else Span(l[0], Pow2(k)) + PagesOfList(l[1..], k)
  }

  /** The pages of the lists from order `k` up. */
  function PagesFrom(lists: seq<seq<nat>>, k: nat): seq<nat>
    requires k <= |lists|
    decreases |lists| - k
  {
    if k == |lists| then [] else PagesOfList(lists[k], k) + PagesFrom(lists, k + 1)
  }

  // ------------------------------------------------- what happens to the lists

  /** `l` without `b`, in the same order. */
  function Without(l: seq<nat>, b: int): seq<nat> {
    if |l| == 0 then [] else if l[0] == b then l[1..] else [l[0]] + Without(l[1..], b)
  }

  lemma {:induction false} CutIsWithout(l: seq<nat>, j: nat)
    requires NoRepeats(l) && j < |l|
    ensures Cut(l, j) == Without(l, l[j])
    decreases |l|
  {
    if j == 0 {
      assert Cut(l, 0) == l[1..];
    } else {
      CutIsWithout(l[1..], j - 1);
      assert Cut(l, j) == [l[0]] + Cut(l[1..], j - 1);
    }
  }

  /** Lists `order` up to `from` got the upper halves of a block being split. */
  ghost predicate SplitListed(before: seq<seq<nat>>, after: seq<seq<nat>>, block: nat, order: nat, from: nat)
    requires |before| == |after|
  {
    forall j {:trigger after[j]} :: 0 <= j < |after| ==>
      after[j] == if order <= j < from then [block + Pow2(j)] + before[j] else before[j]
  }

  /** An allocation of order `order` took the first block of the lowest list
      that has one, list `c`, and listed the halves it did not need. */
  ghost predicate Picked(before: seq<seq<nat>>, after: seq<seq<nat>>, order: nat, c: nat, block: nat) {
    && order <= c < |before| == |after| && before[c] != [] && block == before[c][0]
    && (forall j :: order <= j < c ==> before[j] == [])
    && SplitListed(before[c := before[c][1..]], after, block, order, c)
  }

  /** A block of order `order` grew to order `k`: each list on the way lost the
      buddy that was merged, the others are as before. */
  ghost predicate Merged(before: seq<seq<nat>>, after: seq<seq<nat>>, page: nat, order: nat, k: nat)
    requires |before| == |after|
  {
    forall j {:trigger after[j]} :: 0 <= j < |after| ==>
      after[j] == if order <= j < k then Without(before[j], Buddy(Base(page, j), j)) else before[j]
  }

  /** The block of order `order` at `page` was freed as part of the block of
      order `k`, which is now the first of its list. */
  ghost predicate Released(before: seq<seq<nat>>, after: seq<seq<nat>>, page: nat, order: nat, k: nat) {
    && order <= k < |before| == |after|
    && after[k] == [Base(page, k)] + before[k]
    && Merged(before, after[k := before[k]], page, order, k)
  }

  /** From the highest page to the lowest. */
  ghost predicate Descending(l: seq<nat>) {
    forall i, j :: 0 <= i < j < |l| ==> l[i] > l[j]
  }

  lemma DescendingPush(l: seq<nat>, b: nat)
    requires Descending(l) && forall x :: x in l ==> x < b
    ensures Descending([b] + l)
  {
    assert forall j :: 0 <= j < |l| ==> l[j] in l;
  }

  /** A single page that is not merged is the next to be handed out. */
  lemma ReleasedPage(before: seq<seq<nat>>, after: seq<seq<nat>>, page: nat)
    requires Released(before, after, page, 0, 0)
    ensures PagesFrom(after, 0) == [page] + PagesFrom(before, 0)
  {
    hide PagesFrom, PagesOfList, Span;
    PagesStep(before, 0);
    PagesStep(after, 0);
    assert after[0 := before[0]][1..] == after[1..];
    forall j | 1 <= j < |after|
      ensures after[j] == before[j]
    {
      assert after[0 := before[0]][j] == before[j];
    }
    SameAbove(before, after, 1);
    FirstBlock(after[0], 0);
    SinglePage(page);
    assert after[0][1..] == before[0];
    Regroup([page], PagesOfList(before[0], 0), PagesFrom(before, 1));
  }

  // -------------------------------------------------- taking the first page

  /** `after` is `before` when the first block of list `c`, the lowest that is
      not empty, has been split down to a single page and that page taken. */
  ghost predicate FirstTaken(before: seq<seq<nat>>, after: seq<seq<nat>>, c: nat, b: nat) {
    && c < |before| == |after| && before[c] != [] && b == before[c][0]
    && (forall j :: 0 <= j < c ==> before[j] == [])
    && (forall j {:trigger after[j]} :: 0 <= j < c ==> after[j] == [b + Pow2(j)])
    && after[c] == before[c][1..]
    && (forall j :: c < j < |before| ==> after[j] == before[j])
  }

  lemma {:induction false} SkipEmpty(lists: seq<seq<nat>>, k: nat, c: nat)
    requires k <= c <= |lists| && forall j :: k <= j < c ==> lists[j] == []
    ensures PagesFrom(lists, k) == PagesFrom(lists, c)
    decreases c - k
  {
    if k < c {
      SkipEmpty(lists, k + 1, c);
    }
  }

  lemma {:induction false} SameAbove(a: seq<seq<nat>>, b: seq<seq<nat>>, k: nat)
    requires k <= |a| == |b| && forall j :: k <= j < |a| ==> a[j] == b[j]
    ensures PagesFrom(a, k) == PagesFrom(b, k)
    decreases |a| - k
  {
    if k < |a| {
      SameAbove(a, b, k + 1);
    }
  }

  lemma PagesStep(lists: seq<seq<nat>>, k: nat)
    requires k < |lists|
    ensures PagesFrom(lists, k) == PagesOfList(lists[k], k) + PagesFrom(lists, k + 1)
  {
  }

  /** What a split leaves in the lower lists is the rest of the block, in
      order. */
  lemma {:induction false} SplitRest(lists: seq<seq<nat>>, b: nat, j: nat, c: nat)
    requires j <= c < |lists| && forall i {:trigger lists[i]} :: j <= i < c ==> lists[i] == [b + Pow2(i)]
    ensures Pow2(j) <= Pow2(c)
    ensures PagesFrom(lists, j) == Span(b + Pow2(j), Pow2(c) - Pow2(j)) + PagesFrom(lists, c)
    decreases c - j
  {
    hide PagesFrom, PagesOfList, Span;
    if j == c {
      NoSpan(b + Pow2(j), PagesFrom(lists, c));
    } else {
      var p := Pow2(j);
      assert Pow2(j + 1) == 2 * p;
      SplitRest(lists, b, j + 1, c);
      PagesStep(lists, j);
      OneBlock(b + p, j);
      SpanJoin(b + p, p, Pow2(c) - 2 * p);
      Regroup(Span(b + p, p), Span(b + 2 * p, Pow2(c) - 2 * p), PagesFrom(lists, c));
    }
  }

  lemma Regroup(a: seq<nat>, b: seq<nat>, c: seq<nat>)
    ensures a + (b + c) == (a + b) + c
  {
  }

  lemma NoSpan(b: nat, s: seq<nat>)
    ensures Span(b, 0) + s == s
  {
  }

  lemma OneBlock(b: nat, k: nat)
    ensures PagesOfList([b], k) == Span(b, Pow2(k))
  {
    assert PagesOfList([b][1..], k) == [];
  }

  lemma SpanJoin(b: nat, m: nat, n: nat)
    ensures Span(b, m) + Span(b + m, n) == Span(b, m + n)
  {
  }

  /** Taking a page makes the second page the first. */
  lemma TakingPops(before: seq<seq<nat>>, after: seq<seq<nat>>, c: nat, b: nat)
    requires FirstTaken(before, after, c, b)
    ensures PagesFrom(before, 0) == [b] + PagesFrom(after, 0)
  {
    hide PagesFrom, PagesOfList, Span, Pow2;
    SkipEmpty(before, 0, c);
    SplitRest(after, b, 0, c);
    PagesStep(before, c);
    PagesStep(after, c);
    SameAbove(before, after, c + 1);
    FirstBlock(before[c], c);
    SinglePage(b);
    var one, others := Span(b, 1), Span(b + 1, Pow2(c) - 1);
    var list, rest := PagesOfList(after[c], c), PagesFrom(after, c + 1);
    SpanJoin(b, 1, Pow2(c) - 1);
    Regroup(one + others, list, rest);
    Regroup(one, others, list + rest);
  }

  lemma SinglePage(b: nat)
    ensures Span(b, 1) == [b] && Pow2(0) == 1
  {
  }

  lemma FirstBlock(l: seq<nat>, k: nat)
    requires l != []
    ensures PagesOfList(l, k) == Span(l[0], Pow2(k)) + PagesOfList(l[1..], k)
  {
  }

  // ------------------------------------- the pages are exactly the unused ones

  ghost predicate Distinct(s: seq<nat>) {
    forall i, j :: 0 <= i < j < |s| ==> s[i] != s[j]
  }

  lemma DistinctJoin(a: seq<nat>, b: seq<nat>)
    requires Distinct(a) && Distinct(b) && forall x :: x in a ==> x !in b
    ensures Distinct(a + b)
  {
    forall i, j | 0 <= i < j < |a + b|
      ensures (a + b)[i] != (a + b)[j]
    {
      if i < |a| && j >= |a| {
        assert a[i] in a && b[j - |a|] in b;
      }
    }
  }

  /** The lists of a region, as `RegionInv` has them. */
  ghost predicate Tracked(own: seq<Tile>, lists: seq<seq<nat>>) {
    && IsTiling(own) && |lists| == NUM_ORDERS && ListsTrack(own, lists)
    && forall k :: 0 <= k < NUM_ORDERS ==> NoRepeats(lists[k])
  }

  /** A list of distinct free blocks of order `k`. */
  ghost predicate FreeBlocks(own: seq<Tile>, l: seq<nat>, k: nat) {
    NoRepeats(l) && forall b :: b in l ==> IsFree(own, b, k)
  }

  lemma {:induction false} ListPages(own: seq<Tile>, l: seq<nat>, k: nat)
    requires IsTiling(own) && FreeBlocks(own, l, k)
    ensures Distinct(PagesOfList(l, k))
    ensures forall x :: x in PagesOfList(l, k) <==> 0 <= x < |own| && own[x].free && own[x].ord == k && own[x].idx in l
    decreases |l|
  {
    if l != [] {
      var head, rest := Span(l[0], Pow2(k)), PagesOfList(l[1..], k);
      assert FreeBlocks(own, l[1..], k) && l[0] !in l[1..];
      ListPages(own, l[1..], k);
      BlockPages(own, l[0], k);
      DistinctJoin(head, rest);
      assert l == [l[0]] + l[1..];
    }
  }

  lemma BlockPages(own: seq<Tile>, b: nat, k: nat)
    requires IsTiling(own) && IsFree(own, b, k)
    ensures Distinct(Span(b, Pow2(k)))
    ensures forall x :: x in Span(b, Pow2(k)) <==> 0 <= x < |own| && own[x] == Tile(b, k, true)
  {
    hide Aligned, Pow2;
    var s := Span(b, Pow2(k));
    TileAt(own, b);
    forall x
      ensures x in s <==> 0 <= x < |own| && own[x] == Tile(b, k, true)
    {
      if 0 <= x < |own| && own[x] == Tile(b, k, true) {
        TileAt(own, x);
        assert s[x - b] == x;
      }
      if x in s {
        assert own[b].Covers(x);
      }
    }
  }

  lemma {:induction false} ListsPages(own: seq<Tile>, lists: seq<seq<nat>>, k: nat)
    requires Tracked(own, lists) && k <= NUM_ORDERS
    ensures Distinct(PagesFrom(lists, k))
    ensures forall x :: x in PagesFrom(lists, k) <==> 0 <= x < |own| && own[x].free && own[x].ord >= k
    decreases NUM_ORDERS - k
  {
    hide Distinct, PagesOfList;
    if k == NUM_ORDERS {
      NoLargerOrder(own);
    } else {
      ListsPages(own, lists, k + 1);
      OneListPages(own, lists, k);
      DistinctJoin(PagesOfList(lists[k], k), PagesFrom(lists, k + 1));
    }
  }

  lemma NoLargerOrder(own: seq<Tile>)
    requires IsTiling(own)
    ensures Distinct([]) && forall x :: 0 <= x < |own| ==> own[x].ord < NUM_ORDERS
  {
    hide Aligned, Pow2;
  }

  lemma OneListPages(own: seq<Tile>, lists: seq<seq<nat>>, k: nat)
    requires Tracked(own, lists) && k < NUM_ORDERS
    ensures Distinct(PagesOfList(lists[k], k))
    ensures forall x :: x in PagesOfList(lists[k], k) <==> 0 <= x < |own| && own[x].free && own[x].ord == k
  {
    hide Distinct, PagesOfList, Aligned;
    assert forall b :: b in lists[k] ==> IsFree(own, b, k);
    ListPages(own, lists[k], k);
    forall x | 0 <= x < |own| && own[x].free && own[x].ord == k
      ensures own[x].idx in lists[k]
    {
      TileAt(own, x);
      assert own[x].Covers(own[x].idx);
      assert IsFree(own, own[x].idx, k);
    }
  }

  // ------------------------------------------------------------ all regions

  function Addresses(start: nat, pages: seq<nat>): (s: seq<nat>)
    ensures |s| == |pages| && forall i :: 0 <= i < |s| ==> s[i] == start + pages[i] * PAGE_SIZE
  {
    seq(|pages|, i requires 0 <= i < |pages| => start + pages[i] * PAGE_SIZE)
  }

  /** The addresses of all unused pages, in the order in which single pages are
      handed out: region after region. */
  function Upcoming(starts: seq<nat>, ll: seq<seq<seq<nat>>>): seq<nat>
    requires |starts| == |ll|
    decreases |ll|
  {
    if |ll| == 0 then [] else Addresses(starts[0], PagesFrom(ll[0], 0)) + Upcoming(starts[1..], ll[1..])
  }

  /** The first region that has a page hands out its first. */
  lemma {:induction false} UpcomingPops(starts: seq<nat>, ll: seq<seq<seq<nat>>>, a: nat, l: seq<seq<nat>>, b: nat)
    requires a < |ll| == |starts| && PagesFrom(ll[a], 0) == [b] + PagesFrom(l, 0)
    requires forall i :: 0 <= i < a ==> PagesFrom(ll[i], 0) == []
    ensures Upcoming(starts, ll) == [starts[a] + b * PAGE_SIZE] + Upcoming(starts, ll[a := l])
    decreases |ll|
  {
    hide PagesFrom;
    if a == 0 {
      assert ll[a := l][1..] == ll[1..];
      assert Addresses(starts[0], PagesFrom(ll[0], 0)) ==
             [starts[0] + b * PAGE_SIZE] + Addresses(starts[0], PagesFrom(l, 0));
    } else {
      UpcomingPops(starts[1..], ll[1..], a - 1, l, b);
      assert ll[a := l][1..] == ll[1..][a - 1 := l];
      assert PagesFrom(ll[0], 0) == [];
    }
  }

  lemma {:induction false} UpcomingNone(starts: seq<nat>, ll: seq<seq<seq<nat>>>)
    requires |ll| == |starts| && forall i :: 0 <= i < |ll| ==> PagesFrom(ll[i], 0) == []
    ensures Upcoming(starts, ll) == []
    decreases |ll|
  {
    hide PagesFrom;
    if |ll| > 0 {
      UpcomingNone(starts[1..], ll[1..]);
      assert PagesFrom(ll[0], 0) == [];
    }
  }

  lemma {:induction false} UpcomingAppend(starts: seq<nat>, ll: seq<seq<seq<nat>>>, start: nat, l: seq<seq<nat>>)
    requires |ll| == |starts|
    ensures Upcoming(starts + [start], ll + [l]) == Upcoming(starts, ll) + Addresses(start, PagesFrom(l, 0))
    decreases |ll|
  {
    hide PagesFrom;
    if |ll| == 0 {
      assert (ll + [l])[1..] == [] && (starts + [start])[1..] == [];
    } else {
      UpcomingAppend(starts[1..], ll[1..], start, l);
      assert (ll + [l])[1..] == ll[1..] + [l] && (starts + [start])[1..] == starts[1..] + [start];
      var first := Addresses(starts[0], PagesFrom(ll[0], 0));
      Regroup(first, Upcoming(starts[1..], ll[1..]), Addresses(start, PagesFrom(l, 0)));
    }
  }
}
