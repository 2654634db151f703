/** Live blocks by address, over all regions of the physical memory manager. */
module Extents {
  import opened Bits
  import opened Tiling
  import opened TilingSteps
  import opened FreeLists
  import opened Handouts
  import opened Regions

  /** A live block: the address it was handed out under and its order. */
  datatype Extent = Extent(address: nat, order: nat) {
    function End(): nat { address + BlockSize(order) }

    predicate Disjoint(other: Extent) {
      End() <= other.address || other.End() <= address
    }
  }

  ghost function ExtentOf(start: nat, t: Tile): Extent {
    Extent(start + t.idx * PAGE_SIZE, t.ord)
  }

  /** The live blocks of regions that start at `starts` and are tiled by `ts`. */
  ghost function LiveExtents(starts: seq<nat>, ts: seq<seq<Tile>>): set<Extent>
    requires |starts| == |ts|
  {
    set a, t | 0 <= a < |ts| && t in Live(ts[a]) :: ExtentOf(starts[a], t)
  }

  function RegionEnd(start: nat, own: seq<Tile>): nat { start + |own| * PAGE_SIZE }

  /** Tiled regions that do not overlap. */
  ghost predicate Apart(starts: seq<nat>, ts: seq<seq<Tile>>) {
    && |starts| == |ts|
    && (forall a :: 0 <= a < |ts| ==> IsTiling(ts[a]))
    && (forall a, b :: 0 <= a < b < |ts| ==>
          RegionEnd(starts[a], ts[a]) <= starts[b] || RegionEnd(starts[b], ts[b]) <= starts[a])
  }

  lemma InRegion(start: nat, own: seq<Tile>, t: Tile)
    requires IsTiling(own) && t in Live(own)
    ensures start <= ExtentOf(start, t).address < ExtentOf(start, t).End() <= RegionEnd(start, own)
  {
  }

  lemma AlignedInRegion(start: nat, own: seq<Tile>, t: Tile)
    requires IsTiling(own) && t in Live(own)
    ensures BlockSize(t.ord) > 0 && (ExtentOf(start, t).address - start) % BlockSize(t.ord) == 0
  {
    hide Aligned, Pow2;
    LiveMembership(own, t);
    assert t.Fits(|own|);
    BlockAligned(t.idx, t.ord);
  }

  lemma TilesDisjoint(own: seq<Tile>, t: Tile, u: Tile)
    requires IsTiling(own) && t in Live(own) && u in Live(own) && t != u
    ensures t.End() <= u.idx || u.End() <= t.idx
  {
    hide Aligned;
    LiveMembership(own, t);
    LiveMembership(own, u);
    assert !own[t.idx].Covers(u.idx);
    assert !own[u.idx].Covers(t.idx);
  }

  /** Blocks that are live at the same time never overlap, within a region or
      across regions. */
  lemma LiveDisjoint(starts: seq<nat>, ts: seq<seq<Tile>>)
    requires Apart(starts, ts)
    ensures forall e, f :: e in LiveExtents(starts, ts) && f in LiveExtents(starts, ts) && e != f ==> e.Disjoint(f)
  {
    forall e, f | e in LiveExtents(starts, ts) && f in LiveExtents(starts, ts) && e != f
      ensures e.Disjoint(f)
    {
      var a, t :| 0 <= a < |ts| && t in Live(ts[a]) && e == ExtentOf(starts[a], t);
      var b, u :| 0 <= b < |ts| && u in Live(ts[b]) && f == ExtentOf(starts[b], u);
      PairDisjoint(starts, ts, a, t, b, u);
    }
  }

  lemma PairDisjoint(starts: seq<nat>, ts: seq<seq<Tile>>, a: nat, t: Tile, b: nat, u: Tile)
    requires Apart(starts, ts) && a < |ts| && b < |ts| && t in Live(ts[a]) && u in Live(ts[b])
    requires a != b || t != u
    ensures ExtentOf(starts[a], t).Disjoint(ExtentOf(starts[b], u))
    ensures ExtentOf(starts[a], t) != ExtentOf(starts[b], u)
  {
    hide Aligned, Pow2, IsTiling;
    InRegion(starts[a], ts[a], t);
    InRegion(starts[b], ts[b], u);
    if a == b {
      TilesDisjoint(ts[a], t, u);
    }
  }

  /** A block more in one region is one extent more. */
  lemma ExtentsGain(starts: seq<nat>, ts: seq<seq<Tile>>, a: nat, own: seq<Tile>, t: Tile)
    requires |starts| == |ts| && a < |ts| && Live(own) == Live(ts[a]) + {t}
    ensures LiveExtents(starts, ts[a := own]) == LiveExtents(starts, ts) + {ExtentOf(starts[a], t)}
  {
  }

  /** A block less in one region is one extent less. */
  lemma ExtentsLose(starts: seq<nat>, ts: seq<seq<Tile>>, a: nat, own: seq<Tile>, t: Tile)
    requires Apart(starts, ts) && a < |ts| && t in Live(ts[a]) && Live(own) == Live(ts[a]) - {t}
    ensures LiveExtents(starts, ts[a := own]) == LiveExtents(starts, ts) - {ExtentOf(starts[a], t)}
  {
    hide IsTiling;
    var after, before := LiveExtents(starts, ts[a := own]), LiveExtents(starts, ts);
    forall e | e in before && e != ExtentOf(starts[a], t)
      ensures e in after
    {
      var b, u :| 0 <= b < |ts| && u in Live(ts[b]) && e == ExtentOf(starts[b], u);
      assert u in Live(ts[a := own][b]);
    }
    forall e | e in after
      ensures e in before && e != ExtentOf(starts[a], t)
    {
      var b, u :| 0 <= b < |ts| && u in Live(ts[a := own][b]) && e == ExtentOf(starts[b], u);
      PairDisjoint(starts, ts, a, t, b, u);
    }
  }

  /** What one allocation adds: a block that was not live before and overlaps
      nothing that was. */
  lemma ExtentsNew(starts: seq<nat>, ts: seq<seq<Tile>>, a: nat, own: seq<Tile>, t: Tile)
    requires a < |ts| == |starts| && Apart(starts, ts[a := own])
    requires Live(own) == Live(ts[a]) + {t} && t !in Live(ts[a])
    ensures LiveExtents(starts, ts[a := own]) == LiveExtents(starts, ts) + {ExtentOf(starts[a], t)}
    ensures forall e :: e in LiveExtents(starts, ts) ==> e.Disjoint(ExtentOf(starts[a], t))
  {
    hide IsTiling;
    ExtentsGain(starts, ts, a, own, t);
    forall e | e in LiveExtents(starts, ts)
      ensures e.Disjoint(ExtentOf(starts[a], t))
    {
      var b, u :| 0 <= b < |ts| && u in Live(ts[b]) && e == ExtentOf(starts[b], u);
      PairDisjoint(starts, ts[a := own], b, u, a, t);
    }
  }

  /** Live blocks start at a page of some region. */
  lemma LiveSomewhere(starts: seq<nat>, ts: seq<seq<Tile>>, e: Extent) returns (a: nat)
    requires Apart(starts, ts) && e in LiveExtents(starts, ts)
    ensures a < |ts| && starts[a] <= e.address < RegionEnd(starts[a], ts[a])
    ensures (e.address - starts[a]) % PAGE_SIZE == 0
  {
    hide IsTiling, BlockSize;
    var b, t :| 0 <= b < |ts| && t in Live(ts[b]) && e == ExtentOf(starts[b], t);
    InRegion(starts[b], ts[b], t);
    a := b;
  }

  /** At the first page of a block, "some block is live here" is that block's
      allocation status. */
  lemma LiveAt(starts: seq<nat>, ts: seq<seq<Tile>>, a: nat, i: nat, k: nat)
    requires Apart(starts, ts) && a < |ts| && i < |ts[a]| && ts[a][i].idx == i
    ensures Extent(starts[a] + i * PAGE_SIZE, k) in LiveExtents(starts, ts) <==> !ts[a][i].free && k == ts[a][i].ord
  {
    hide Aligned, Pow2, BlockSize;
    var t := ts[a][i];
    var e := Extent(starts[a] + i * PAGE_SIZE, k);
    LiveMembership(ts[a], t);
    if !t.free && k == t.ord {
      assert e == ExtentOf(starts[a], t);
    }
    if e in LiveExtents(starts, ts) {
      var b, u :| 0 <= b < |ts| && u in Live(ts[b]) && e == ExtentOf(starts[b], u);
      InRegion(starts[b], ts[b], u);
      LiveMembership(ts[b], u);
    }
  }

  lemma LiveShows(starts: seq<nat>, ts: seq<seq<Tile>>, a: nat)
    requires |starts| == |ts| && a < |ts|
    ensures Live(ts[a]) != {} ==> LiveExtents(starts, ts) != {}
  {
    if t :| t in Live(ts[a]) {
      assert ExtentOf(starts[a], t) in LiveExtents(starts, ts);
    }
  }

  /** A live block starts at the first page of a tile. */
  lemma LiveIsHead(starts: seq<nat>, ts: seq<seq<Tile>>, a: nat, i: nat, k: nat)
    requires Apart(starts, ts) && a < |ts| && i < |ts[a]|
    requires Extent(starts[a] + i * PAGE_SIZE, k) in LiveExtents(starts, ts)
    ensures ts[a][i].idx == i
  {
    hide Aligned, Pow2, BlockSize;
    var e := Extent(starts[a] + i * PAGE_SIZE, k);
    var b, u :| 0 <= b < |ts| && u in Live(ts[b]) && e == ExtentOf(starts[b], u);
    InRegion(starts[b], ts[b], u);
    LiveMembership(ts[b], u);
  }

  // ---------------------------------------------------------- unused pages

  /** Address of page `i` of a block or region at `start`. */
  function PageAt(start: nat, i: nat): nat { start + i * PAGE_SIZE }

  /** The pages of a block, by address. */
  ghost function PagesOf(e: Extent): set<nat> {
    set i: nat | i < Pow2(e.order) :: PageAt(e.address, i)
  }

  /** The pages, by address, that no live block has. */
  ghost function UnusedPages(starts: seq<nat>, ts: seq<seq<Tile>>): set<nat>
    requires |starts| == |ts|
  {
    set a: nat, i: nat | a < |ts| && i < |ts[a]| && ts[a][i].free :: PageAt(starts[a], i)
  }

  /** Page `i` of region `a` is the only one with its address. */
  lemma PageIsUnused(starts: seq<nat>, ts: seq<seq<Tile>>, a: nat, i: nat)
    requires Apart(starts, ts) && a < |ts| && i < |ts[a]|
    ensures PageAt(starts[a], i) in UnusedPages(starts, ts) <==> ts[a][i].free
  {
    hide IsTiling;
    var x := PageAt(starts[a], i);
    if x in UnusedPages(starts, ts) {
      var b: nat, j: nat :| b < |ts| && j < |ts[b]| && ts[b][j].free && x == PageAt(starts[b], j);
      assert a == b;
    }
  }

  lemma PageOfExtent(start: nat, t: Tile, i: nat)
    ensures PageAt(start, i) in PagesOf(ExtentOf(start, t)) <==> t.Covers(i)
  {
    if t.Covers(i) {
      var j: nat := i - t.idx;
      assert PageAt(start, i) == PageAt(ExtentOf(start, t).address, j);
    }
  }

  /** Taking a block makes exactly its pages used, in its own region. */
  lemma TakenPages(before: seq<Tile>, after: seq<Tile>, t: Tile, p: nat)
    requires IsTiling(before) && IsTiling(after) && |before| == |after| && p < |after|
    requires Live(after) == Live(before) + {t} && t !in Live(before)
    ensures after[p].free <==> before[p].free && !t.Covers(p)
    ensures t.Covers(p) ==> before[p].free
  {
    hide Aligned, Pow2, IsTiling;
    UnallocatedMeansFree(before, p);
    UnallocatedMeansFree(after, p);
    if t.Covers(p) {
      forall u | u in Live(before)
        ensures !u.Covers(p)
      {
        TilesDisjoint(after, t, u);
      }
    }
  }

  /** Conservation: the pages of a block taken leave the unused pages, and no
      other page does. */
  lemma UnusedWithout(starts: seq<nat>, ts: seq<seq<Tile>>, a: nat, own: seq<Tile>, t: Tile)
    requires a < |ts| == |starts| && Apart(starts, ts) && Apart(starts, ts[a := own]) && |own| == |ts[a]|
    requires Live(own) == Live(ts[a]) + {t} && t !in Live(ts[a])
    ensures PagesOf(ExtentOf(starts[a], t)) <= UnusedPages(starts, ts)
    ensures UnusedPages(starts, ts[a := own]) == UnusedPages(starts, ts) - PagesOf(ExtentOf(starts[a], t))
  {
    hide PagesOf, UnusedPages, ExtentOf;
    var after := ts[a := own];
    forall x: nat
      ensures x in PagesOf(ExtentOf(starts[a], t)) ==> x in UnusedPages(starts, ts)
      ensures x in UnusedPages(starts, after) <==>
                x in UnusedPages(starts, ts) && x !in PagesOf(ExtentOf(starts[a], t))
    {
      if exists b: nat, i: nat :: b < |ts| && i < |ts[b]| && x == PageAt(starts[b], i) {
        var b: nat, i: nat :| b < |ts| && i < |ts[b]| && x == PageAt(starts[b], i);
        PageWithout(starts, ts, a, own, t, b, i);
      } else {
        NoSuchPage(starts, ts, x);
        NoSuchPage(starts, after, x);
        if x in PagesOf(ExtentOf(starts[a], t)) {
          assert after[a] == own;
          var i := PageOfRegion(starts[a], own, t, x);
        }
      }
    }
  }

  lemma PageWithout(starts: seq<nat>, ts: seq<seq<Tile>>, a: nat, own: seq<Tile>, t: Tile, b: nat, i: nat)
    requires a < |ts| == |starts| && Apart(starts, ts) && Apart(starts, ts[a := own]) && |own| == |ts[a]|
    requires Live(own) == Live(ts[a]) + {t} && t !in Live(ts[a]) && b < |ts| && i < |ts[b]|
    ensures var x, pages := PageAt(starts[b], i), PagesOf(ExtentOf(starts[a], t));
            && (x in pages ==> x in UnusedPages(starts, ts))
            && (x in UnusedPages(starts, ts[a := own]) <==> x in UnusedPages(starts, ts) && x !in pages)
  {
    hide PagesOf, UnusedPages, IsTiling, Live;
    PageIsUnused(starts, ts, b, i);
    PageIsUnused(starts, ts[a := own], b, i);
    if a == b {
      PageOfExtent(starts[a], t, i);
      TakenPages(ts[a], own, t, i);
    } else {
      NotItsPage(starts, ts[a := own], a, t, b, i);
    }
  }

  lemma NotItsPage(starts: seq<nat>, ts: seq<seq<Tile>>, a: nat, t: Tile, b: nat, i: nat)
    requires Apart(starts, ts) && a < |ts| && b < |ts| && a != b && t in Live(ts[a]) && i < |ts[b]|
    ensures PageAt(starts[b], i) !in PagesOf(ExtentOf(starts[a], t))
  {
    hide IsTiling;
    InRegion(starts[a], ts[a], t);
  }

  lemma NoSuchPage(starts: seq<nat>, ts: seq<seq<Tile>>, x: nat)
    requires |starts| == |ts|
    requires forall b: nat, i: nat :: b < |ts| && i < |ts[b]| ==> x != PageAt(starts[b], i)
    ensures x !in UnusedPages(starts, ts)
  {
  }

  lemma PageOfRegion(start: nat, own: seq<Tile>, t: Tile, x: nat) returns (i: nat)
    requires IsTiling(own) && t in Live(own) && x in PagesOf(ExtentOf(start, t))
    ensures i < |own| && x == PageAt(start, i)
  {
    hide Aligned, Pow2;
    LiveMembership(own, t);
    assert t.Fits(|own|);
    var j: nat :| j < Pow2(t.ord) && x == PageAt(ExtentOf(start, t).address, j);
    i := t.idx + j;
  }

  /** There is an unused page exactly if there is a run of order 0. */
  lemma UnusedMeansRun(starts: seq<nat>, ts: seq<seq<Tile>>)
    requires |starts| == |ts|
    ensures UnusedPages(starts, ts) == {} <==> forall a, i :: 0 <= a < |ts| ==> !FreeRun(ts[a], i, 0)
  {
    forall a: nat, i: nat | a < |ts|
      ensures FreeRun(ts[a], i, 0) <==> i < |ts[a]| && ts[a][i].free
    {
      assert Aligned(i, 0) && Pow2(0) == 1;
    }
    if a: nat, i: nat :| a < |ts| && i < |ts[a]| && ts[a][i].free {
      assert PageAt(starts[a], i) in UnusedPages(starts, ts);
    }
  }

  // ------------------------------------------------- what is live is enough

  /** The live blocks of one region, seen from outside. */
  lemma LiveHere(starts: seq<nat>, ts: seq<seq<Tile>>, us: seq<seq<Tile>>, a: nat, t: Tile)
    requires Apart(starts, ts) && Apart(starts, us) && |ts| == |us| && a < |ts| && t in Live(ts[a])
    requires forall b :: 0 <= b < |ts| ==> |ts[b]| == |us[b]|
    requires LiveExtents(starts, ts) == LiveExtents(starts, us)
    ensures t in Live(us[a])
  {
    hide Aligned, Pow2, IsTiling, BlockSize;
    assert ExtentOf(starts[a], t) in LiveExtents(starts, us);
    var b, u :| 0 <= b < |us| && u in Live(us[b]) && ExtentOf(starts[a], t) == ExtentOf(starts[b], u);
    InRegion(starts[a], ts[a], t);
    InRegion(starts[b], us[b], u);
    assert a == b;
    assert t == u;
  }

  /** The live blocks, by address, determine the state of every region. */
  lemma SameExtentsSameTilings(starts: seq<nat>, ts: seq<seq<Tile>>, us: seq<seq<Tile>>)
    requires Apart(starts, ts) && Apart(starts, us) && |ts| == |us|
    requires forall b :: 0 <= b < |ts| ==> |ts[b]| == |us[b]| && Canon(ts[b]) && Canon(us[b])
    requires LiveExtents(starts, ts) == LiveExtents(starts, us)
    ensures ts == us
  {
    hide IsTiling, LiveExtents, Live, Canon;
    forall a | 0 <= a < |ts|
      ensures ts[a] == us[a]
    {
      forall t
        ensures t in Live(ts[a]) <==> t in Live(us[a])
      {
        if t in Live(ts[a]) {
          LiveHere(starts, ts, us, a, t);
        }
        if t in Live(us[a]) {
          LiveHere(starts, us, ts, a, t);
        }
      }
      SameLiveSameTiling(ts[a], us[a]);
    }
  }

  // ------------------------------------------------------ the order of pages

  /** The pages of one region, by address. */
  lemma RegionPages(start: nat, own: seq<Tile>, lists: seq<seq<nat>>)
    requires Tracked(own, lists)
    ensures var s := Addresses(start, PagesFrom(lists, 0));
            Distinct(s) && forall x :: x in s <==> exists i: nat :: i < |own| && own[i].free && x == PageAt(start, i)
  {
    hide PagesFrom, IsTiling;
    var pages := PagesFrom(lists, 0);
    var s := Addresses(start, pages);
    ListsPages(own, lists, 0);
    forall x | x in s
      ensures exists i: nat :: i < |own| && own[i].free && x == PageAt(start, i)
    {
      var j :| 0 <= j < |s| && s[j] == x;
      assert pages[j] in pages && x == PageAt(start, pages[j]);
    }
    forall i: nat | i < |own| && own[i].free
      ensures PageAt(start, i) in s
    {
      assert i in pages;
      var j :| 0 <= j < |pages| && pages[j] == i;
      assert s[j] == PageAt(start, i);
    }
  }

  /** The pages to come are exactly the unused pages, each once. */
  lemma {:induction false} UpcomingExact(starts: seq<nat>, ts: seq<seq<Tile>>, ll: seq<seq<seq<nat>>>)
    requires Apart(starts, ts) && |ll| == |ts| && forall a :: 0 <= a < |ts| ==> Tracked(ts[a], ll[a])
    ensures Distinct(Upcoming(starts, ll))
    ensures forall x :: x in Upcoming(starts, ll) <==> x in UnusedPages(starts, ts)
    decreases |ts|
  {
    hide Tracked, PagesFrom, Distinct, IsTiling;
    if |ts| == 0 {
      NoneDistinct();
    } else {
      var s, rest := Addresses(starts[0], PagesFrom(ll[0], 0)), Upcoming(starts[1..], ll[1..]);
      RegionPages(starts[0], ts[0], ll[0]);
      UpcomingExact(starts[1..], ts[1..], ll[1..]);
      FirstRegionPages(starts, ts);
      assert forall x :: x in UnusedPages(starts, ts) <==> x in s || x in rest;
      DistinctJoin(s, rest);
    }
  }

  lemma NoneDistinct()
    ensures Distinct([])
  {
  }

  lemma FirstRegionPages(starts: seq<nat>, ts: seq<seq<Tile>>)
    requires Apart(starts, ts) && |ts| > 0
    ensures forall x :: x in UnusedPages(starts, ts) <==>
              || (exists i: nat :: i < |ts[0]| && ts[0][i].free && x == PageAt(starts[0], i))
              || x in UnusedPages(starts[1..], ts[1..])
    ensures forall i: nat :: i < |ts[0]| ==> PageAt(starts[0], i) !in UnusedPages(starts[1..], ts[1..])
  {
    hide IsTiling;
    forall x | x in UnusedPages(starts, ts)
      ensures || (exists i: nat :: i < |ts[0]| && ts[0][i].free && x == PageAt(starts[0], i))
              || x in UnusedPages(starts[1..], ts[1..])
    {
      var a: nat, i: nat :| a < |ts| && i < |ts[a]| && ts[a][i].free && x == PageAt(starts[a], i);
      if a > 0 {
        assert ts[1..][a - 1] == ts[a] && starts[1..][a - 1] == starts[a];
      }
    }
    forall x | x in UnusedPages(starts[1..], ts[1..])
      ensures x in UnusedPages(starts, ts) && forall i: nat :: i < |ts[0]| ==> x != PageAt(starts[0], i)
    {
      var a: nat, i: nat :|
        a < |ts| - 1 && i < |ts[1..][a]| && ts[1..][a][i].free && x == PageAt(starts[1..][a], i);
      assert ts[a + 1][i].free && x == PageAt(starts[a + 1], i);
    }
  }
}
