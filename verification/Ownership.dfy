/** Who owns which frame: page tables, demand-mapped pages, the boot tables.
    The invariant of the virtual memory manager, on values, and the steps that
    keep it. */
module Ownership {
  import opened Options
  import opened Paging

  /** Directory slot of `KERNEL_VIRTUAL_BASE`, 0xC0000000. */
  const KERNEL_SLOT: nat := 768

  /** `ident` is the frame of the boot identity table; `frames` are the frames
      the physical memory manager has handed out as single pages; `demand`
      maps the virtual pages faulted in, and not unmapped since, to the frame
      each was given. */
  ghost predicate Owned(m: Memory, dir: nat, ident: nat, frames: set<nat>, demand: map<nat, nat>) {
    && dir < FRAMES && ident < FRAMES && dir != ident && dir !in frames && ident !in frames
    && TablesOwned(m, dir, ident, frames)
    && SmallPages(m, dir)
    && TablesDistinct(m, dir, ident)
    && DemandMapped(m, dir, frames, demand)
    && DemandApart(demand)
  }

  /** A table is a frame of the allocator's, or the boot table in one of its
      two slots. */
  ghost predicate TablesOwned(m: Memory, dir: nat, ident: nat, frames: set<nat>)
    requires dir < FRAMES
  {
    forall s :: 0 <= s < ENTRIES && m[dir][s].present ==>
      m[dir][s].address in frames || (m[dir][s].address == ident && (s == 0 || s == KERNEL_SLOT))
  }

  /** No directory entry has its page-size bit set, so that the walk always
      has two levels. */
  ghost predicate SmallPages(m: Memory, dir: nat)
    requires dir < FRAMES
  {
    forall s :: 0 <= s < ENTRIES ==> !m[dir][s].pat
  }

  /** No two slots share a table, except the two boot slots. */
  ghost predicate TablesDistinct(m: Memory, dir: nat, ident: nat)
    requires dir < FRAMES
  {
    forall s, r ::
      && 0 <= s < r < ENTRIES && m[dir][s].present && m[dir][r].present
      && m[dir][s].address == m[dir][r].address ==>
      s == 0 && r == KERNEL_SLOT && m[dir][s].address == ident
  }

  /** Pages faulted in translate to their frame, which is no page table. */
  ghost predicate DemandMapped(m: Memory, dir: nat, frames: set<nat>, demand: map<nat, nat>)
    requires dir < FRAMES
  {
    forall v :: v in demand ==>
      && v < FRAMES && demand[v] in frames && !IsTable(m, dir, demand[v])
      && Translate(m, dir, v) == Some(demand[v])
  }

  /** No two pages faulted in share a frame. */
  ghost predicate DemandApart(demand: map<nat, nat>) {
    forall v, w :: v in demand && w in demand && demand[v] == demand[w] ==> v == w
  }

  /** Which pages one table entry translates: one page, or the two pages at
      the same offset of the two boot windows. */
  lemma SharesExactly(m: Memory, dir: nat, ident: nat, frames: set<nat>, demand: map<nat, nat>, v: nat, w: nat)
    requires Owned(m, dir, ident, frames, demand) && v < FRAMES && w < FRAMES && m[dir][Slot(v)].present
    ensures SharesEntry(m, dir, v, w) <==>
              || v == w
              || (&& Index(v) == Index(w) && {Slot(v), Slot(w)} == {0, KERNEL_SLOT}
                  && m[dir][0].present && m[dir][KERNEL_SLOT].present
                  && m[dir][0].address == ident == m[dir][KERNEL_SLOT].address)
  {
    if SharesEntry(m, dir, v, w) && v != w {
      var s, r := Slot(v), Slot(w);
      assert s != r;
      if s < r {
        assert s == 0 && r == KERNEL_SLOT;
      } else {
        assert r == 0 && s == KERNEL_SLOT;
      }
    } else if Index(v) == Index(w) && {Slot(v), Slot(w)} == {0, KERNEL_SLOT} {
      assert Slot(v) in {0, KERNEL_SLOT} && Slot(w) in {0, KERNEL_SLOT};
    }
  }

  lemma DirectoryIsNoTable(m: Memory, dir: nat, ident: nat, frames: set<nat>, demand: map<nat, nat>)
    requires Owned(m, dir, ident, frames, demand)
    ensures !IsTable(m, dir, dir)
  {
  }

  /** Frames handed out later do not matter. */
  lemma MoreFrames(m: Memory, dir: nat, ident: nat, frames: set<nat>, demand: map<nat, nat>, frames': set<nat>)
    requires Owned(m, dir, ident, frames, demand) && frames <= frames' && dir !in frames' && ident !in frames'
    ensures Owned(m, dir, ident, frames', demand)
  {
  }

  lemma InstallOwned(m: Memory, dir: nat, ident: nat, frames: set<nat>, demand: map<nat, nat>, s: nat, f: nat, e: Word)
    requires Owned(m, dir, ident, frames, demand) && s < ENTRIES && f < FRAMES && f in frames
    requires !IsTable(m, dir, f) && f !in demand.Values
    requires !m[dir][s].present && e.present && e.address == f && !e.pat
    ensures Owned(Install(m, dir, s, f, e), dir, ident, frames, demand)
  {
    DirectoryIsNoTable(m, dir, ident, frames, demand);
    InstallHarmless(m, dir, s, f, e);
    var m' := Install(m, dir, s, f, e);
    forall g | IsTable(m', dir, g)
      ensures g == f || IsTable(m, dir, g)
    {
    }
    assert TablesDistinct(m', dir, ident) by {
      forall r | 0 <= r < ENTRIES && m[dir][r].present
        ensures m[dir][r].address != f
      {
      }
    }
  }

  /** Filling an entry that is not present disturbs no page faulted in. */
  lemma FillOwned(m: Memory, dir: nat, ident: nat, frames: set<nat>, demand: map<nat, nat>, v: nat, e: Word)
    requires Owned(m, dir, ident, frames, demand) && v < FRAMES && m[dir][Slot(v)].present
    requires !m[m[dir][Slot(v)].address][Index(v)].present
    ensures Owned(Store(m, m[dir][Slot(v)].address, Index(v), e), dir, ident, frames, demand)
  {
    DirectoryIsNoTable(m, dir, ident, frames, demand);
    StoreEffect(m, dir, v, e);
    var m' := Store(m, m[dir][Slot(v)].address, Index(v), e);
    forall w | w in demand
      ensures Translate(m', dir, w) == Some(demand[w]) && !IsTable(m', dir, demand[w])
    {
      assert !SharesEntry(m, dir, w, v);
    }
  }

  /** Recording a fault: the new page is backed by a frame of its own. */
  lemma FaultOwned(m: Memory, dir: nat, ident: nat, frames: set<nat>, demand: map<nat, nat>, v: nat, f: nat)
    requires Owned(m, dir, ident, frames, demand) && v < FRAMES && v !in demand
    requires f in frames && !IsTable(m, dir, f) && f !in demand.Values && Translate(m, dir, v) == Some(f)
    ensures Owned(m, dir, ident, frames, demand[v := f])
  {
    assert forall w :: w in demand ==> demand[w] in demand.Values;
  }

  ghost function Surviving(m: Memory, dir: nat, demand: map<nat, nat>, v: nat): map<nat, nat>
    requires dir < FRAMES && v < FRAMES
  {
    map w | w in demand && w < FRAMES && !SharesEntry(m, dir, w, v) :: demand[w]
  }

  lemma ClearOwned(m: Memory, dir: nat, ident: nat, frames: set<nat>, demand: map<nat, nat>, v: nat)
    requires Owned(m, dir, ident, frames, demand) && v < FRAMES && m[dir][Slot(v)].present
    ensures Owned(Store(m, m[dir][Slot(v)].address, Index(v), ZERO), dir, ident, frames, Surviving(m, dir, demand, v))
  {
    DirectoryIsNoTable(m, dir, ident, frames, demand);
    StoreEffect(m, dir, v, ZERO);
  }

  /** Writing to a demand-mapped frame disturbs nothing. */
  lemma DataOwned(m: Memory, dir: nat, ident: nat, frames: set<nat>, demand: map<nat, nat>, f: nat, page: Page)
    requires Owned(m, dir, ident, frames, demand) && f < FRAMES && f != dir && !IsTable(m, dir, f)
    ensures Owned(m[f := page], dir, ident, frames, demand)
  {
    DataStoreHarmless(m, dir, f, page);
  }
}
