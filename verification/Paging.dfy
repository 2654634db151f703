/** Two-level 32-bit paging (section 4.3, "32-Bit Paging", of the Intel SDM,
    Volume 3A) over a model of physical memory, and what writes to page tables
    do to address translation. */
module Paging {
  import opened Options

  const ENTRIES: nat := 1024        // words in a page, entries in a table
  const FRAMES: nat := 0x10_0000    // frames, and virtual pages, of a 4 GiB space

  /** A 32-bit word of memory, read as a page-table entry.  Page-directory
      entries have the same layout, except that `pat` is the page-size bit and
      `dirty` and `global` are ignored. */
  datatype Entry = Entry(
    present: bool, rw: bool, user: bool, writeThrough: bool, cacheDisabled: bool,
    accessed: bool, dirty: bool, pat: bool, global: bool, avl: nat, address: nat)

  const ZERO: Entry := Entry(false, false, false, false, false, false, false, false, false, 0, 0)

  type Word = e: Entry | e.address < FRAMES && e.avl < 8 witness ZERO

  function ZeroPage(): (p: seq<Word>)
    ensures |p| == ENTRIES && forall i :: 0 <= i < ENTRIES ==> p[i] == ZERO
  {
    seq(ENTRIES, _ => ZERO)
  }

  type Page = p: seq<Word> | |p| == ENTRIES witness ZeroPage()

  function ZeroMemory(): (m: seq<Page>)
    ensures |m| == FRAMES
  {
    seq(FRAMES, _ => ZeroPage())
  }

  type Memory = m: seq<Page> | |m| == FRAMES witness ZeroMemory()

  /** Directory slot and table index of virtual page `v`. */
  function Slot(v: nat): nat { v / ENTRIES }

  function Index(v: nat): nat { v % ENTRIES }

  /** The frame that virtual page `v` translates to, by the hardware's walk
      from the directory in frame `dir`. */
  function Translate(m: Memory, dir: nat, v: nat): Option<nat>
    requires dir < FRAMES && v < FRAMES
  {
    var pde := m[dir][Slot(v)];
    if !pde.present then None
    else
      var pte := m[pde.address][Index(v)];
      if !pte.present then None else Some(pte.address)
  }

  /** Frame `f` holds the table of some directory slot. */
  ghost predicate IsTable(m: Memory, dir: nat, f: nat)
    requires dir < FRAMES
  {
    exists s :: 0 <= s < ENTRIES && m[dir][s].present && m[dir][s].address == f
  }

  /** Virtual pages `v` and `w` are translated by one and the same entry. */
  ghost predicate SharesEntry(m: Memory, dir: nat, v: nat, w: nat)
    requires dir < FRAMES && v < FRAMES && w < FRAMES
  {
    && Index(v) == Index(w)
    && m[dir][Slot(v)].present && m[dir][Slot(w)].present
    && m[dir][Slot(v)].address == m[dir][Slot(w)].address
  }

  function Store(m: Memory, f: nat, i: nat, e: Word): Memory
    requires f < FRAMES && i < ENTRIES
  {
    m[f := m[f][i := e]]
  }

  ghost predicate SameTranslation(m: Memory, m': Memory, dir: nat)
    requires dir < FRAMES
  {
    forall v: nat :: v < FRAMES ==> Translate(m', dir, v) == Translate(m, dir, v)
  }

  /** `m'` maps page `v` to `to` on top of `m`: pages that use the entry of `v`
      had no translation and now have `to`, all others keep theirs. */
  ghost predicate MapEffect(m: Memory, m': Memory, dir: nat, v: nat, to: Option<nat>)
    requires dir < FRAMES && v < FRAMES
  {
    && m'[dir][Slot(v)].present
    && (forall w: nat :: w < FRAMES ==>
         if SharesEntry(m', dir, w, v) then Translate(m, dir, w) == None && Translate(m', dir, w) == to
         else Translate(m', dir, w) == Translate(m, dir, w))
  }

  /** `m'` unmaps page `v`: pages that use its entry lose their translation,
      all others keep theirs. */
  ghost predicate UnmapEffect(m: Memory, m': Memory, dir: nat, v: nat)
    requires dir < FRAMES && v < FRAMES
  {
    && m'[dir] == m[dir]
    && (forall w: nat :: w < FRAMES ==>
         if SharesEntry(m, dir, w, v) then Translate(m', dir, w) == None
         else Translate(m', dir, w) == Translate(m, dir, w))
  }

  /** Mapping a page and unmapping it again restores every translation. */
  lemma MapThenUnmap(m: Memory, m': Memory, m'': Memory, dir: nat, v: nat, to: Option<nat>)
    requires dir < FRAMES && v < FRAMES
    requires MapEffect(m, m', dir, v, to) && UnmapEffect(m', m'', dir, v)
    ensures SameTranslation(m, m'', dir)
  {
  }

  /** Writing one table entry affects exactly the pages translated by it. */
  lemma StoreEffect(m: Memory, dir: nat, v: nat, e: Word)
    requires dir < FRAMES && v < FRAMES && m[dir][Slot(v)].present && m[dir][Slot(v)].address != dir
    ensures var m' := Store(m, m[dir][Slot(v)].address, Index(v), e);
            && m'[dir] == m[dir]
            && forall w: nat :: w < FRAMES ==>
                 Translate(m', dir, w) ==
                   if SharesEntry(m, dir, w, v) then (if e.present then Some(e.address) else None)
                   else Translate(m, dir, w)
  {
  }

  /** Writing to a frame that is neither the directory nor a table changes no
      translation. */
  lemma DataStoreHarmless(m: Memory, dir: nat, f: nat, page: Page)
    requires dir < FRAMES && f < FRAMES && f != dir && !IsTable(m, dir, f)
    ensures SameTranslation(m, m[f := page], dir)
    ensures m[f := page][dir] == m[dir]
  {
  }

  /** Memory after a zeroed table in frame `f` has been hooked into an empty
      directory slot. */
  function Install(m: Memory, dir: nat, s: nat, f: nat, e: Word): Memory
    requires dir < FRAMES && s < ENTRIES && f < FRAMES
  {
    Store(m[f := ZeroPage()], dir, s, e)
  }

  /** A new, empty table changes no translation. */
  lemma InstallHarmless(m: Memory, dir: nat, s: nat, f: nat, e: Word)
    requires dir < FRAMES && s < ENTRIES && f < FRAMES && f != dir && !IsTable(m, dir, f) && !IsTable(m, dir, dir)
    requires !m[dir][s].present && e.present && e.address == f
    ensures SameTranslation(m, Install(m, dir, s, f, e), dir)
    ensures var m' := Install(m, dir, s, f, e);
            && m'[dir] == m[dir][s := e] && m'[f] == ZeroPage()
            && forall g :: 0 <= g < FRAMES && g != f && g != dir ==> m'[g] == m[g]
  {
    var zeroed: Memory := m[f := ZeroPage()];
    DataStoreHarmless(m, dir, f, ZeroPage());
    var m' := Install(m, dir, s, f, e);
    forall v: nat | v < FRAMES
      ensures Translate(m', dir, v) == Translate(zeroed, dir, v)
    {
      if Slot(v) == s {
        assert m'[f][Index(v)] == ZERO;
      } else if m[dir][Slot(v)].present {
        assert m[dir][Slot(v)].address != dir;
      }
    }
  }
}
