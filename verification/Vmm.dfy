/** The virtual memory manager: demand paging over the physical allocator. */
module Vmms {
  import opened Bits
  import opened FreeLists
  import opened Regions
  import opened Extents
  import opened Pmms
  import opened Options
  import opened Paging
  import opened Ownership
  import opened Alignment
  import opened Boot
  import opened Spaces

  /** `Stopped` is a kernel panic; the machine halts there. */
  datatype PteResult = Pte(frame: nat, index: nat) | NoPte | Stopped
  datatype MapResult = Mapped | Refused | Halted
  datatype FaultResult = Serviced | Panic

  /** The two index fields of a virtual address. */
  lemma AddressFields(va: nat)
    requires va < WORD
    ensures va / PAGE_SIZE < FRAMES
    ensures BitAnd(va / 0x40_0000, 0x3FF) == Slot(va / PAGE_SIZE)
    ensures BitAnd(va / PAGE_SIZE, 0x3FF) == Index(va / PAGE_SIZE)
  {
    hide BitAnd;
    LowTenBits(va / 0x40_0000);
    LowTenBits(va / PAGE_SIZE);
    assert va / 0x40_0000 == va / PAGE_SIZE / ENTRIES;
  }

  lemma LowTenBits(a: nat)
    ensures BitAnd(a, 0x3FF) == a % ENTRIES
  {
    hide BitAnd;
    assert Pow2(10) == 1024 by { assert Pow2(5) == 32; }
    AndLowMask(a, 10);
    LowBitsIsModulo(a, 10);
  }

  lemma LowBit(a: nat)
    ensures BitAnd(a, 1) == a % 2
  {
    AndLowMask(a, 1);
    LowBitsIsModulo(a, 1);
    assert Pow2(1) == 2;
  }

  /** A newly allocated page is a frame that was not in use. */
  lemma NewFrame(before: set<Extent>, after: set<Extent>, address: nat)
    requires after == before + {Extent(address, 0)} && address % PAGE_SIZE == 0
    requires forall e :: e in before ==> e.Disjoint(Extent(address, 0)) && e.address % PAGE_SIZE == 0
    ensures SinglePages(after) == SinglePages(before) + {address / PAGE_SIZE}
    ensures address / PAGE_SIZE !in SinglePages(before)
  {
  }

  /** An empty table `t` now serves the formerly empty slot `s`, and no
      translation changed. */
  ghost predicate TableAdded(m: Memory, m': Memory, dir: nat, s: nat, t: nat) {
    && dir < FRAMES && s < ENTRIES && t < FRAMES && t != dir
    && !m[dir][s].present && m'[dir][s].present && m'[dir][s].address == t && m'[t] == ZeroPage()
    && SameTranslation(m, m', dir)
    && (forall g :: IsTable(m', dir, g) ==> g == t || IsTable(m, dir, g))
    && (forall g :: 0 <= g < FRAMES && g != t && g != dir ==> m'[g] == m[g])
  }

  lemma AddedSlot(m: Memory, m': Memory, dir: nat, s: nat, t: nat)
    requires TableAdded(m, m', dir, s, t)
    ensures dir < FRAMES && s < ENTRIES && m'[dir][s].present && m'[dir][s].address == t < FRAMES
  {
  }

  /** Slot and entry for page `v` exist, and getting them there changed no
      translation: either the table was there, or it is new and empty. */
  ghost predicate HasTable(dir: nat, a: Space, b: Space, v: nat, t: nat, i: nat) {
    && dir < FRAMES && v < FRAMES && t < FRAMES && i == Index(v)
    && b.mem[dir][Slot(v)].present && b.mem[dir][Slot(v)].address == t
    && if a.mem[dir][Slot(v)].present then b == a
       else
         && TableAdded(a.mem, b.mem, dir, Slot(v), t) && b.demand == a.demand
         && t > 0 && Consumes(a, b, [t * PAGE_SIZE]) && t !in SinglePages(a.live)
  }

  /** Only an entry of an existing table can be present. */
  lemma TableFacts(dir: nat, a: Space, b: Space, v: nat, t: nat, i: nat)
    requires HasTable(dir, a, b, v, t, i)
    ensures dir < FRAMES && v < FRAMES && t < FRAMES && i < ENTRIES && i == Index(v)
    ensures b.mem[dir][Slot(v)].address == t
    ensures b.mem[t][i].present ==> b == a && Translate(a.mem, dir, v) != None
  {
  }

  /** Filling an entry of `b`, where `b` translates like `m`. */
  lemma FilledEffect(m: Memory, b: Memory, dir: nat, v: nat, e: Word)
    requires dir < FRAMES && v < FRAMES && SameTranslation(m, b, dir)
    requires b[dir][Slot(v)].present && b[dir][Slot(v)].address != dir
    requires !b[b[dir][Slot(v)].address][Index(v)].present
    ensures var m' := Store(b, b[dir][Slot(v)].address, Index(v), e);
            MapEffect(m, m', dir, v, if e.present then Some(e.address) else None)
  {
    StoreEffect(b, dir, v, e);
    var m' := Store(b, b[dir][Slot(v)].address, Index(v), e);
    var to := if e.present then Some(e.address) else None;
    forall w: nat | w < FRAMES
      ensures if SharesEntry(m', dir, w, v) then Translate(m, dir, w) == None && Translate(m', dir, w) == to
              else Translate(m', dir, w) == Translate(m, dir, w)
    {
      assert Translate(b, dir, w) == Translate(m, dir, w);
      assert SharesEntry(m', dir, w, v) <==> SharesEntry(b, dir, w, v);
    }
  }

  /** Filling an entry touches no data frame. */
  lemma FilledFrames(dir: nat, a: Space, b: Space, v: nat, t: nat, e: Word)
    requires HasTable(dir, a, b, v, t, Index(v)) && t != dir
    ensures DataKept(dir, a, b.(mem := Store(b.mem, t, Index(v), e)), {})
  {
    hide SameTranslation, ZeroPage, SinglePages, Consumes;
    var m' := Store(b.mem, t, Index(v), e);
    assert m'[dir] == b.mem[dir];
    forall g | g in SinglePages(a.live) && g < FRAMES && g != dir && !IsTable(a.mem, dir, g)
      ensures !IsTable(m', dir, g) && m'[g] == a.mem[g]
    {
      assert IsTable(m', dir, g) <==> IsTable(b.mem, dir, g);
      assert g != t by {
        assert a.mem[dir][Slot(v)].present ==> IsTable(a.mem, dir, t);
      }
    }
  }

  lemma Filled(dir: nat, a: Space, b: Space, v: nat, t: nat, e: Word)
    requires HasTable(dir, a, b, v, t, Index(v)) && t != dir && !b.mem[t][Index(v)].present
    ensures Remapped(dir, a, b.(mem := Store(b.mem, t, Index(v), e)), v, if e.present then Some(e.address) else None)
  {
    hide DataKept, MapEffect, SinglePages, ZeroPage, IsTable;
    FilledEffect(a.mem, b.mem, dir, v, e);
    FilledFrames(dir, a, b, v, t, e);
    assert Store(b.mem, t, Index(v), e)[dir] == b.mem[dir];
  }

  /** How a mapping ends, and when it ends that way. */
  ghost predicate MapOutcome(dir: nat, a: Space, va: nat, pa: nat, flags: Flags, r: MapResult, b: Space) {
    && (r.Mapped? <==> CanMap(dir, a, va, pa))
    && (r.Mapped? ==> DidMap(dir, a, va, pa, flags, b))
    && (r.Refused? ==> (b == a && MayNotMap(dir, a, va, pa)) || LostPageZero(dir, a, va, pa, b))
    && (r.Halted? <==> NeedsTable(dir, a, va, pa) && a.next == [])
    && (r.Halted? ==> b == a)
  }

  lemma RefusedOutcome(dir: nat, a: Space, va: nat, pa: nat, flags: Flags)
    requires MayNotMap(dir, a, va, pa)
    ensures MapOutcome(dir, a, va, pa, flags, Refused, a)
  {
  }

  lemma HaltedOutcome(dir: nat, a: Space, va: nat, pa: nat, flags: Flags)
    requires NeedsTable(dir, a, va, pa) && a.next == []
    ensures MapOutcome(dir, a, va, pa, flags, Halted, a)
  {
  }

  lemma LostOutcome(dir: nat, a: Space, va: nat, pa: nat, flags: Flags, b: Space)
    requires NeedsTable(dir, a, va, pa) && b.mem == a.mem && b.demand == a.demand && Consumes(a, b, [0])
    ensures MapOutcome(dir, a, va, pa, flags, Refused, b)
  {
  }

  lemma MappedDid(dir: nat, a: Space, va: nat, pa: nat, b: Space)
    requires MapOutcome(dir, a, va, pa, FAULT_FLAGS, Mapped, b)
    ensures DidMap(dir, a, va, pa, FAULT_FLAGS, b) && Translate(a.mem, dir, va / PAGE_SIZE) == None
  {
    hide WithMapping, DataKept;
    assert SharesEntry(b.mem, dir, va / PAGE_SIZE, va / PAGE_SIZE);
  }

  /** Table and entry put together. */
  lemma MappedBy(dir: nat, a: Space, va: nat, pa: nat, flags: Flags, tabled: Memory, t: nat, b: Space)
    requires va % PAGE_SIZE == 0 && pa % PAGE_SIZE == 0 && va < WORD && pa < WORD && dir < FRAMES && t < FRAMES
    requires tabled == WithTable(a.mem, dir, va / PAGE_SIZE, t, flags)
    requires var v, f := va / PAGE_SIZE, pa / PAGE_SIZE;
             && b.mem == Store(tabled, t, Index(v), NewPte(tabled[t][Index(v)], f, flags))
             && b.mem[dir][Slot(v)].address == t
             && Remapped(dir, a, b, v, if flags.present then Some(f) else None)
    ensures MapOutcome(dir, a, va, pa, flags, Mapped, b)
  {
    hide WithTable, DataKept;
    assert SharesEntry(b.mem, dir, va / PAGE_SIZE, va / PAGE_SIZE);
  }

  lemma MapEffectStable(m: Memory, m': Memory, m'': Memory, dir: nat, v: nat, to: Option<nat>)
    requires dir < FRAMES && v < FRAMES && MapEffect(m, m', dir, v, to)
    requires SameTranslation(m', m'', dir) && m''[dir] == m'[dir]
    ensures MapEffect(m, m'', dir, v, to)
  {
  }

  /** A frame the allocator had not handed out: not the directory, no page
      table, and behind no page faulted in. */
  ghost predicate NewPage(dir: nat, ident: nat, a: Space, b: Space, address: nat) {
    var f := address / PAGE_SIZE;
    && address % PAGE_SIZE == 0 && f < FRAMES && f != dir && f != ident && dir < FRAMES
    && b.mem == a.mem && b.demand == a.demand && Consumes(a, b, [address])
    && Extent(address, 0) in b.live && f in SinglePages(b.live) && f !in SinglePages(a.live)
    && !IsTable(a.mem, dir, f) && f !in a.demand.Values
  }

  /** The state after clearing and recording the page that `c` maps. */
  ghost predicate Cleared(dir: nat, c: Space, d: Space, v: nat, f: nat, page: Page) {
    && dir < FRAMES && v < FRAMES && f < FRAMES
    && v !in c.demand && !IsTable(c.mem, dir, f)
    && d == Space(c.mem[f := if v == 0 then page else ZeroPage()], c.demand[v := f], c.live, c.next)
    && SameTranslation(c.mem, d.mem, dir) && d.mem[dir] == c.mem[dir]
  }

  /** The steps of a serviced fault put together: a page taken, mapped, and
      cleared. */
  lemma FaultComposed(dir: nat, ident: nat, a: Space, b: Space, c: Space, d: Space, aligned: nat, address: nat)
    requires NewPage(dir, ident, a, b, address) && address != 0
    requires DidMap(dir, b, aligned, address, FAULT_FLAGS, c)
    requires Cleared(dir, c, d, aligned / PAGE_SIZE, address / PAGE_SIZE, a.mem[address / PAGE_SIZE])
    ensures FaultServiced(dir, a, d, aligned / PAGE_SIZE, address / PAGE_SIZE)
  {
    hide MapEffect, Translate, WithMapping, ZeroPage, SinglePages, Consumes, DataKept, FaultPages, SameTranslation;
    var v, f := aligned / PAGE_SIZE, address / PAGE_SIZE;
    MapEffectStable(b.mem, c.mem, d.mem, dir, v, Some(f));
    assert d.mem[dir] == c.mem[dir];
    assert d.mem == c.mem[f := d.mem[f]];
    ComposedPages(dir, ident, a, b, c, d, v, address);
    ComposedData(dir, ident, a, b, c, d, v, address);
  }

  lemma ComposedPages(dir: nat, ident: nat, a: Space, b: Space, c: Space, d: Space, v: nat, address: nat)
    requires NewPage(dir, ident, a, b, address) && address != 0
    requires Remapped(dir, b, c, v, Some(address / PAGE_SIZE))
    requires d.live == c.live && d.next == c.next && d.mem[dir] == c.mem[dir]
    ensures FaultPages(dir, a, d, v, address / PAGE_SIZE)
    ensures address / PAGE_SIZE in SinglePages(d.live)
  {
    hide MapEffect, DataKept, IsTable;
    var tables := TablePages(b.mem, c.mem, dir, v);
    assert [address] + tables + c.next == [address] + (tables + c.next);
    assert Consumes(a, d, [address] + tables);
    assert Extent(address, 0) in d.live;
  }

  lemma ComposedData(dir: nat, ident: nat, a: Space, b: Space, c: Space, d: Space, v: nat, address: nat)
    requires NewPage(dir, ident, a, b, address)
    requires Remapped(dir, b, c, v, Some(address / PAGE_SIZE))
    requires d.mem[dir] == c.mem[dir] && d.mem == c.mem[address / PAGE_SIZE := d.mem[address / PAGE_SIZE]]
    ensures DataKept(dir, a, d, {address / PAGE_SIZE})
  {
    hide MapEffect, TablePages;
    MoreSinglePages(a.live, b.live);
    forall g | g in SinglePages(a.live) && g < FRAMES && g != dir && !IsTable(a.mem, dir, g)
      ensures !IsTable(d.mem, dir, g) && (g != address / PAGE_SIZE ==> d.mem[g] == a.mem[g])
    {
      assert !IsTable(c.mem, dir, g);
    }
  }

  class Vmm {
    var mem: Memory
    const dir: nat
    const ident: nat
    const pmm: Pmm
    ghost var demand: map<nat, nat>

    /** Boot: `dir` and `ident` are the frames of the two static tables. */
    constructor (initial: Memory, dir: nat, ident: nat, pmm: Pmm)
      requires dir < FRAMES && ident < FRAMES && dir != ident && pmm.Valid()
      requires forall r :: r in pmm.regions ==>
                 !(r.start <= dir * PAGE_SIZE < r.end) && !(r.start <= ident * PAGE_SIZE < r.end)
      ensures Valid() && demand == map[] && this.pmm == pmm && this.dir == dir && this.ident == ident
      ensures BootTables(mem, dir, ident)
    {
      hide RegionInv, LiveExtents;
      this.dir, this.ident, this.pmm, demand := dir, ident, pmm, map[];
      var boot := PreInit(initial, dir, ident);
      mem := boot;
      new;
      NotHandedOut(dir);
      NotHandedOut(ident);
      BootOwned(mem, dir, ident, SinglePages(pmm.Extents()));
    }

    lemma NotHandedOut(f: nat)
      requires pmm.Valid() && Reserved(f)
      ensures f !in SinglePages(pmm.Extents())
    {
      hide RegionInv, LiveExtents;
      if f in SinglePages(pmm.Extents()) {
        var e :| e in pmm.Extents() && e.order == 0 && f == e.address / PAGE_SIZE;
        pmm.LiveAligned(e);
        pmm.NotLiveOutside(e.address);
      }
    }

    /** No region of the physical memory manager contains frame `f`. */
    ghost predicate Reserved(f: nat)
      reads pmm
    {
      forall r :: r in pmm.regions ==> !(r.start <= f * PAGE_SIZE < r.end)
    }

    ghost function State(): Space
      reads this, pmm, pmm.regions
    {
      Space(mem, demand, pmm.Extents(), pmm.NextPages())
    }

    ghost predicate Valid()
      reads this, pmm, pmm.regions, pmm.Footprint()
    {
      && pmm.Valid() && Reserved(dir) && Reserved(ident)
      && OwnedSpace(State(), dir, ident)
    }

    /** What one successful page allocation adds. */
    lemma PageGained(before: set<Extent>, address: nat)
      requires pmm.Valid() && Reserved(dir) && Reserved(ident)
      requires pmm.NewExtent(before, address, 0)
      ensures address % PAGE_SIZE == 0 && address / PAGE_SIZE < FRAMES && address / PAGE_SIZE !in {dir, ident}
      ensures pmm.Extents() == before + {Extent(address, 0)}
      ensures SinglePages(pmm.Extents()) == SinglePages(before) + {address / PAGE_SIZE}
      ensures address / PAGE_SIZE !in SinglePages(before)
    {
      hide RegionInv, LiveExtents;
      var a :| 0 <= a < |pmm.regions| && pmm.InsideRegion(a, address, 0);
      var r := pmm.regions[a];
      assert r.Valid() && r in pmm.regions;
      assert r.start <= address < r.end;
      forall e | e in before
        ensures e.address % PAGE_SIZE == 0
      {
        pmm.LiveAligned(e);
      }
      NewFrame(before, pmm.Extents(), address);
    }

    /** `pmm_alloc_pages(1)`. */
    method AllocFrame() returns (r: AllocResult)
      requires Valid()
      modifies pmm.Footprint()
      ensures Valid() && pmm.regions == old(pmm.regions)
      ensures r.Panicked? <==> old(State()).next == []
      ensures r.Panicked? ==> State() == old(State())
      ensures r.Returned? ==> NewPage(dir, ident, old(State()), State(), r.address)
    {
      hide Pmm.Valid, Pmm.Extents, Pmm.FreePages, Pmm.NextPages, Pmm.NoRun, Pmm.NewExtent, Pmm.PagesTaken, OwnedSpace,
           SinglePages, NewPage, IsLeastOrder;
      ghost var a := State();
      ghost var order;
      NoneNext();
      r, order := pmm.AllocPages(1);
      OnePageOrder(order);
      if r.Returned? {
        PageGained(a.live, r.address);
        GainOwned(a, State(), r.address);
      }
    }

    lemma NoneNext()
      requires pmm.Valid()
      ensures pmm.NextPages() == [] <==> pmm.NoRun(0)
    {
      hide Pmm.Valid, Pmm.FreePages, Pmm.NextPages, Pmm.NoRun;
      pmm.NoPageNoRun();
      pmm.NextPagesExact();
      if pmm.NextPages() != [] {
        assert pmm.NextPages()[0] in pmm.NextPages();
      }
    }

    lemma GainOwned(a: Space, b: Space, address: nat)
      requires OwnedSpace(a, dir, ident) && b.mem == a.mem && b.demand == a.demand
      requires address % PAGE_SIZE == 0 && address / PAGE_SIZE < FRAMES && address / PAGE_SIZE !in {dir, ident}
      requires b.live == a.live + {Extent(address, 0)} && a.next == [address] + b.next
      requires SinglePages(b.live) == SinglePages(a.live) + {address / PAGE_SIZE}
      requires address / PAGE_SIZE !in SinglePages(a.live)
      ensures OwnedSpace(b, dir, ident) && NewPage(dir, ident, a, b, address)
    {
      MoreFrames(a.mem, dir, ident, SinglePages(a.live), a.demand, SinglePages(b.live));
      assert (set x | x in [address] :: Extent(x, 0)) == {Extent(address, 0)};
    }

    /** The entry for `va` in its page table, made on the way if need be.
        Accesses through `physical_to_virtual` are taken to reach the frame
        (see `TablesReachable`). */
    method GetOrCreatePte(va: nat, flags: Flags) returns (r: PteResult)
      requires Valid() && va < WORD
      modifies this`mem, pmm.Footprint()
      ensures Valid() && pmm.regions == old(pmm.regions) && dir < FRAMES
      ensures r.Pte? ==> HasTable(dir, old(State()), State(), va / PAGE_SIZE, r.frame, r.index)
      ensures r.Pte? ==> mem == WithTable(old(mem), dir, va / PAGE_SIZE, r.frame, flags)
      ensures !r.Pte? ==> mem == old(mem) && demand == old(demand) && !old(mem)[dir][Slot(va / PAGE_SIZE)].present
      ensures r.NoPte? ==> Consumes(old(State()), State(), [0])
      ensures r.Stopped? ==> State() == old(State())
      ensures r.Stopped? <==> !old(mem)[dir][Slot(va / PAGE_SIZE)].present && old(State()).next == []
    {
      hide Owned, Pmm.Valid, Pmm.Extents, Pmm.NextPages, BitAnd, SinglePages, TableAdded, Consumes, Reserved;
      Shape();
      AddressFields(va);
      var pdeIndex := BitAnd(va / 0x40_0000, 0x3FF);
      var pteIndex := BitAnd(va / PAGE_SIZE, 0x3FF);
      if mem[dir][pdeIndex].present {
        return Pte(mem[dir][pdeIndex].address, pteIndex);
      }
      var table := NewTable(pdeIndex, flags);
      if !table.Pte? {
        return table;
      }
      AddedSlot(old(mem), mem, dir, pdeIndex, table.frame);
      return Pte(table.frame, pteIndex);
    }

    lemma Shape()
      requires Valid()
      ensures dir < FRAMES && ident < FRAMES && !IsTable(mem, dir, dir)
    {
      hide RegionInv, LiveExtents, UnusedPages;
    }

    /** Lines 64-80 of `get_or_create_pte`: a zeroed table for slot `s`. */
    method NewTable(s: nat, flags: Flags) returns (r: PteResult)
      requires Valid() && s < ENTRIES && dir < FRAMES && !mem[dir][s].present
      modifies this`mem, pmm.Footprint()
      ensures Valid() && pmm.regions == old(pmm.regions) && demand == old(demand)
      ensures r.Pte? ==> TableAdded(old(mem), mem, dir, s, r.frame) && 0 < r.frame < FRAMES
      ensures r.Pte? ==> mem == Install(old(mem), dir, s, r.frame, NewPde(old(mem)[dir][s], r.frame, flags))
      ensures r.Pte? ==> mem[dir][s].present && mem[dir][s].address == r.frame
      ensures r.Pte? ==> mem[dir][s].rw == flags.rw && mem[dir][s].user == flags.user
      ensures r.Pte? ==> Consumes(old(State()), State(), [r.frame * PAGE_SIZE])
      ensures r.Pte? ==> r.frame !in SinglePages(old(State()).live)
      ensures !r.Pte? ==> mem == old(mem)
      ensures r.NoPte? ==> Consumes(old(State()), State(), [0])
      ensures r.Stopped? ==> State() == old(State())
      ensures r.Stopped? <==> old(State()).next == []
    {
      hide Owned, Pmm.Valid, Pmm.Extents, Pmm.NextPages, SinglePages, IsTable, TableAdded, Reserved, Install;
      var physical := AllocFrame();
      if physical.Panicked? {
        return Stopped;
      }
      if physical.address == 0 {
        return NoPte;
      }
      var f := physical.address / PAGE_SIZE;
      assert f * PAGE_SIZE == physical.address;
      InstallTable(s, f, flags);
      return Pte(f, 0);
    }

    method InstallTable(s: nat, f: nat, flags: Flags)
      requires Valid() && s < ENTRIES && f < FRAMES && f != dir && dir < FRAMES
      requires f in SinglePages(pmm.Extents()) && !IsTable(mem, dir, f) && f !in demand.Values && !mem[dir][s].present
      modifies this`mem
      ensures Valid() && TableAdded(old(mem), mem, dir, s, f)
      ensures mem[dir][s].present && mem[dir][s].address == f
      ensures mem[dir][s].rw == flags.rw && mem[dir][s].user == flags.user
      ensures mem == Install(old(mem), dir, s, f, NewPde(old(mem)[dir][s], f, flags))
    {
      hide Pmm.Valid, Pmm.Extents, Pmm.NextPages, SinglePages, Reserved;
      assert this as object !in pmm.Footprint();
      Shape();
      var pde := NewPde(mem[dir][s], f, flags);
      InstallHarmless(mem, dir, s, f, pde);
      InstallOwned(mem, dir, ident, SinglePages(pmm.Extents()), demand, s, f, pde);
      mem := mem[f := ZeroPage()];
      mem := Store(mem, dir, s, pde);
    }

    /** `vmm_map_page`.  It refuses misaligned addresses and pages that have a
        translation, and then changes nothing; it also fails, and then loses
        the page, when it needs a table and the allocator hands out page 0,
        which reads as `NULL`. */
    method MapPage(va: nat, pa: nat, flags: Flags) returns (r: MapResult)
      requires Valid() && va < WORD && pa < WORD
      modifies this`mem, pmm.Footprint()
      ensures Valid() && pmm.regions == old(pmm.regions) && demand == old(demand)
      ensures MapOutcome(dir, old(State()), va, pa, flags, r, State())
      ensures r.Mapped? ==> dir < FRAMES && EntryBits(old(mem), mem, dir, va / PAGE_SIZE, pa / PAGE_SIZE, flags)
      ensures r.Mapped? ==> dir < FRAMES && DirectoryBits(old(mem), mem, dir, va / PAGE_SIZE, flags)
    {
      hide Owned, Pmm.Valid, Pmm.Extents, Pmm.NextPages, SinglePages, Reserved, Remapped, Consumes, HasTable,
           Translate, DidMap, WithTable, MapOutcome, EntryBits, DirectoryBits;
      Shape();
      if va % PAGE_SIZE != 0 || pa % PAGE_SIZE != 0 {
        RefusedOutcome(dir, State(), va, pa, flags);
        return Refused;
      }
      var pte := GetOrCreatePte(va, flags);
      if pte.NoPte? {
        LostOutcome(dir, old(State()), va, pa, flags, State());
        return Refused;
      }
      if pte.Stopped? {
        HaltedOutcome(dir, old(State()), va, pa, flags);
        return Halted;
      }
      TableFacts(dir, old(State()), State(), va / PAGE_SIZE, pte.frame, pte.index);
      var entry := mem[pte.frame][pte.index];
      if entry.present {
        RefusedOutcome(dir, State(), va, pa, flags);
        return Refused;
      }
      ghost var tabled := mem;
      FillEntry(old(State()), va / PAGE_SIZE, pte.frame, pte.index, NewPte(entry, pa / PAGE_SIZE, flags));
      MappedBy(dir, old(State()), va, pa, flags, tabled, pte.frame, State());
      OutcomeBits(old(State()), va, pa, flags, State());
      return Mapped;
    }

    lemma OutcomeBits(a: Space, va: nat, pa: nat, flags: Flags, b: Space)
      requires MapOutcome(dir, a, va, pa, flags, Mapped, b) && OwnedSpace(b, dir, ident)
      ensures dir < FRAMES && va / PAGE_SIZE < FRAMES
      ensures EntryBits(a.mem, b.mem, dir, va / PAGE_SIZE, pa / PAGE_SIZE, flags)
      ensures DirectoryBits(a.mem, b.mem, dir, va / PAGE_SIZE, flags)
    {
      hide Owned, WithMapping, EntryBits, DirectoryBits, SinglePages, CanMap, MayNotMap, LostPageZero, NeedsTable;
      MappedBits(dir, ident, a, va, pa, flags, b);
    }

    method FillEntry(ghost a: Space, ghost v: nat, t: nat, i: nat, e: Word)
      requires Valid() && HasTable(dir, a, State(), v, t, i) && !mem[t][i].present
      modifies this`mem
      ensures Valid() && Remapped(dir, a, State(), v, if e.present then Some(e.address) else None)
      ensures mem == Store(old(mem), t, i, e) && mem[dir][Slot(v)] == old(mem)[dir][Slot(v)]
    {
      hide Owned, Pmm.Valid, Pmm.Extents, Pmm.NextPages, SinglePages, Reserved, ZeroPage, Remapped;
      assert this as object !in pmm.Footprint();
      Shape();
      assert t != dir;
      FillOwned(mem, dir, ident, SinglePages(pmm.Extents()), demand, v, e);
      Filled(dir, a, State(), v, t, e);
      mem := Store(mem, t, i, e);
    }

    /** `vmm_unmap_page`: succeeds exactly on aligned addresses that have a
        translation.  Neither table nor frame is given back. */
    method UnmapPage(va: nat) returns (ok: bool)
      requires Valid() && va < WORD
      modifies this`mem, this`demand
      ensures Valid()
      ensures ok <==> Unmaps(dir, old(State()), va)
      ensures UnmapStep(dir, old(State()), va, State())
      ensures ok ==> EntryOf(mem, dir, va / PAGE_SIZE) ==
                       Entry(false, false, false, false, false, false, false, false, false, 0, 0)
    {
      hide Owned, Pmm.Valid, Pmm.Extents, Pmm.NextPages, BitAnd, SinglePages, Reserved, Surviving;
      assert this as object !in pmm.Footprint();
      Shape();
      AddressFields(va);
      if va % PAGE_SIZE != 0 {
        return false;
      }
      var pdeIndex := BitAnd(va / 0x40_0000, 0x3FF);
      var pteIndex := BitAnd(va / PAGE_SIZE, 0x3FF);
      if !mem[dir][pdeIndex].present {
        return false;
      }
      var table := mem[dir][pdeIndex].address;
      if !mem[table][pteIndex].present {
        return false;
      }
      ghost var v := va / PAGE_SIZE;
      assert table != dir;
      StoreEffect(mem, dir, v, ZERO);
      ClearOwned(mem, dir, ident, SinglePages(pmm.Extents()), demand, v);
      demand := Surviving(mem, dir, demand, v);
      mem := Store(mem, table, pteIndex, ZERO);
      return true;
    }

    /** Mapping a page and unmapping it again: if the first succeeds so does
        the second, and every translation, and the set of pages faulted in, is
        what it was. */
    method MapAndUnmap(va: nat, pa: nat, flags: Flags) returns (r: MapResult, ok: bool)
      requires Valid() && va < WORD && pa < WORD && flags.present
      modifies this`mem, this`demand, pmm.Footprint()
      ensures Valid() && dir < FRAMES
      ensures r.Mapped? ==> ok && SameTranslation(old(mem), mem, dir) && demand == old(demand)
    {
      hide Owned, Pmm.Valid, Pmm.Extents, Pmm.NextPages, SinglePages, Reserved, Surviving, WithMapping,
           MapEffect, UnmapEffect, DataKept, Consumes, SameTranslation;
      Shape();
      ok := false;
      r := MapPage(va, pa, flags);
      if r.Mapped? {
        ghost var b := State();
        MappedUnmaps(old(State()), b, va, pa / PAGE_SIZE);
        ok := UnmapPage(va);
        MapThenUnmap(old(mem), b.mem, mem, dir, va / PAGE_SIZE, Some(pa / PAGE_SIZE));
        NoneLost(old(State()), b, va / PAGE_SIZE, pa / PAGE_SIZE);
      }
    }

    lemma MappedUnmaps(a: Space, b: Space, va: nat, f: nat)
      requires va < WORD && va % PAGE_SIZE == 0 && Remapped(dir, a, b, va / PAGE_SIZE, Some(f))
      ensures Unmaps(dir, b, va)
    {
      assert SharesEntry(b.mem, dir, va / PAGE_SIZE, va / PAGE_SIZE);
    }

    /** No page faulted in shares the entry of a page just mapped. */
    lemma NoneLost(a: Space, b: Space, v: nat, f: nat)
      requires OwnedSpace(a, dir, ident) && Remapped(dir, a, b, v, Some(f))
      ensures Surviving(b.mem, dir, b.demand, v) == a.demand
    {
    }

    /** `kmemset` of a whole page through virtual page `v`, a word at a time.
        Every store goes through the translation in force at that moment; since
        the frame is no page table, the stores never redirect one another. */
    method ZeroThrough(v: nat, ghost f: nat)
      requires Valid() && dir < FRAMES && v < FRAMES && Translate(mem, dir, v) == Some(f)
      requires f < FRAMES && f != dir && !IsTable(mem, dir, f)
      modifies this`mem
      ensures Valid() && mem == old(mem)[f := ZeroPage()]
      ensures SameTranslation(old(mem), mem, dir)
    {
      hide Owned, Pmm.Valid, Pmm.Extents, Pmm.NextPages, SinglePages, Reserved, IsTable;
      assert this as object !in pmm.Footprint();
      for i := 0 to ENTRIES
        invariant forall g :: 0 <= g < FRAMES && g != f ==> mem[g] == old(mem)[g]
        invariant forall j :: 0 <= j < i ==> mem[f][j] == ZERO
      {
        DataStoreHarmless(old(mem), dir, f, mem[f]);
        assert mem == old(mem)[f := mem[f]];
        var t := Translate(mem, dir, v);
        assert t == Some(f);
        mem := Store(mem, t.value, i, ZERO);
      }
      assert mem[f] == ZeroPage();
      assert mem == old(mem)[f := ZeroPage()];
      DataStoreHarmless(old(mem), dir, f, ZeroPage());
      DataOwned(old(mem), dir, ident, SinglePages(pmm.Extents()), demand, f, ZeroPage());
    }

    /** `vmm_page_fault_handler`: exactly the serviceable faults are serviced,
        the others end in a panic. */
    method PageFault(cr2: nat, errorCode: nat) returns (r: FaultResult, ghost f: nat)
      requires Valid() && cr2 < WORD
      modifies this`mem, this`demand, pmm.Footprint()
      ensures r.Serviced? <==> Serviceable(dir, old(State()), cr2, errorCode)
      ensures r.Serviced? ==> Valid() && pmm.regions == old(pmm.regions) && errorCode % 2 == 0
      ensures r.Serviced? ==> FaultServiced(dir, old(State()), State(), cr2 / PAGE_SIZE, f)
      ensures dir < FRAMES
      ensures var e := EntryOf(mem, dir, cr2 / PAGE_SIZE);
              r.Serviced? ==>
                && e.address == f && e.present && e.rw && !e.user
                && !e.writeThrough && !e.cacheDisabled && !e.global
    {
      hide Owned, Pmm.Valid, Pmm.Extents, Pmm.NextPages, SinglePages, Reserved, BitAnd, FaultServiced, Translate;
      Shape();
      LowBit(errorCode);
      AlignDownPage(cr2);
      if BitAnd(errorCode, 1) != 0 {
        return Panic, 0;
      }
      var aligned := AlignDown(cr2, PAGE_SIZE);
      assert aligned / PAGE_SIZE == cr2 / PAGE_SIZE;
      r, f := ServeFault(aligned);
      if r.Serviced? {
        ServicedWasServiceable(dir, old(State()), State(), cr2, errorCode, f);
        FaultBits(dir, ident, old(State()), State(), cr2 / PAGE_SIZE, f);
      }
    }

    /** Lines 193-207 of the handler. */
    method ServeFault(aligned: nat) returns (r: FaultResult, ghost f: nat)
      requires Valid() && aligned < WORD && aligned % PAGE_SIZE == 0
      modifies this`mem, this`demand, pmm.Footprint()
      ensures r.Serviced? ==> Valid() && pmm.regions == old(pmm.regions)
      ensures r.Serviced? ==> FaultServiced(dir, old(State()), State(), aligned / PAGE_SIZE, f)
      ensures r.Panic? ==> !Serviceable(dir, old(State()), aligned, 0)
      ensures dir < FRAMES
      ensures Translate(old(mem), dir, aligned / PAGE_SIZE) != None && old(State()).next != [] ==>
                old(State()).next[0] != 0 ==> mem == old(mem) && pmm.Extents() == old(pmm.Extents())
    {
      hide Owned, Pmm.Valid, Pmm.Extents, Pmm.NextPages, SinglePages, Reserved, IsTable, Translate, DidMap,
           FaultServiced, DataKept, Cleared, CanMap, NeedsTable, MayNotMap, LostPageZero, MapOutcome, Serviceable;
      Shape();
      f := 0;
      ghost var a := State();
      var physical := AllocFrame();
      if physical.Panicked? {
        NoneOrZero(a, aligned);
        return Panic, 0;
      }
      if physical.address == 0 {
        NoneOrZero(a, aligned);
        return Panic, 0;
      }
      ghost var b := State();
      var mapped := MapPage(aligned, physical.address, FAULT_FLAGS);
      if !mapped.Mapped? {
        NotMappedWhy(a, b, State(), aligned, physical.address, mapped);
        if mapped.Refused? {
          GiveBack(physical.address);
        }
        return Panic, 0;
      }
      f := physical.address / PAGE_SIZE;
      ghost var c := State();
      MappedDid(dir, b, aligned, physical.address, c);
      FinishFault(b, aligned, physical.address);
      FaultComposed(dir, ident, a, b, c, State(), aligned, physical.address);
      r := Serviced;
    }

    lemma NoneOrZero(a: Space, aligned: nat)
      requires a.next == [] || a.next[0] == 0
      ensures !Serviceable(dir, a, aligned, 0)
    {
    }

    /** A mapping that fails: the fault was not serviceable, and where there was
        a translation the page taken is all there is to give back. */
    lemma NotMappedWhy(a: Space, b: Space, c: Space, aligned: nat, address: nat, r: MapResult)
      requires NewPage(dir, ident, a, b, address) && aligned < WORD && aligned % PAGE_SIZE == 0
      requires MapOutcome(dir, b, aligned, address, FAULT_FLAGS, r, c) && !r.Mapped?
      ensures !Serviceable(dir, a, aligned, 0)
      ensures r.Refused? ==> Extent(address, 0) in c.live
      ensures Translate(a.mem, dir, aligned / PAGE_SIZE) != None ==>
                r.Refused? && c.mem == a.mem && c.live - {Extent(address, 0)} == a.live
    {
      hide IsTable, DidMap;
      if NeedsTable(dir, b, aligned, address) && b.next != [] && b.next[0] == 0 {
        assert a.next[..2][1] == 0;
      }
    }

    /** The handler frees the page it could not map. */
    method GiveBack(address: nat)
      requires pmm.Valid() && Extent(address, 0) in pmm.Extents()
      modifies pmm.Footprint()
      ensures pmm.regions == old(pmm.regions) && mem == old(mem)
      ensures address != 0 ==> pmm.Extents() == old(pmm.Extents()) - {Extent(address, 0)}
    {
      hide Pmm.Valid, LiveExtents, Pmm.MayFree, Pmm.GivenBack, Pmm.ComesFirst, Pmm.NextPages;
      ghost var live, starts := pmm.Extents(), pmm.Starts();
      pmm.LiveMayFree(address, 0);
      pmm.OneAtAddress(address, 0);
      ghost var index, order;
      var freed;
      freed, index, order := pmm.Free(address);
      if address != 0 {
        assert pmm.Starts() == starts;
        pmm.FreedFrom(live, old(pmm.Tilings()), old(pmm.Lists()), index, address, order);
      }
    }

    /** Record the page mapped, and clear it. */
    method FinishFault(ghost b: Space, aligned: nat, ghost address: nat)
      requires Valid() && DidMap(dir, b, aligned, address, FAULT_FLAGS, State())
      requires var f := address / PAGE_SIZE;
               && f < FRAMES && f != dir && dir < FRAMES && f in SinglePages(b.live)
               && !IsTable(b.mem, dir, f) && f !in b.demand.Values
      modifies this`mem, this`demand
      ensures Valid()
      ensures Cleared(dir, old(State()), State(), aligned / PAGE_SIZE, address / PAGE_SIZE, b.mem[address / PAGE_SIZE])
    {
      hide Owned, Pmm.Valid, Pmm.Extents, Pmm.NextPages, Reserved, SinglePages, Translate, IsTable, WithMapping,
           Consumes;
      ghost var v, f := aligned / PAGE_SIZE, address / PAGE_SIZE;
      ghost var c := State();
      MappedFrame(b, c, v, f);
      RecordFault(v, f);
      ZeroFaulted(aligned, f);
    }

    /** What the frame of a page just mapped is not. */
    lemma MappedFrame(b: Space, c: Space, v: nat, f: nat)
      requires OwnedSpace(c, dir, ident) && Remapped(dir, b, c, v, Some(f))
      requires f < FRAMES && f != dir && f in SinglePages(b.live) && !IsTable(b.mem, dir, f) && f !in b.demand.Values
      ensures v !in c.demand && f !in c.demand.Values && f in SinglePages(c.live)
      ensures !IsTable(c.mem, dir, f) && c.mem[f] == b.mem[f] && Translate(c.mem, dir, v) == Some(f)
    {
      assert SharesEntry(c.mem, dir, v, v);
      assert forall w :: w in c.demand ==> c.demand[w] in c.demand.Values;
      MoreSinglePages(b.live, c.live);
    }

    /** Bookkeeping: page `v` is now backed by frame `f`. */
    ghost method RecordFault(v: nat, f: nat)
      requires Valid() && dir < FRAMES && v < FRAMES && v !in demand && f !in demand.Values
      requires f in SinglePages(pmm.Extents()) && !IsTable(mem, dir, f) && Translate(mem, dir, v) == Some(f)
      modifies this`demand
      ensures Valid() && demand == old(demand)[v := f]
    {
      hide Pmm.Valid, Pmm.Extents, Pmm.NextPages, Reserved, IsTable;
      assert this as object !in pmm.Footprint();
      FaultOwned(mem, dir, ident, SinglePages(pmm.Extents()), demand, v, f);
      demand := demand[v := f];
    }

    /** `kmemset` of the faulted page; address 0 is `NULL` to it. */
    method ZeroFaulted(aligned: nat, ghost f: nat)
      requires Valid() && aligned < WORD && aligned % PAGE_SIZE == 0
      requires dir < FRAMES && Translate(mem, dir, aligned / PAGE_SIZE) == Some(f)
      requires f < FRAMES && f != dir && !IsTable(mem, dir, f)
      modifies this`mem
      ensures Valid() && SameTranslation(old(mem), mem, dir) && mem[dir] == old(mem)[dir]
      ensures mem == old(mem)[f := if aligned / PAGE_SIZE == 0 then old(mem)[f] else ZeroPage()]
    {
      hide Owned, Pmm.Valid, Pmm.Extents, Pmm.NextPages, Reserved, IsTable, SinglePages;
      if aligned != 0 {
        ZeroThrough(aligned / PAGE_SIZE, f);
      }
    }

    /** Any run of faults, maps and unmaps.  `trace` holds the states, one more
        than events survived; each step is what the event does, and ownership
        holds in each.  The run ends early exactly where an event stops the
        machine. */
    method Run(events: seq<Event>) returns (alive: bool, ghost trace: seq<Space>)
      requires Valid() && forall e :: e in events ==> ValidEvent(e)
      modifies this`mem, this`demand, pmm.Footprint()
      ensures 1 <= |trace| <= |events| + 1 && trace[0] == old(State())
      ensures IsRun(dir, ident, trace, events[..|trace| - 1])
      ensures alive ==> |trace| == |events| + 1 && Valid() && trace[|events|] == State()
      ensures !alive ==> |trace| <= |events| && Stops(dir, trace[|trace| - 1], events[|trace| - 1])
      ensures forall i :: 0 <= i < |trace| - 1 ==> !Stops(dir, trace[i], events[i])
    {
      hide OwnedSpace, Pmm.Valid, Pmm.Extents, Pmm.NextPages, Reserved, Step, Stops;
      trace := [State()];
      for i := 0 to |events|
        invariant Valid() && pmm.regions == old(pmm.regions)
        invariant |trace| == i + 1 && trace[0] == old(State()) && trace[i] == State()
        invariant IsRun(dir, ident, trace, events[..i])
        invariant forall j :: 0 <= j < i ==> !Stops(dir, trace[j], events[j])
      {
        assert events[i] in events;
        var on := Handle(events[i]);
        if !on {
          return false, trace;
        }
        trace := trace + [State()];
        assert events[..i + 1][..i] == events[..i];
      }
      assert events[..|events|] == events;
      return true, trace;
    }

    method Handle(e: Event) returns (alive: bool)
      requires Valid() && ValidEvent(e)
      modifies this`mem, this`demand, pmm.Footprint()
      ensures alive ==> Valid() && pmm.regions == old(pmm.regions) && Step(dir, old(State()), e, State())
      ensures alive <==> !Stops(dir, old(State()), e)
    {
      hide Owned, Pmm.Valid, Pmm.Extents, Pmm.NextPages, Reserved, SinglePages, FaultServiced, DidMap, UnmapStep,
           Translate, CanMap, NeedsTable, Serviceable;
      match e {
        case Fault(cr2, errorCode) =>
          ghost var f;
          var r;
          r, f := PageFault(cr2, errorCode);
          alive := r.Serviced?;
        case Map(va, pa, flags) =>
          var r := MapPage(va, pa, flags);
          alive := !r.Halted?;
        case Unmap(va) =>
          var _ := UnmapPage(va);
          alive := true;
      }
    }
  }
}
