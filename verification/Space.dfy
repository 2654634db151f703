/** The address space as a value: memory, the pages faulted in, and what the
    physical memory manager has handed out and still has.  What one event does
    to it, and what follows for every run of events. */
module Spaces {
  import opened Bits
  import opened Options
  import opened FreeLists
  import opened Regions
  import opened Extents
  import opened Paging
  import opened Ownership
  import opened Boot

  datatype Flags = Flags(present: bool, rw: bool, user: bool, writeThrough: bool, cacheDisabled: bool, global: bool)

  /** The handler maps pages present and writable, for the kernel only. */
  const FAULT_FLAGS: Flags := Flags(true, true, false, false, false, false)

  /** `demand` maps the pages faulted in, and not unmapped since, to their
      frames; `live` are the allocator's live blocks and `next` its unused
      pages, in the order in which it hands them out. */
  datatype Space = Space(mem: Memory, demand: map<nat, nat>, live: set<Extent>, next: seq<nat>)

  /** What can happen to the address space after boot. */
  datatype Event = Fault(cr2: nat, errorCode: nat) | Map(va: nat, pa: nat, flags: Flags) | Unmap(va: nat)

  predicate ValidEvent(e: Event) {
    match e
    case Fault(cr2, _) => cr2 < WORD
    case Map(va, pa, _) => va < WORD && pa < WORD
    case Unmap(va) => va < WORD
  }

  /** Frames handed out as single pages. */
  ghost function SinglePages(live: set<Extent>): set<nat> {
    set e | e in live && e.order == 0 :: e.address / PAGE_SIZE
  }

  ghost predicate OwnedSpace(a: Space, dir: nat, ident: nat) {
    Owned(a.mem, dir, ident, SinglePages(a.live), a.demand)
  }

  /** The allocator handed out `pages`, one by one. */
  ghost predicate Consumes(a: Space, b: Space, pages: seq<nat>) {
    && a.next == pages + b.next
    && b.live == a.live + (set x | x in pages :: Extent(x, 0))
  }

  // ------------------------------------------------------- entries written

  /** The directory entry for a new table in frame `f`; the bits the code does
      not name keep their value. */
  function NewPde(e: Word, f: nat, flags: Flags): Word
    requires f < FRAMES
  {
    e.(address := f, present := true, rw := flags.rw, user := flags.user,
       writeThrough := flags.writeThrough, cacheDisabled := flags.cacheDisabled)
  }

  /** The table entry that maps frame `f`. */
  function NewPte(e: Word, f: nat, flags: Flags): Word
    requires f < FRAMES
  {
    e.(address := f, present := flags.present, rw := flags.rw, user := flags.user,
       writeThrough := flags.writeThrough, cacheDisabled := flags.cacheDisabled, global := flags.global)
  }

  /** Memory with a table for page `v`: as it is, or with the zeroed frame `t`
      hooked in. */
  ghost function WithTable(m: Memory, dir: nat, v: nat, t: nat, flags: Flags): Memory
    requires dir < FRAMES && v < FRAMES && t < FRAMES
  {
    if m[dir][Slot(v)].present then m else Install(m, dir, Slot(v), t, NewPde(m[dir][Slot(v)], t, flags))
  }

  /** Memory after page `v` has been mapped to frame `f` in table `t`: no other
      word changes. */
  ghost function WithMapping(m: Memory, dir: nat, v: nat, t: nat, f: nat, flags: Flags): Memory
    requires dir < FRAMES && v < FRAMES && t < FRAMES && f < FRAMES
  {
    var tabled := WithTable(m, dir, v, t, flags);
    Store(tabled, t, Index(v), NewPte(tabled[t][Index(v)], f, flags))
  }

  // -------------------------------------------- the same entries, bit by bit

  /** The entry that translates page `v`, once it has a table. */
  function EntryOf(m: Memory, dir: nat, v: nat): Word
    requires dir < FRAMES && v < FRAMES
  {
    m[m[dir][Slot(v)].address][Index(v)]
  }

  /** Every bit of the entry of a page just mapped: the flags as given, the
      others as they were, or 0 in a new table. */
  ghost predicate EntryBits(m: Memory, m': Memory, dir: nat, v: nat, f: nat, flags: Flags)
    requires dir < FRAMES && v < FRAMES
  {
    var e, was := EntryOf(m', dir, v), EntryOf(m, dir, v);
    && e.address == f
    && e.present == flags.present && e.rw == flags.rw && e.user == flags.user
    && e.writeThrough == flags.writeThrough && e.cacheDisabled == flags.cacheDisabled && e.global == flags.global
    && if m[dir][Slot(v)].present then
         e.accessed == was.accessed && e.dirty == was.dirty && e.pat == was.pat && e.avl == was.avl
       else !e.accessed && !e.dirty && !e.pat && e.avl == 0
  }

  /** Every bit of the directory entry above it: untouched, or that of a new
      table, present and with the access flags as given. */
  ghost predicate DirectoryBits(m: Memory, m': Memory, dir: nat, v: nat, flags: Flags)
    requires dir < FRAMES && v < FRAMES
  {
    var e, was := m'[dir][Slot(v)], m[dir][Slot(v)];
    if was.present then e == was
    else
      && e.present && e.rw == flags.rw && e.user == flags.user
      && e.writeThrough == flags.writeThrough && e.cacheDisabled == flags.cacheDisabled
      && e.accessed == was.accessed && e.dirty == was.dirty && e.pat == was.pat && e.global == was.global
      && e.avl == was.avl
  }

  lemma MappingBits(m: Memory, m': Memory, dir: nat, v: nat, t: nat, f: nat, flags: Flags)
    requires dir < FRAMES && v < FRAMES && t < FRAMES && f < FRAMES && t != dir
    requires m' == WithMapping(m, dir, v, t, f, flags) && m'[dir][Slot(v)].address == t
    ensures EntryBits(m, m', dir, v, f, flags) && DirectoryBits(m, m', dir, v, flags)
  {
    assert m'[dir] == WithTable(m, dir, v, t, flags)[dir];
  }

  // ------------------------------------------------------------- one event

  /** The page a new table for `v` takes, if `v` had none. */
  ghost function TablePages(m: Memory, m': Memory, dir: nat, v: nat): seq<nat>
    requires dir < FRAMES && v < FRAMES
  {
    if m[dir][Slot(v)].present then [] else [m'[dir][Slot(v)].address * PAGE_SIZE]
  }

  /** Frames that were handed out and no tables stay so, with their contents,
      save for frame `but`. */
  ghost predicate DataKept(dir: nat, a: Space, b: Space, but: set<nat>)
    requires dir < FRAMES
  {
    forall g :: g in SinglePages(a.live) && g < FRAMES && g != dir && !IsTable(a.mem, dir, g) ==>
      !IsTable(b.mem, dir, g) && (g !in but ==> b.mem[g] == a.mem[g])
  }

  /** A mapping of page `v`: the pages that share its entry had no translation
      and now have `to`, no other translation changed, and at most one page was
      taken, for the table. */
  ghost predicate Remapped(dir: nat, a: Space, b: Space, v: nat, to: Option<nat>) {
    && dir < FRAMES && v < FRAMES
    && MapEffect(a.mem, b.mem, dir, v, to)
    && b.demand == a.demand
    && Consumes(a, b, TablePages(a.mem, b.mem, dir, v)) && 0 !in TablePages(a.mem, b.mem, dir, v)
    && DataKept(dir, a, b, {})
  }

  ghost predicate DidMap(dir: nat, a: Space, va: nat, pa: nat, flags: Flags, b: Space) {
    && va % PAGE_SIZE == 0 && pa % PAGE_SIZE == 0 && va < WORD && pa < WORD
    && var v, f := va / PAGE_SIZE, pa / PAGE_SIZE;
       && Remapped(dir, a, b, v, if flags.present then Some(f) else None)
       && b.mem == WithMapping(a.mem, dir, v, b.mem[dir][Slot(v)].address, f, flags)
  }

  /** The arguments alone, or an existing translation, make a mapping fail. */
  ghost predicate MayNotMap(dir: nat, a: Space, va: nat, pa: nat) {
    || va % PAGE_SIZE != 0 || pa % PAGE_SIZE != 0
    || (dir < FRAMES && va < WORD && Translate(a.mem, dir, va / PAGE_SIZE) != None)
  }

  /** A mapping of aligned addresses needs a new table. */
  ghost predicate NeedsTable(dir: nat, a: Space, va: nat, pa: nat) {
    && va % PAGE_SIZE == 0 && pa % PAGE_SIZE == 0
    && dir < FRAMES && va < WORD && !a.mem[dir][Slot(va / PAGE_SIZE)].present
  }

  /** Page 0 was handed out for the table, which reads as `NULL`. */
  ghost predicate LostPageZero(dir: nat, a: Space, va: nat, pa: nat, b: Space) {
    NeedsTable(dir, a, va, pa) && b.mem == a.mem && b.demand == a.demand && Consumes(a, b, [0])
  }

  /** A mapping takes effect exactly then. */
  ghost predicate CanMap(dir: nat, a: Space, va: nat, pa: nat) {
    !MayNotMap(dir, a, va, pa) && (NeedsTable(dir, a, va, pa) ==> a.next != [] && a.next[0] != 0)
  }

  /** What a mapping writes. */
  lemma MappedBits(dir: nat, ident: nat, a: Space, va: nat, pa: nat, flags: Flags, b: Space)
    requires DidMap(dir, a, va, pa, flags, b) && OwnedSpace(b, dir, ident)
    ensures EntryBits(a.mem, b.mem, dir, va / PAGE_SIZE, pa / PAGE_SIZE, flags)
    ensures DirectoryBits(a.mem, b.mem, dir, va / PAGE_SIZE, flags)
  {
    hide WithMapping, EntryBits, DirectoryBits, SinglePages;
    DirectoryIsNoTable(b.mem, dir, ident, SinglePages(b.live), b.demand);
    assert IsTable(b.mem, dir, b.mem[dir][Slot(va / PAGE_SIZE)].address);
    MappingBits(a.mem, b.mem, dir, va / PAGE_SIZE, b.mem[dir][Slot(va / PAGE_SIZE)].address, pa / PAGE_SIZE, flags);
  }

  ghost predicate MapStep(dir: nat, a: Space, va: nat, pa: nat, flags: Flags, b: Space) {
    || DidMap(dir, a, va, pa, flags, b)
    || (b == a && MayNotMap(dir, a, va, pa))
    || LostPageZero(dir, a, va, pa, b)
  }

  /** Unmapping `va` takes effect. */
  ghost predicate Unmaps(dir: nat, a: Space, va: nat) {
    va % PAGE_SIZE == 0 && va < WORD && dir < FRAMES && Translate(a.mem, dir, va / PAGE_SIZE) != None
  }

  ghost predicate DidUnmap(dir: nat, a: Space, va: nat, b: Space)
    requires Unmaps(dir, a, va)
  {
    var v := va / PAGE_SIZE;
    && UnmapEffect(a.mem, b.mem, dir, v)
    && b == Space(Store(a.mem, a.mem[dir][Slot(v)].address, Index(v), ZERO), Surviving(a.mem, dir, a.demand, v),
                  a.live, a.next)
  }

  ghost predicate UnmapStep(dir: nat, a: Space, va: nat, b: Space) {
    if Unmaps(dir, a, va) then DidUnmap(dir, a, va, b) else b == a
  }

  /** A serviced fault on page `v`: its translation, which did not exist, is a
      frame that was not in use; no page that does not share its entry is
      affected; and the frame is zero, except on page 0, where `kmemset` takes
      the address for `NULL` and does nothing. */
  ghost predicate FaultServiced(dir: nat, a: Space, b: Space, v: nat, f: nat) {
    && dir < FRAMES && v < FRAMES && f < FRAMES
    && f !in SinglePages(a.live) && f in SinglePages(b.live)
    && !IsTable(a.mem, dir, f) && !IsTable(b.mem, dir, f)
    && MapEffect(a.mem, b.mem, dir, v, Some(f))
    && b.mem == WithMapping(a.mem, dir, v, b.mem[dir][Slot(v)].address, f, FAULT_FLAGS)[f := b.mem[f]]
    && v !in a.demand && b.demand == a.demand[v := f]
    && b.mem[f] == (if v != 0 then ZeroPage() else a.mem[f])
    && FaultPages(dir, a, b, v, f)
    && DataKept(dir, a, b, {f})
  }

  /** The pages a serviced fault takes: one for the data, and one for the table
      if there was none; page 0 is neither. */
  ghost predicate FaultPages(dir: nat, a: Space, b: Space, v: nat, f: nat)
    requires dir < FRAMES && v < FRAMES
  {
    var pages := [f * PAGE_SIZE] + TablePages(a.mem, b.mem, dir, v);
    0 !in pages && Consumes(a, b, pages)
  }

  /** A page faulted in is present and writable, for the kernel only, and its
      frame is all zeros, except on page 0; a table made on the way is
      writable, for the kernel only, too. */
  lemma FaultBits(dir: nat, ident: nat, a: Space, b: Space, v: nat, f: nat)
    requires FaultServiced(dir, a, b, v, f) && OwnedSpace(b, dir, ident)
    ensures var e := EntryOf(b.mem, dir, v);
            && e.address == f && e.present && e.rw && !e.user
            && !e.writeThrough && !e.cacheDisabled && !e.global
    ensures var e := b.mem[dir][Slot(v)];
            if a.mem[dir][Slot(v)].present then e == a.mem[dir][Slot(v)]
            else e.present && e.rw && !e.user && !e.writeThrough && !e.cacheDisabled
    ensures v != 0 ==> forall i :: 0 <= i < 1024 ==>
              b.mem[f][i] == Entry(false, false, false, false, false, false, false, false, false, 0, 0)
  {
    hide WithMapping, SinglePages, DataKept, MapEffect;
    OwnedDirectory(b, dir, ident);
    DirectoryIsNoTable(b.mem, dir, ident, SinglePages(b.live), b.demand);
    var t := b.mem[dir][Slot(v)].address;
    assert b.mem[dir][Slot(v)].present by { ServedSlot(dir, a, b, v, f); }
    assert IsTable(b.mem, dir, t);
    var m' := WithMapping(a.mem, dir, v, t, f, FAULT_FLAGS);
    assert b.mem[dir] == m'[dir] && b.mem[t] == m'[t];
    MappingBits(a.mem, m', dir, v, t, f, FAULT_FLAGS);
  }

  lemma ServedSlot(dir: nat, a: Space, b: Space, v: nat, f: nat)
    requires FaultServiced(dir, a, b, v, f)
    ensures b.mem[dir][Slot(v)].present
  {
  }

  /** How many pages servicing a fault on `v` takes. */
  ghost function Needed(dir: nat, a: Space, v: nat): nat
    requires dir < FRAMES && v < FRAMES
  {
    if a.mem[dir][Slot(v)].present then 1 else 2
  }

  /** A fault that the handler services: the page was not present and has no
      translation, and the pages that come next are enough and not page 0,
      which reads as `NULL`. */
  ghost predicate Serviceable(dir: nat, a: Space, cr2: nat, errorCode: nat) {
    && cr2 < WORD && dir < FRAMES && errorCode % 2 == 0
    && Translate(a.mem, dir, cr2 / PAGE_SIZE) == None
    && Needed(dir, a, cr2 / PAGE_SIZE) <= |a.next|
    && 0 !in a.next[..Needed(dir, a, cr2 / PAGE_SIZE)]
  }

  /** Page 0 aside, only the number of unused pages counts; and with no other
      page than page 0 no fault is serviced. */
  lemma PageZeroMatters(dir: nat, a: Space, cr2: nat, errorCode: nat)
    requires cr2 < WORD && dir < FRAMES
    ensures 0 !in a.next ==>
              (Serviceable(dir, a, cr2, errorCode) <==>
                 && errorCode % 2 == 0 && Translate(a.mem, dir, cr2 / PAGE_SIZE) == None
                 && |a.next| >= Needed(dir, a, cr2 / PAGE_SIZE))
    ensures 0 in a.next && |a.next| <= Needed(dir, a, cr2 / PAGE_SIZE) ==> !Serviceable(dir, a, cr2, errorCode)
  {
    hide Translate;
    var n := Needed(dir, a, cr2 / PAGE_SIZE);
    if |a.next| == n {
      assert a.next[..n] == a.next;
    }
  }

  /** A serviced fault was serviceable. */
  lemma ServicedWasServiceable(dir: nat, a: Space, b: Space, cr2: nat, errorCode: nat, f: nat)
    requires FaultServiced(dir, a, b, cr2 / PAGE_SIZE, f) && cr2 < WORD && errorCode % 2 == 0
    ensures Serviceable(dir, a, cr2, errorCode)
  {
    hide DataKept, IsTable, SinglePages, WithMapping;
    var v := cr2 / PAGE_SIZE;
    assert SharesEntry(b.mem, dir, v, v);
    var pages := [f * PAGE_SIZE] + TablePages(a.mem, b.mem, dir, v);
    assert a.next[..Needed(dir, a, v)] == pages;
  }

  ghost predicate Step(dir: nat, a: Space, e: Event, b: Space) {
    match e
    case Fault(cr2, errorCode) => errorCode % 2 == 0 && exists f :: FaultServiced(dir, a, b, cr2 / PAGE_SIZE, f)
    case Map(va, pa, flags) => MapStep(dir, a, va, pa, flags, b)
    case Unmap(va) => UnmapStep(dir, a, va, b)
  }

  /** Event `e` stops the machine. */
  ghost predicate Stops(dir: nat, a: Space, e: Event) {
    match e
    case Fault(cr2, errorCode) => !Serviceable(dir, a, cr2, errorCode)
    case Map(va, pa, _) => NeedsTable(dir, a, va, pa) && a.next == []
    case Unmap(_) => false
  }

  /** There is no step from where the machine stops. */
  lemma StopsExactly(dir: nat, a: Space, e: Event, b: Space)
    requires ValidEvent(e) && Step(dir, a, e, b)
    ensures !Stops(dir, a, e)
  {
    hide WithMapping, Surviving, SinglePages, DataKept, IsTable, MapEffect, Serviceable;
    match e
    case Fault(cr2, errorCode) =>
      var f :| FaultServiced(dir, a, b, cr2 / PAGE_SIZE, f);
      ServicedWasServiceable(dir, a, b, cr2, errorCode, f);
    case Map(va, pa, flags) =>
    case Unmap(va) =>
  }

  // ------------------------------------------------------------------ runs

  /** `trace` are the states of a run of `events`. */
  ghost predicate IsRun(dir: nat, ident: nat, trace: seq<Space>, events: seq<Event>) {
    && |trace| == |events| + 1
    && (forall i :: 0 <= i < |trace| ==> OwnedSpace(trace[i], dir, ident))
    && (forall i :: 0 <= i < |events| ==> Step(dir, trace[i], events[i], trace[i + 1]))
  }

  /** A successful unmap at `e` hits the entry of page `v`. */
  ghost predicate Hits(dir: nat, a: Space, e: Event, v: nat) {
    && e.Unmap? && Unmaps(dir, a, e.va)
    && v < FRAMES && SharesEntry(a.mem, dir, v, e.va / PAGE_SIZE)
  }

  /** Page `v` was served by event `i`. */
  ghost predicate Serves(e: Event, v: nat) { e.Fault? && e.cr2 / PAGE_SIZE == v }

  /** From event `i` up to event `n` no unmap hit the entry of `v`. */
  ghost predicate Spared(dir: nat, trace: seq<Space>, events: seq<Event>, v: nat, i: int, n: nat)
    requires |trace| == |events| + 1 && n <= |events| && 0 <= i
  {
    forall j :: i <= j < n ==> !Hits(dir, trace[j], events[j], v)
  }

  /** Page `v` is backed after `n` events because event `i` served it. */
  ghost predicate BackedBy(dir: nat, trace: seq<Space>, events: seq<Event>, v: nat, i: nat, n: nat)
    requires |trace| == |events| + 1 && n <= |events|
  {
    i < n && Serves(events[i], v) && Spared(dir, trace, events, v, i + 1, n)
  }

  /** What one event does to the pages faulted in. */
  lemma DemandStep(dir: nat, ident: nat, a: Space, e: Event, b: Space, v: nat)
    requires OwnedSpace(a, dir, ident) && Step(dir, a, e, b) && v < FRAMES
    ensures v in b.demand <==> Serves(e, v) || (v in a.demand && !Hits(dir, a, e, v))
    ensures v in b.demand && v in a.demand ==> b.demand[v] == a.demand[v]
  {
    hide Owned, MapEffect, UnmapEffect, DataKept, Consumes, WithMapping, Translate, FaultPages, TablePages;
  }

  /** The pages faulted in after `n` events are exactly those that some event
      served, or that were there before, and no later unmap hit. */
  lemma {:induction false} DemandExactly(
    dir: nat, ident: nat, trace: seq<Space>, events: seq<Event>, v: nat, n: nat)
    requires IsRun(dir, ident, trace, events) && v < FRAMES && n <= |events|
    ensures v in trace[n].demand <==>
              || (v in trace[0].demand && Spared(dir, trace, events, v, 0, n))
              || exists i: nat :: BackedBy(dir, trace, events, v, i, n)
    decreases n
  {
    hide OwnedSpace, Step, Hits, Serves;
    if n > 0 {
      var k := n - 1;
      DemandExactly(dir, ident, trace, events, v, k);
      assert OwnedSpace(trace[k], dir, ident) && Step(dir, trace[k], events[k], trace[k + 1]);
      DemandStep(dir, ident, trace[k], events[k], trace[n], v);
      if Serves(events[k], v) {
        assert BackedBy(dir, trace, events, v, k, n);
      } else if !Hits(dir, trace[k], events[k], v) {
        forall i: nat
          ensures BackedBy(dir, trace, events, v, i, n) <==> BackedBy(dir, trace, events, v, i, k)
        {
        }
      }
    }
  }

  /** Live blocks stay live, and unused pages were unused. */
  lemma GrowStep(dir: nat, a: Space, e: Event, b: Space)
    requires Step(dir, a, e, b)
    ensures a.live <= b.live && forall x :: x in b.next ==> x in a.next
    ensures forall x :: x in b.live ==> x in a.live || x.address in a.next
  {
    hide MapEffect, UnmapEffect, DataKept, WithMapping, Translate, Surviving, SinglePages;
  }

  lemma {:induction false} Grows(dir: nat, ident: nat, trace: seq<Space>, events: seq<Event>, i: nat, n: nat)
    requires IsRun(dir, ident, trace, events) && i <= n <= |events|
    ensures trace[i].live <= trace[n].live && forall x :: x in trace[n].next ==> x in trace[i].next
    ensures forall x :: x in trace[n].live ==> x in trace[i].live || x.address in trace[i].next
    decreases n
  {
    hide OwnedSpace, Step;
    if i < n {
      Grows(dir, ident, trace, events, i, n - 1);
      assert Step(dir, trace[n - 1], events[n - 1], trace[n - 1 + 1]);
      GrowStep(dir, trace[n - 1], events[n - 1], trace[n]);
    }
  }

  /** Data stays data: a frame handed out that is no table never becomes one. */
  lemma DataStep(dir: nat, ident: nat, a: Space, e: Event, b: Space, f: nat)
    requires OwnedSpace(a, dir, ident) && Step(dir, a, e, b)
    requires f < FRAMES && f in SinglePages(a.live) && !IsTable(a.mem, dir, f)
    ensures !IsTable(b.mem, dir, f)
  {
    hide Owned, MapEffect, Consumes, WithMapping, Translate, Surviving, SinglePages, FaultPages;
    OwnedDirectory(a, dir, ident);
  }

  lemma OwnedDirectory(a: Space, dir: nat, ident: nat)
    requires OwnedSpace(a, dir, ident)
    ensures dir < FRAMES && dir !in SinglePages(a.live) && ident !in SinglePages(a.live)
    ensures forall g :: IsTable(a.mem, dir, g) ==> g == ident || g in SinglePages(a.live)
  {
  }

  lemma {:induction false} DataForever(
    dir: nat, ident: nat, trace: seq<Space>, events: seq<Event>, f: nat, i: nat, n: nat)
    requires IsRun(dir, ident, trace, events) && i <= n <= |events| && dir < FRAMES
    requires f < FRAMES && f in SinglePages(trace[i].live) && !IsTable(trace[i].mem, dir, f)
    ensures !IsTable(trace[n].mem, dir, f)
    decreases n
  {
    hide OwnedSpace, Step, IsTable, SinglePages;
    if i < n {
      DataForever(dir, ident, trace, events, f, i, n - 1);
      Grows(dir, ident, trace, events, i, n - 1);
      MoreSinglePages(trace[i].live, trace[n - 1].live);
      assert OwnedSpace(trace[n - 1], dir, ident) && Step(dir, trace[n - 1], events[n - 1], trace[n - 1 + 1]);
      DataStep(dir, ident, trace[n - 1], events[n - 1], trace[n], f);
    }
  }

  lemma MoreSinglePages(a: set<Extent>, b: set<Extent>)
    requires a <= b
    ensures SinglePages(a) <= SinglePages(b)
  {
  }

  /** The frame that event `i` gave to a page. */
  ghost predicate Gave(dir: nat, trace: seq<Space>, events: seq<Event>, i: nat, f: nat)
    requires |trace| == |events| + 1
  {
    && i < |events| && events[i].Fault?
    && FaultServiced(dir, trace[i], trace[i + 1], events[i].cr2 / PAGE_SIZE, f)
  }

  /** A frame given to a page is a page table at no time of the run, before or
      after, even if the page has been unmapped. */
  lemma FrameNeverTable(dir: nat, ident: nat, trace: seq<Space>, events: seq<Event>, i: nat, f: nat, n: nat)
    requires IsRun(dir, ident, trace, events) && Gave(dir, trace, events, i, f) && n <= |events|
    ensures dir < FRAMES && !IsTable(trace[n].mem, dir, f)
  {
    hide Owned, MapEffect, Consumes, WithMapping, Surviving, SinglePages, FaultPages, DataKept, IsTable, Step;
    assert OwnedSpace(trace[n], dir, ident) && OwnedSpace(trace[i + 1], dir, ident);
    OwnedDirectory(trace[n], dir, ident);
    OwnedDirectory(trace[i + 1], dir, ident);
    if n <= i {
      Grows(dir, ident, trace, events, n, i);
      MoreSinglePages(trace[n].live, trace[i].live);
    } else {
      DataForever(dir, ident, trace, events, f, i + 1, n);
    }
  }

  /** No two faults of a run are given the same frame. */
  lemma FramesNeverReused(
    dir: nat, ident: nat, trace: seq<Space>, events: seq<Event>, i: nat, f: nat, j: nat, g: nat)
    requires IsRun(dir, ident, trace, events)
    requires i < j && Gave(dir, trace, events, i, f) && Gave(dir, trace, events, j, g)
    ensures f != g
  {
    hide OwnedSpace, MapEffect, Consumes, WithMapping, SinglePages, FaultPages, DataKept, IsTable, Step;
    Grows(dir, ident, trace, events, i + 1, j);
    MoreSinglePages(trace[i + 1].live, trace[j].live);
  }

  // ---------------------------------------------------- the kernel's window

  /** The event unmaps no page of the two ranges that boot mapped. */
  predicate SparesWindow(e: Event) {
    e.Unmap? ==> Slot(e.va / PAGE_SIZE) != 0 && Slot(e.va / PAGE_SIZE) != KERNEL_SLOT
  }

  lemma WindowStep(dir: nat, ident: nat, a: Space, e: Event, b: Space)
    requires OwnedSpace(a, dir, ident) && Step(dir, a, e, b) && dir < FRAMES && SparesWindow(e)
    requires WindowOpen(a.mem, dir)
    ensures WindowOpen(b.mem, dir)
  {
    hide MapEffect, UnmapEffect, Consumes, WithMapping, Surviving, SinglePages, FaultPages, DataKept, IsTable,
         WindowOpen, Translate;
    match e
    case Fault(cr2, _) =>
      var f :| FaultServiced(dir, a, b, cr2 / PAGE_SIZE, f);
      MapKeepsWindow(a.mem, b.mem, dir, cr2 / PAGE_SIZE, Some(f));
    case Map(va, pa, flags) =>
      if DidMap(dir, a, va, pa, flags, b) {
        MapKeepsWindow(a.mem, b.mem, dir, va / PAGE_SIZE, if flags.present then Some(pa / PAGE_SIZE) else None);
      }
    case Unmap(va) =>
      if Unmaps(dir, a, va) {
        UnmapKeepsWindow(a.mem, b.mem, dir, ident, va / PAGE_SIZE);
      }
  }

  lemma {:induction false} WindowStaysOpen(dir: nat, ident: nat, trace: seq<Space>, events: seq<Event>, n: nat)
    requires IsRun(dir, ident, trace, events) && n <= |events| && dir < FRAMES
    requires WindowOpen(trace[0].mem, dir) && forall e :: e in events ==> SparesWindow(e)
    ensures WindowOpen(trace[n].mem, dir)
    decreases n
  {
    hide OwnedSpace, Step, WindowOpen, SparesWindow;
    if n > 0 {
      WindowStaysOpen(dir, ident, trace, events, n - 1);
      assert OwnedSpace(trace[n - 1], dir, ident) && Step(dir, trace[n - 1], events[n - 1], trace[n - 1 + 1]);
      assert SparesWindow(events[n - 1]);
      WindowStep(dir, ident, trace[n - 1], events[n - 1], trace[n]);
    }
  }

  /** Nothing the allocator has or had lies above the first 4 MiB. */
  ghost predicate BelowWindow(a: Space) {
    && (forall x :: x in a.live ==> x.address < ENTRIES * PAGE_SIZE)
    && (forall x :: x in a.next ==> x < ENTRIES * PAGE_SIZE)
  }

  /** The kernel reaches its page tables: with all regions below 4 MiB and no
      unmapping of the ranges that boot mapped, every page table of every state
      of a run is found at the address at which the kernel accesses it. */
  lemma TablesReachable(dir: nat, ident: nat, trace: seq<Space>, events: seq<Event>, n: nat, t: nat)
    requires IsRun(dir, ident, trace, events) && n <= |events| && dir < FRAMES && ident < ENTRIES
    requires BootTables(trace[0].mem, dir, ident) && BelowWindow(trace[0])
    requires forall e :: e in events ==> SparesWindow(e)
    requires IsTable(trace[n].mem, dir, t)
    ensures t < ENTRIES && Translate(trace[n].mem, dir, KernelPage(t)) == Some(t)
  {
    hide Owned, Step, Translate, IsTable, SparesWindow, KernelPage, BootTables;
    BootWindow(trace[0].mem, dir, ident);
    WindowStaysOpen(dir, ident, trace, events, n);
    assert OwnedSpace(trace[n], dir, ident);
    OwnedDirectory(trace[n], dir, ident);
    Grows(dir, ident, trace, events, 0, n);
  }
}
