/** The page tables that `vmm_preinit` leaves behind. */
module Boot {
  import opened Options
  import opened Paging
  import opened Ownership

  /** The entry `vmm_preinit` writes: present, writable, everything else 0. */
  function BootEntry(frame: nat): (e: Word)
    requires frame < FRAMES
  {
    ZERO.(address := frame, present := true, rw := true)
  }

  /** Directory and identity table as boot leaves them. */
  ghost predicate BootTables(m: Memory, dir: nat, ident: nat) {
    && dir < FRAMES && ident < FRAMES
    && (forall s :: 0 <= s < ENTRIES ==>
          m[dir][s] == if s == 0 || s == KERNEL_SLOT then BootEntry(ident) else ZERO)
    && (forall i :: 0 <= i < ENTRIES ==> m[ident][i] == BootEntry(i))
  }

  /** The table contents that `vmm_preinit` sets up. */
  method PreInit(initial: Memory, dir: nat, ident: nat) returns (m: Memory)
    requires dir < FRAMES && ident < FRAMES && dir != ident
    ensures BootTables(m, dir, ident)
    ensures forall f :: 0 <= f < FRAMES && f != dir && f != ident ==> m[f] == initial[f]
    ensures forall i :: 0 <= i < 1024 ==>
              m[ident][i] == Entry(true, true, false, false, false, false, false, false, false, 0, i)
    ensures forall s :: 0 <= s < 1024 ==>
              m[dir][s] == if s == 0 || s == 768
                           then Entry(true, true, false, false, false, false, false, false, false, 0, ident)
                           else Entry(false, false, false, false, false, false, false, false, false, 0, 0)
  {
    m := initial[dir := ZeroPage()];
    m := m[ident := ZeroPage()];
    for index := 0 to ENTRIES
      invariant m[dir] == ZeroPage()
      invariant forall i :: 0 <= i < index ==> m[ident][i] == BootEntry(i)
      invariant forall i :: index <= i < ENTRIES ==> m[ident][i] == ZERO
      invariant forall f :: 0 <= f < FRAMES && f != dir && f != ident ==> m[f] == initial[f]
    {
      m := Store(m, ident, index, m[ident][index].(address := index, present := true, rw := true));
    }
    m := Store(m, dir, 0, m[dir][0].(address := ident, present := true, rw := true));
    m := Store(m, dir, KERNEL_SLOT, m[dir][KERNEL_SLOT].(address := ident, present := true, rw := true));
  }

  /** After boot exactly the first 4 MiB are mapped, at 0 and at the kernel
      base. */
  lemma BootTranslation(m: Memory, dir: nat, ident: nat, v: nat)
    requires BootTables(m, dir, ident) && v < FRAMES
    ensures Translate(m, dir, v) == if v < 1024 then Some(v) else if v / 1024 == 768 then Some(v % 1024) else None
  {
  }

  lemma BootOwned(m: Memory, dir: nat, ident: nat, frames: set<nat>)
    requires BootTables(m, dir, ident) && dir != ident && dir !in frames && ident !in frames
    ensures Owned(m, dir, ident, frames, map[])
  {
  }

  /** Virtual page at which the kernel reaches frame `f`
      (`physical_to_virtual`, in 32-bit arithmetic). */
  function KernelPage(f: nat): nat {
    (f + KERNEL_SLOT * ENTRIES) % FRAMES
  }

  /** The kernel's own accesses to a page table go through `KernelPage`.  With
      the boot tables they reach the frame exactly when it lies in the first
      4 MiB. */
  lemma BootReachable(m: Memory, dir: nat, ident: nat, f: nat)
    requires BootTables(m, dir, ident) && f < FRAMES
    ensures KernelPage(f) == (f * 4096 + 0xC000_0000) % 0x1_0000_0000 / 4096
    ensures Translate(m, dir, KernelPage(f)) == Some(f) <==> f < ENTRIES
  {
  }

  /** The kernel reaches every frame of the first 4 MiB. */
  ghost predicate WindowOpen(m: Memory, dir: nat)
    requires dir < FRAMES
  {
    forall f: nat :: f < ENTRIES ==> Translate(m, dir, KernelPage(f)) == Some(f)
  }

  lemma BootWindow(m: Memory, dir: nat, ident: nat)
    requires BootTables(m, dir, ident)
    ensures WindowOpen(m, dir)
  {
    forall f: nat | f < ENTRIES
      ensures Translate(m, dir, KernelPage(f)) == Some(f)
    {
      BootReachable(m, dir, ident, f);
    }
  }

  /** No mapping takes a translation away, so the window stays open. */
  lemma MapKeepsWindow(m: Memory, m': Memory, dir: nat, v: nat, to: Option<nat>)
    requires dir < FRAMES && v < FRAMES && MapEffect(m, m', dir, v, to) && WindowOpen(m, dir)
    ensures WindowOpen(m', dir)
  {
  }

  /** Nor does unmapping a page of another 4 MiB range than the two that boot
      mapped. */
  lemma UnmapKeepsWindow(m: Memory, m': Memory, dir: nat, ident: nat, v: nat)
    requires dir < FRAMES && v < FRAMES && TablesDistinct(m, dir, ident)
    requires Slot(v) != 0 && Slot(v) != KERNEL_SLOT
    requires UnmapEffect(m, m', dir, v) && WindowOpen(m, dir)
    ensures WindowOpen(m', dir)
  {
    forall f: nat | f < ENTRIES
      ensures Translate(m', dir, KernelPage(f)) == Some(f)
    {
      assert Translate(m, dir, KernelPage(f)) == Some(f);
      assert Slot(KernelPage(f)) == KERNEL_SLOT;
      assert !SharesEntry(m, dir, KernelPage(f), v);
    }
  }
}
