/** `kalign_up` and `kalign_down` on 32-bit words, and the bounds that
    `pmm_add_region` derives with them. */
module Alignment {
  import opened Bits
  import opened FreeLists
  import Regions

  /** `alignment` is a power of two; its bitwise complement mask is
      `WORD - alignment`. */
  function AlignDown(value: nat, alignment: nat): nat
    requires alignment <= WORD
  {
    BitAnd(value, WORD - alignment)
  }

  function AlignUp(value: nat, alignment: nat): nat
    requires 1 <= alignment <= WORD
  {
    BitAnd((value + alignment - 1) % WORD, WORD - alignment)
  }

  lemma WordIsPow2()
    ensures Pow2(32) == WORD
  {
    Regions.PageSizeIsPow2();
    Pow2Sum(12, 20);
    Pow2Sum(12, 8);
    assert Pow2(8) == 256 by { assert Pow2(4) == 16; }
  }

  /** Rounding down yields the largest multiple not above the value. */
  lemma AlignDownPage(value: nat)
    requires value < WORD
    ensures AlignDown(value, PAGE_SIZE) == value - value % PAGE_SIZE
  {
    WordIsPow2();
    Regions.PageSizeIsPow2();
    AndHighMask(value, 12, 32);
    LowBitsIsModulo(value, 12);
  }

  /** Rounding up yields the least multiple not below the value, unless the
      sum wraps around, and then it yields 0. */
  lemma AlignUpPage(value: nat)
    requires value < WORD
    ensures AlignUp(value, PAGE_SIZE) ==
              if value <= 0xFFFF_F000 then value + (PAGE_SIZE - value % PAGE_SIZE) % PAGE_SIZE else 0
  {
    hide BitAnd;
    var sum := value + PAGE_SIZE - 1;
    AlignDownPage(sum % WORD);
    if value <= 0xFFFF_F000 {
      RoundUp(value);
    } else {
      assert sum % WORD == sum - WORD;
    }
  }

  lemma RoundUp(value: nat)
    ensures var sum := value + PAGE_SIZE - 1;
            sum - sum % PAGE_SIZE == value + (PAGE_SIZE - value % PAGE_SIZE) % PAGE_SIZE
  {
  }

  /** How `pmm_add_region` reads its arguments. */
  datatype Bounds = Overflow | NoPage | Pages(lo: nat, hi: nat)

  function RegionBounds(start: nat, size: nat): Bounds {
    var originalEnd := (start + size) % WORD;
    if start >= originalEnd then Overflow
    else
      var alignedStart := AlignUp(start, PAGE_SIZE);
      var alignedEnd := AlignDown(originalEnd, PAGE_SIZE);
      if alignedEnd <= alignedStart then NoPage else Pages(alignedStart, alignedEnd)
  }

  /** A page, given by its first byte, lies wholly inside `[from, to)`. */
  predicate PageInside(p: nat, from: nat, to: nat) {
    p % PAGE_SIZE == 0 && from <= p && p + PAGE_SIZE <= to
  }

  /** The pages taken over are exactly the whole pages inside the range the
      caller gave, provided rounding its start up does not wrap. */
  lemma BoundsExact(start: nat, size: nat)
    requires start <= 0xFFFF_F000 && size < WORD
    ensures RegionBounds(start, size).Overflow? <==> size == 0 || start + size >= WORD
    ensures var b, to := RegionBounds(start, size), start + size;
            && (b.NoPage? ==> forall p :: !PageInside(p, start, to))
            && (b.Pages? ==> forall p :: PageInside(p, start, to) <==> PageInside(p, b.lo, b.hi))
            && (b.Pages? ==> b.lo % PAGE_SIZE == 0 && b.hi % PAGE_SIZE == 0 && start <= b.lo < b.hi <= to < WORD)
  {
    hide AlignUp, AlignDown;
    SumWraps(start, size);
    BoundsShape(start, size);
    AlignUpPage(start);
    var to := start + size;
    if to < WORD {
      AlignDownPage(to);
      forall p
        ensures PageInside(p, start, to) <==> PageInside(p, AlignUp(start, PAGE_SIZE), AlignDown(to, PAGE_SIZE))
      {
        PageRounding(p, start, to);
      }
    }
  }

  /** What holds wherever the start lies. */
  lemma BoundsShape(start: nat, size: nat)
    requires start < WORD && size < WORD
    ensures RegionBounds(start, size).Overflow? <==> size == 0 || start + size >= WORD
    ensures var b := RegionBounds(start, size);
            b.Pages? ==> b.lo % PAGE_SIZE == 0 && b.hi % PAGE_SIZE == 0 && b.lo < b.hi < WORD
  {
    hide AlignUp, AlignDown;
    SumWraps(start, size);
    AlignedUp(start);
    AlignedDown((start + size) % WORD);
  }

  lemma SumWraps(a: nat, b: nat)
    requires a < WORD && b < WORD
    ensures (a + b) % WORD == if a + b < WORD then a + b else a + b - WORD
  {
  }

  lemma AlignedUp(value: nat)
    requires value < WORD
    ensures AlignUp(value, PAGE_SIZE) % PAGE_SIZE == 0
  {
    hide AlignUp;
    AlignUpPage(value);
  }

  lemma AlignedDown(value: nat)
    requires value < WORD
    ensures AlignDown(value, PAGE_SIZE) % PAGE_SIZE == 0 && AlignDown(value, PAGE_SIZE) <= value
  {
    hide AlignDown;
    AlignDownPage(value);
  }

  lemma PageRounding(p: nat, from: nat, to: nat)
    ensures var lo, hi := from + (PAGE_SIZE - from % PAGE_SIZE) % PAGE_SIZE, to - to % PAGE_SIZE;
            PageInside(p, from, to) <==> PageInside(p, lo, hi)
  {
  }

  /** Above 0xFFFFF000 the rounded start wraps to 0, so the region taken over
      is not the one requested: the bounds stay inside the request exactly
      when the start is at most 0xFFFFF000. */
  lemma BoundsInsideIff(start: nat, size: nat)
    requires start < WORD && size < WORD && RegionBounds(start, size).Pages?
    ensures var b := RegionBounds(start, size);
            (start <= b.lo && b.hi <= start + size) <==> start <= 0xFFFF_F000
  {
    if start <= 0xFFFF_F000 {
      BoundsExact(start, size);
    } else {
      AlignUpPage(start);
    }
  }

  /** A one-byte region near the top of the address space hands almost all of
      memory to the allocator. */
  lemma WrappedBounds()
    ensures RegionBounds(0xFFFF_F001, 1) == Pages(0, 0xFFFF_F000)
  {
    AlignUpPage(0xFFFF_F001);
    AlignDownPage(0xFFFF_F002);
  }
}
