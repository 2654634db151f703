/** A region as a state machine: what one allocation or one free does to the
    tiling, and what holds after any run of them. */
module Runs {
  import opened Bits
  import opened Tiling
  import opened TilingSteps
  import opened Carve

  /** `Alloc(i, k)` takes a run of order `k` from the free block at page `i`;
      `Free(i)` frees the allocated block at page `i`. */
  datatype Op = Alloc(i: nat, k: nat) | Free(i: nat)

  ghost predicate Enabled(own: seq<Tile>, op: Op) {
    && op.i < |own| && own[op.i].idx == op.i
    && match op {
         case Alloc(i, k) => own[i].free && k <= own[i].ord
         case Free(i) => !own[i].free
       }
  }

  /** Halve the allocated block at `i` down to order `k`. */
  ghost function SplitTo(own: seq<Tile>, i: nat, k: nat): seq<Tile>
    requires IsTiling(own) && i < |own| && own[i].idx == i && !own[i].free
    decreases own[i].ord
  {
    if own[i].ord <= k then own
    else
      SplitTiling(own, i);
      SplitAt(own, i, i);
      SplitTo(Split(own, i), i, k)
  }

  /** Merge the block at `i` with free buddies as long as possible, then free
      it. */
  ghost function CoalesceUp(own: seq<Tile>, i: nat): seq<Tile>
    requires IsTiling(own) && i < |own| && own[i].idx == i && !own[i].free
    decreases MAX_ORDER - own[i].ord
  {
    var k := own[i].ord;
    assert own[i].Fits(|own|);
    if k < MAX_ORDER && IsFree(own, Buddy(i, k), k) then
      BuddyFacts(i, k);
      var lo := if i < Buddy(i, k) then i else Buddy(i, k);
      MergeTiling(own, lo, k);
      CoalesceUp(Merge(own, lo, k), lo)
    else SetFree(own, i, true)
  }

  ghost function Apply(own: seq<Tile>, op: Op): seq<Tile>
    requires Canon(own) && Enabled(own, op)
  {
    match op
    case Alloc(i, k) =>
      SetFreeTiling(own, i, false);
      SplitTo(SetFree(own, i, false), i, k)
    case Free(i) => CoalesceUp(own, i)
  }

  /** Splitting keeps the tiling canonical and shrinks one live block. */
  lemma {:induction false} SplitToFacts(own: seq<Tile>, i: nat, k: nat)
    requires Canon(own) && i < |own| && own[i].idx == i && !own[i].free && k <= own[i].ord
    ensures Canon(SplitTo(own, i, k)) && |SplitTo(own, i, k)| == |own|
    ensures Live(SplitTo(own, i, k)) == Live(own) - {own[i]} + {Tile(i, k, false)}
    decreases own[i].ord
  {
    hide Canon, Aligned;
    CanonTiling(own);
    LiveMembership(own, own[i]);
    if own[i].ord > k {
      SplitCanon(own, i);
      SplitLive(own, i);
      SplitAt(own, i, i);
      LiveMembership(own, Tile(i, own[i].ord - 1, false));
      SplitToFacts(Split(own, i), i, k);
    }
  }

  lemma CanonTiling(own: seq<Tile>)
    requires Canon(own)
    ensures IsTiling(own)
  {
  }

  /** Coalescing keeps the tiling canonical and frees exactly one live block. */
  lemma {:induction false} CoalesceUpFacts(own: seq<Tile>, i: nat)
    requires Canon(own) && i < |own| && own[i].idx == i && !own[i].free
    ensures Canon(CoalesceUp(own, i)) && |CoalesceUp(own, i)| == |own|
    ensures Live(CoalesceUp(own, i)) == Live(own) - {own[i]}
    decreases MAX_ORDER - own[i].ord
  {
    hide Canon, Aligned;
    CanonTiling(own);
    var k := own[i].ord;
    if k < MAX_ORDER && IsFree(own, Buddy(i, k), k) {
      BuddyFacts(i, k);
      var lo := if i < Buddy(i, k) then i else Buddy(i, k);
      MergeCanon(own, lo, k);
      MergeLive(own, lo, k, i);
      LiveMembership(own, Tile(lo, k + 1, false));
      CoalesceUpFacts(Merge(own, lo, k), lo);
    } else {
      GiveCanon(own, i);
      GiveLive(own, i);
    }
  }

  /** One step: the tiling stays canonical, and the live blocks change by
      exactly the block allocated or freed. */
  lemma ApplyFacts(own: seq<Tile>, op: Op)
    requires Canon(own) && Enabled(own, op)
    ensures Canon(Apply(own, op)) && |Apply(own, op)| == |own|
    ensures op.Alloc? ==> Live(Apply(own, op)) == Live(own) + {Tile(op.i, op.k, false)}
    ensures op.Free? ==> Live(Apply(own, op)) == Live(own) - {own[op.i]}
  {
    match op
    case Alloc(i, k) =>
      TakeCanon(own, i);
      TakeLive(own, i);
      LiveMembership(own, own[i].(free := false));
      SplitToFacts(SetFree(own, i, false), i, k);
    case Free(i) =>
      CoalesceUpFacts(own, i);
  }

  /** A run in which every operation is one the allocator would perform. */
  ghost predicate Runnable(own: seq<Tile>, ops: seq<Op>)
    requires Canon(own)
    decreases |ops|
  {
    |ops| == 0 ||
    (Enabled(own, ops[0]) && (ApplyFacts(own, ops[0]); Runnable(Apply(own, ops[0]), ops[1..])))
  }

  ghost function After(own: seq<Tile>, ops: seq<Op>): seq<Tile>
    requires Canon(own) && Runnable(own, ops)
    decreases |ops|
  {
    if |ops| == 0 then own
    else
      ApplyFacts(own, ops[0]);
      After(Apply(own, ops[0]), ops[1..])
  }

  lemma {:induction false} RunCanon(own: seq<Tile>, ops: seq<Op>)
    requires Canon(own) && Runnable(own, ops)
    ensures Canon(After(own, ops)) && |After(own, ops)| == |own|
    decreases |ops|
  {
    if |ops| > 0 {
      ApplyFacts(own, ops[0]);
      RunCanon(Apply(own, ops[0]), ops[1..]);
    }
  }

  /** The allocator's central law.  After any run from the initial carve, the
      free blocks are the maximal aligned unallocated runs; and when nothing
      is live any more, the carve is restored. */
  lemma AnyRun(n: nat, ops: seq<Op>)
    requires (InitialCanon(n); Runnable(InitialTiling(n), ops))
    ensures Canon(InitialTiling(n))
    ensures var own := After(InitialTiling(n), ops);
            && |own| == n && IsTiling(own)
            && (forall i: nat, k: nat :: IsFree(own, i, k) <==> MaximalRun(n, Live(own), i, k))
            && (Live(own) == {} ==> own == InitialTiling(n))
  {
    InitialCanon(n);
    RunCanon(InitialTiling(n), ops);
    var own := After(InitialTiling(n), ops);
    forall i: nat, k: nat
      ensures IsFree(own, i, k) <==> MaximalRun(n, Live(own), i, k)
    {
      CanonicalForm(own, i, k);
    }
    if Live(own) == {} {
      NothingLiveIsInitial(own);
    }
  }

  /** History does not matter: two runs that leave the same blocks live leave
      the same free blocks. */
  lemma HistoryIndependent(n: nat, ops: seq<Op>, ops': seq<Op>)
    requires (InitialCanon(n); Runnable(InitialTiling(n), ops) && Runnable(InitialTiling(n), ops'))
    ensures Canon(InitialTiling(n))
    ensures var a, b := After(InitialTiling(n), ops), After(InitialTiling(n), ops');
            Live(a) == Live(b) ==> a == b
  {
    InitialCanon(n);
    RunCanon(InitialTiling(n), ops);
    RunCanon(InitialTiling(n), ops');
    var a, b := After(InitialTiling(n), ops), After(InitialTiling(n), ops');
    if Live(a) == Live(b) {
      SameLiveSameTiling(a, b);
    }
  }

  /** Freeing what was just allocated restores the region exactly. */
  lemma AllocThenFree(own: seq<Tile>, i: nat, k: nat)
    requires Canon(own) && Enabled(own, Alloc(i, k))
    ensures var taken := Apply(own, Alloc(i, k));
            Canon(taken) && Enabled(taken, Free(i)) && Apply(taken, Free(i)) == own
  {
    var taken := Apply(own, Alloc(i, k));
    ApplyFacts(own, Alloc(i, k));
    LiveMembership(taken, Tile(i, k, false));
    LiveMembership(own, Tile(i, k, false));
    ApplyFacts(taken, Free(i));
    SameLiveSameTiling(Apply(taken, Free(i)), own);
  }
}
