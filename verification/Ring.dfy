/** The cyclic buffer of `kbuffer.c` against a queue that drops its oldest
    element, including pops that interrupts push into. */
module Rings {
  import opened Bits
  import opened Options

  // ----------------------------------------------------------- the queue

  function LastN<T>(s: seq<T>, n: nat): seq<T> {
    if |s| <= n then s else s[|s| - n..]
  }

  /** A push on a queue of at most `n` elements: the oldest makes room. */
  function QueuePush<T>(q: seq<T>, x: T, n: nat): seq<T> { LastN(q + [x], n) }

  // ------------------------------------------------------ the ring as a value

  /** `(i + 1) % cap` for an index. */
  function Next(i: nat, cap: nat): nat { if i + 1 == cap then 0 else i + 1 }

  lemma NextIsModulo(i: nat, cap: nat)
    requires i < cap
    ensures Next(i, cap) == (i + 1) % cap
  {
  }

  datatype Ring<T> = Ring(buf: seq<T>, head: nat, tail: nat) {
    ghost predicate Valid() { head < |buf| && tail < |buf| }

    function Full(): bool
      requires Valid()
    {
      Next(head, |buf|) == tail
    }

    function Size(): nat
      requires Valid()
    {
      if tail <= head then head - tail else head + |buf| - tail
    }

    /** Oldest first. */
    function Contents(): (q: seq<T>)
      requires Valid()
      ensures |q| == Size()
    {
      if tail <= head then buf[tail..head] else buf[tail..] + buf[..head]
    }

    function Push(x: T): Ring<T>
      requires Valid()
    {
      Ring(buf[head := x], Next(head, |buf|), if Full() then Next(tail, |buf|) else tail)
    }
  }

  /** Full and empty are what they claim to be. */
  lemma FullIffNoRoom<T>(s: Ring<T>)
    requires s.Valid()
    ensures s.Full() <==> |s.Contents()| == |s.buf| - 1
    ensures s.head == s.tail <==> s.Contents() == []
  {
  }

  /** Pushing is pushing on the queue of capacity one less than the storage. */
  lemma PushRefines<T>(s: Ring<T>, x: T)
    requires s.Valid()
    ensures s.Push(x).Valid() && |s.Push(x).buf| == |s.buf|
    ensures s.Push(x).Contents() == QueuePush(s.Contents(), x, |s.buf| - 1)
  {
    var q, r := s.Contents(), s.Push(x);
    if s.Full() {
      assert r.Contents() == (q + [x])[1..];
    } else {
      assert r.Contents() == q + [x];
    }
  }

  lemma SizeBelow<T>(s: Ring<T>)
    requires s.Valid()
    ensures |s.Contents()| <= |s.buf| - 1
  {
  }

  // ------------------------------------------------------- runs of operations

  datatype Op<T> = Put(x: T) | Take

  /** What a run hands out, one entry per `Take`, and what it leaves. */
  datatype Outcome<T, S> = Outcome(outs: seq<Option<T>>, left: S)

  function RunRing<T>(s: Ring<T>, ops: seq<Op<T>>): (r: Outcome<T, Ring<T>>)
    requires s.Valid()
    ensures r.left.Valid() && |r.left.buf| == |s.buf|
    decreases |ops|
  {
    if |ops| == 0 then Outcome([], s)
    else match ops[0]
      case Put(x) => RunRing(s.Push(x), ops[1..])
      case Take =>
        if s.head == s.tail then
          var r := RunRing(s, ops[1..]);
          Outcome([None] + r.outs, r.left)
        else
          var r := RunRing(s.(tail := Next(s.tail, |s.buf|)), ops[1..]);
          Outcome([Some(s.buf[s.tail])] + r.outs, r.left)
  }

  function RunQueue<T>(q: seq<T>, ops: seq<Op<T>>, n: nat): Outcome<T, seq<T>>
    decreases |ops|
  {
    if |ops| == 0 then Outcome([], q)
    else match ops[0]
      case Put(x) => RunQueue(QueuePush(q, x, n), ops[1..], n)
      case Take =>
        var r := RunQueue(if |q| == 0 then q else q[1..], ops[1..], n);
        Outcome([if |q| == 0 then None else Some(q[0])] + r.outs, r.left)
  }

  /** Any run of pushes and pops hands out what the queue hands out and leaves
      what the queue holds. */
  lemma {:induction false} RunRefines<T>(s: Ring<T>, ops: seq<Op<T>>)
    requires s.Valid()
    ensures var r, q := RunRing(s, ops), RunQueue(s.Contents(), ops, |s.buf| - 1);
            r.outs == q.outs && r.left.Contents() == q.left
    decreases |ops|
  {
    hide Ring.Contents, Ring.Push, LastN;
    if |ops| > 0 {
      match ops[0]
      case Put(x) =>
        PushRefines(s, x);
        RunRefines(s.Push(x), ops[1..]);
      case Take =>
        FullIffNoRoom(s);
        if s.head == s.tail {
          RunRefines(s, ops[1..]);
        } else {
          PopContents(s);
          FrontElement(s);
          RunRefines(s.(tail := Next(s.tail, |s.buf|)), ops[1..]);
        }
    }
  }

  // -------------------------------------------------------- repeated pushes

  function Pushes<T>(s: Ring<T>, xs: seq<T>): (r: Ring<T>)
    requires s.Valid()
    ensures r.Valid() && |r.buf| == |s.buf|
    decreases |xs|
  {
    if |xs| == 0 then s else Pushes(s.Push(xs[0]), xs[1..])
  }

  /** How many of the pushes find the ring full. */
  function Drops<T>(s: Ring<T>, xs: seq<T>): nat
    requires s.Valid()
    decreases |xs|
  {
    if |xs| == 0 then 0 else (if s.Full() then 1 else 0) + Drops(s.Push(xs[0]), xs[1..])
  }

  lemma LastNAgain<T>(s: seq<T>, x: seq<T>, n: nat)
    ensures LastN(LastN(s, n) + x, n) == LastN(s + x, n)
  {
  }

  lemma {:induction false} PushesRefine<T>(s: Ring<T>, xs: seq<T>)
    requires s.Valid()
    ensures Pushes(s, xs).Contents() == LastN(s.Contents() + xs, |s.buf| - 1)
    decreases |xs|
  {
    hide Ring.Contents, Ring.Push, LastN;
    if |xs| == 0 {
      SizeBelow(s);
      assert s.Contents() + xs == s.Contents();
      FitsWhole(s.Contents(), |s.buf| - 1);
    } else {
      PushRefines(s, xs[0]);
      PushesRefine(s.Push(xs[0]), xs[1..]);
      LastNAgain(s.Contents() + [xs[0]], xs[1..], |s.buf| - 1);
      assert s.Contents() + [xs[0]] + xs[1..] == s.Contents() + xs;
    }
  }

  /** `d` steps around the ring. */
  function Advance(t: nat, d: nat, cap: nat): nat
    decreases d
  {
    if d == 0 then t else Advance(Next(t, cap), d - 1, cap)
  }

  lemma {:induction false} AdvanceIsModulo(t: nat, d: nat, cap: nat)
    requires t < cap
    ensures Advance(t, d, cap) == (t + d) % cap
    decreases d
  {
    if d == 0 {
      MultiplePlus(cap, 0, t);
    } else {
      AdvanceIsModulo(Next(t, cap), d - 1, cap);
      NextIsModulo(t, cap);
      AddModulo(t + 1, d - 1, cap);
    }
  }

  /** Each push into a full ring moves the tail by one; the number of those is
      what does not fit. */
  lemma {:induction false} DropsCount<T>(s: Ring<T>, xs: seq<T>)
    requires s.Valid()
    ensures Drops(s, xs) == if |s.Contents()| + |xs| < |s.buf| then 0 else |s.Contents()| + |xs| - (|s.buf| - 1)
    ensures Pushes(s, xs).tail == Advance(s.tail, Drops(s, xs), |s.buf|)
    decreases |xs|
  {
    if |xs| > 0 {
      PushRefines(s, xs[0]);
      FullIffNoRoom(s);
      DropsCount(s.Push(xs[0]), xs[1..]);
    }
  }

  lemma AddModulo(a: nat, b: nat, m: nat)
    requires m > 0
    ensures (a % m + b) % m == (a + b) % m
  {
    var q, r := (a % m + b) / m, (a % m + b) % m;
    assert a == m * (a / m) + a % m;
    assert a + b == m * (a / m + q) + r;
    MultiplePlus(m, a / m + q, r);
  }

  // --------------------------------------------------- interrupted pops

  /** A pop in its separate memory accesses, with the pushes that interrupts
      make between them: `p1` between the emptiness check and the load of
      `tail` for the source address, `p2` between that load and the copy, `p3`
      between the copy and the second load of `tail`, `p4` between that load
      and the store of its successor.  The copy is one access. */
  datatype Interrupted<T> = Interrupted(s: Ring<T>, p1: seq<T>, p2: seq<T>, p3: seq<T>, p4: seq<T>) {
    /** The pop gets past its emptiness check. */
    ghost predicate Valid() { s.Valid() && s.Contents() != [] }

    function AtAddress(): Ring<T>
      requires s.Valid()
    {
      Pushes(s, p1)
    }

    function AtCopy(): Ring<T>
      requires s.Valid()
    {
      Pushes(AtAddress(), p2)
    }

    function AtLoad(): Ring<T>
      requires s.Valid()
    {
      Pushes(AtCopy(), p3)
    }

    function AtStore(): Ring<T>
      requires s.Valid()
    {
      Pushes(AtLoad(), p4)
    }

    /** What the pop hands out. */
    function Popped(): T
      requires s.Valid()
    {
      AtCopy().buf[AtAddress().tail]
    }

    function Final(): Ring<T>
      requires s.Valid()
    {
      AtStore().(tail := Next(AtLoad().tail, |s.buf|))
    }

    /** The same pushes around a pop that happens in one step when the source
        address is formed. */
    function Atomic(): seq<T>
      requires s.Valid() && AtAddress().Contents() != []
    {
      LastN(AtAddress().Contents()[1..] + (p2 + p3) + p4, |s.buf| - 1)
    }

    /** The element at the source address when the copy is made: the oldest,
        unless pushes have come round to it; then the last that did. */
    function Found(): T
      requires s.Valid() && AtAddress().Contents() != []
    {
      var c, cap := |AtAddress().Contents()|, |s.buf|;
      var round := (c + |p2| - 1) / cap * cap - c;
      if 0 <= round < |p2| then p2[round] else AtAddress().Contents()[0]
    }
  }

  lemma {:induction false} PushesJoin<T>(s: Ring<T>, xs: seq<T>, ys: seq<T>)
    requires s.Valid()
    ensures Pushes(Pushes(s, xs), ys) == Pushes(s, xs + ys)
    decreases |xs|
  {
    if |xs| == 0 {
      assert xs + ys == ys;
    } else {
      PushesJoin(s.Push(xs[0]), xs[1..], ys);
      assert (xs + ys)[1..] == xs[1..] + ys;
    }
  }

  /** Pushes may also fall between the two loads of the emptiness check, in
      either order; a check that is passed has found elements all the same. */
  lemma PassedCheck<T>(s: Ring<T>, xs: seq<T>)
    requires s.Valid() && (s.head != Pushes(s, xs).tail || s.tail != Pushes(s, xs).head)
    ensures Pushes(s, xs).Contents() != []
  {
    PushesRefine(s, xs);
  }

  lemma AddressNotEmpty<T>(i: Interrupted<T>)
    requires i.Valid()
    ensures i.AtAddress().Contents() != [] && |i.s.buf| >= 2
  {
    PushesRefine(i.s, i.p1);
  }

  /** Of `n` pushes, the last that hits the slot `d` steps ahead of the head;
      it takes `d` pushes to get there and `cap` for each further round. */
  function LastHit(d: nat, n: nat, cap: nat): (r: nat)
    requires d < n && cap > 0
    ensures d <= r < n
  {
    RoundDown(n - 1 - d, cap);
    d + (n - 1 - d) / cap * cap
  }

  lemma RoundDown(a: nat, m: nat)
    requires m > 0
    ensures 0 <= a / m * m <= a
    ensures a < m ==> a / m == 0
    ensures a >= m ==> a / m == (a - m) / m + 1 && a / m * m == (a - m) / m * m + m
  {
    assert a == m * (a / m) + a % m;
    if a < m {
      MultiplePlus(m, 0, a);
    } else {
      var q, r := (a - m) / m, (a - m) % m;
      assert a - m == m * q + r;
      assert a == m * (q + 1) + r;
      MultiplePlus(m, q + 1, r);
    }
  }

  lemma FullRound(h: nat, cap: nat)
    requires h < cap
    ensures Advance(Next(h, cap), cap - 1, cap) == h
    ensures forall d: nat :: 0 < d < cap ==> Advance(h, d, cap) != h
  {
    AdvanceIsModulo(h, cap, cap);
    assert Advance(h, cap, cap) == Advance(Next(h, cap), cap - 1, cap);
    MultiplePlus(cap, 1, h);
    forall d: nat | 0 < d < cap
      ensures Advance(h, d, cap) != h
    {
      AdvanceIsModulo(h, d, cap);
      SmallSum(h, d, cap);
    }
  }

  /** What a slot holds after pushes. */
  lemma {:induction false} SlotAfter<T>(s: Ring<T>, xs: seq<T>, slot: nat, d: nat)
    requires s.Valid() && d < |s.buf| && slot == Advance(s.head, d, |s.buf|) && slot < |s.buf|
    ensures Pushes(s, xs).buf[slot] ==
              if |xs| <= d then s.buf[slot] else xs[LastHit(d, |xs|, |s.buf|)]
    decreases |xs|
  {
    if |xs| > 0 {
      var cap, n := |s.buf|, |xs|;
      var s' := s.Push(xs[0]);
      FullRound(s.head, cap);
      if d > 0 {
        SlotAfter(s', xs[1..], slot, d - 1);
      } else {
        SlotAfter(s', xs[1..], slot, cap - 1);
        RoundDown(n - 1, cap);
      }
    }
  }

  lemma PoppedIsFound<T>(i: Interrupted<T>)
    requires i.Valid() && i.AtAddress().Contents() != [] && |i.s.buf| >= 2
    ensures i.Popped() == i.Found()
    ensures Drops(i.AtAddress(), i.p2) <= 1 ==> i.Found() == i.AtAddress().Contents()[0]
    ensures Drops(i.AtAddress(), i.p2) >= 2 ==> i.Found() in i.p2
  {
    hide Ring.Contents, Pushes, Drops;
    var s, cap := i.AtAddress(), |i.s.buf|;
    var c := |s.Contents()|;
    HeadToTail(s);
    FrontElement(s);
    DropsCount(s, i.p2);
    SlotAfter(s, i.p2, s.tail, cap - c);
    RoundDown(c + |i.p2| - 1, cap);
  }

  lemma HeadToTail<T>(s: Ring<T>)
    requires s.Valid() && s.Contents() != []
    ensures Advance(s.head, |s.buf| - |s.Contents()|, |s.buf|) == s.tail
  {
    var cap, c := |s.buf|, |s.Contents()|;
    AdvanceIsModulo(s.head, cap - c, cap);
    SmallSum(s.head, cap - c, cap);
  }

  /** What an interrupted pop hands out, in every case, and when it leaves what
      an atomic pop leaves.  It hands out the oldest element unless two pushes
      between address and copy find the ring full.  It leaves the right queue
      exactly when no push between address and store finds the ring full, or
      those after the second load of `tail` that do number one, modulo the
      capacity. */
  lemma InterruptedPop<T>(i: Interrupted<T>)
    requires i.Valid()
    ensures i.AtAddress().Contents() != [] && i.Popped() == i.Found()
    ensures Drops(i.AtAddress(), i.p2) <= 1 ==> i.Popped() == i.AtAddress().Contents()[0]
    ensures Drops(i.AtAddress(), i.p2) >= 2 ==> i.Popped() in i.p2
    ensures i.Final().Contents() == i.Atomic() <==>
              || (Drops(i.AtAddress(), i.p2 + i.p3) == 0 && Drops(i.AtLoad(), i.p4) == 0)
              || Drops(i.AtLoad(), i.p4) % |i.s.buf| == 1
  {
    AddressNotEmpty(i);
    PoppedIsFound(i);
    PushesJoin(i.AtAddress(), i.p2, i.p3);
    if Drops(i.AtLoad(), i.p4) == 0 {
      NoDropAfterLoad(i);
    } else {
      DropAfterLoad(i);
    }
  }

  lemma NoDropAfterLoad<T>(i: Interrupted<T>)
    requires i.Valid() && i.AtAddress().Contents() != [] && |i.s.buf| >= 2 && Drops(i.AtLoad(), i.p4) == 0
    requires i.AtLoad() == Pushes(i.AtAddress(), i.p2 + i.p3)
    ensures i.Final().Contents() == i.Atomic() <==> Drops(i.AtAddress(), i.p2 + i.p3) == 0
  {
    hide Ring.Contents, Pushes, Drops, LastN, Ring.Size;
    var between := i.p2 + i.p3;
    PushesRefine(i.AtAddress(), between);
    PushesRefine(i.AtLoad(), i.p4);
    DropsCount(i.AtAddress(), between);
    DropsCount(i.AtLoad(), i.p4);
    NoDropQueues(i.AtAddress().Contents(), between, i.p4, |i.s.buf| - 1);
    PopContents(i.AtStore());
    assert i.AtStore().tail == i.AtLoad().tail;
  }

  /** The same on queues. */
  lemma NoDropQueues<T>(c: seq<T>, p: seq<T>, r: seq<T>, n: nat)
    requires |c| >= 1 && n >= 1 && |LastN(c + p, n) + r| <= n
    ensures var c' := LastN(LastN(c + p, n) + r, n);
            c' != [] && (c'[1..] == LastN(c[1..] + p + r, n) <==> |c| + |p| <= n)
  {
  }

  lemma PopContents<T>(s: Ring<T>)
    requires s.Valid() && s.Contents() != []
    ensures s.(tail := Next(s.tail, |s.buf|)).Contents() == s.Contents()[1..]
  {
  }

  lemma FrontElement<T>(s: Ring<T>)
    requires s.Valid() && s.Contents() != []
    ensures s.Contents()[0] == s.buf[s.tail]
  {
  }

  lemma DropAfterLoad<T>(i: Interrupted<T>)
    requires i.Valid() && i.AtAddress().Contents() != [] && |i.s.buf| >= 2 && Drops(i.AtLoad(), i.p4) > 0
    requires i.AtLoad() == Pushes(i.AtAddress(), i.p2 + i.p3)
    ensures i.Final().Contents() == i.Atomic() <==> Drops(i.AtLoad(), i.p4) % |i.s.buf| == 1
  {
    hide Ring.Contents, Pushes, Drops, LastN, Ring.Size;
    var cap, between := |i.s.buf|, i.p2 + i.p3;
    PushesRefine(i.AtAddress(), between);
    PushesRefine(i.AtLoad(), i.p4);
    DropsCount(i.AtLoad(), i.p4);
    AtomicOverflow(i.AtAddress().Contents(), between, i.p4, cap - 1);
    assert i.Atomic() == i.AtStore().Contents();
    SameTailIff(i.AtStore(), i.Final().tail);
    TailsMeet(i.AtLoad().tail, Drops(i.AtLoad(), i.p4), cap);
  }

  lemma AtomicOverflow<T>(c: seq<T>, p: seq<T>, r: seq<T>, n: nat)
    requires |c| >= 1 && |LastN(c + p, n) + r| > n
    ensures LastN(c[1..] + p + r, n) == LastN(LastN(c + p, n) + r, n)
  {
    LastNAgain(c + p, r, n);
    var long, short := c + p + r, c[1..] + p + r;
    assert short == long[1..];
  }

  /** With the head fixed, different tails give different lengths. */
  lemma SameTailIff<T>(s: Ring<T>, tail: nat)
    requires s.Valid() && tail < |s.buf|
    ensures s.(tail := tail).Contents() == s.Contents() <==> tail == s.tail
  {
  }

  lemma TailsMeet(t: nat, d: nat, cap: nat)
    requires t < cap && cap >= 2
    ensures Next(t, cap) == Advance(t, d, cap) <==> d % cap == 1
  {
    AdvanceIsModulo(t, d, cap);
    AddModulo(d, t, cap);
    SmallSum(t, d % cap, cap);
  }

  lemma SmallSum(t: nat, e: nat, cap: nat)
    requires t < cap && e < cap
    ensures (e + t) % cap == if e + t < cap then e + t else e + t - cap
  {
  }

  /** The property the driver relies on: while the ring does not fill up, an
      interrupted pop returns the oldest element and loses nothing. */
  lemma QuietPopLinearises<T>(i: Interrupted<T>)
    requires i.Valid() && |i.s.Contents()| + |i.p1| + |i.p2| + |i.p3| + |i.p4| < |i.s.buf|
    ensures i.Popped() == i.s.Contents()[0]
    ensures i.Final().Contents() == (i.s.Contents() + i.p1 + i.p2 + i.p3 + i.p4)[1..]
  {
    hide Ring.Contents, Pushes, Drops, LastN, Ring.Size, Interrupted.Found;
    var c, n, between := i.s.Contents(), |i.s.buf| - 1, i.p2 + i.p3;
    InterruptedPop(i);
    PushesRefine(i.s, i.p1);
    FitsWhole(c + i.p1, n);
    PushesJoin(i.AtAddress(), i.p2, i.p3);
    PushesRefine(i.AtAddress(), between);
    FitsWhole(c + i.p1 + between, n);
    DropsCount(i.AtAddress(), i.p2);
    DropsCount(i.AtAddress(), between);
    DropsCount(i.AtLoad(), i.p4);
    FitsWhole((c + i.p1)[1..] + between + i.p4, n);
    assert (c + i.p1)[1..] + between + i.p4 == (c + i.p1 + i.p2 + i.p3 + i.p4)[1..];
  }

  lemma FitsWhole<T>(s: seq<T>, n: nat)
    requires |s| <= n
    ensures LastN(s, n) == s
  {
  }

  /** A single push between copy and load, into a full ring, makes the pop lose
      an element: here the 2. */
  lemma LostElement()
    ensures var i := Interrupted(Ring([1, 2, 0], 2, 0), [], [], [3], []);
            i.Valid() && i.s.Contents() == [1, 2] && i.Popped() == 1 && i.Final().Contents() == [3]
  {
  }

  /** Two pushes between address and copy, into a full ring, make the pop hand
      out the newest element, which stays in the ring. */
  lemma OvertakenElement()
    ensures var i := Interrupted(Ring([1, 2, 0], 2, 0), [], [3, 4], [], []);
            i.Valid() && i.s.Contents() == [1, 2] && i.Popped() == 4 && i.Final().Contents() == [4]
  {
    assert [3, 4][1..] == [4];
  }

  // ------------------------------------------------- the mutable structure

  /** `cyclic_buffer_size` in 32-bit arithmetic. */
  function SizeWord(head: nat, tail: nat, capacity: nat): nat
    requires head < capacity && tail < capacity < WORD
  {
    ((head + capacity) % WORD + WORD - tail) % WORD % capacity
  }

  /** The 32-bit size is the number of elements exactly when the sum does not
      wrap past the subtraction; up to capacity 2^31 it never does. */
  lemma SizeExact(head: nat, tail: nat, capacity: nat)
    requires head < capacity && tail < capacity < WORD
    ensures var size := if tail <= head then head - tail else head + capacity - tail;
            SizeWord(head, tail, capacity) == size <==> !(tail <= head && head - tail + capacity >= WORD)
    ensures capacity <= WORD / 2 ==> !(tail <= head && head - tail + capacity >= WORD)
  {
    var v := head + capacity - tail;
    WrappedDifference(head + capacity, tail);
    if v < WORD {
      OneRound(v, capacity);
    } else {
      OneRound(v - WORD, capacity);
    }
  }

  lemma OneRound(v: nat, m: nat)
    requires v < 2 * m
    ensures v % m == if v < m then v else v - m
  {
    MultiplePlus(m, if v < m then 0 else 1, if v < m then v else v - m);
  }

  lemma WrappedDifference(a: nat, b: nat)
    requires b <= a < 2 * WORD && b < WORD
    ensures (a % WORD + WORD - b) % WORD == if a - b < WORD then a - b else a - b - WORD
  {
  }

  class CyclicBuffer<T> {
    const buffer: array<T>
    var head: nat
    var tail: nat

    ghost predicate Valid()
      reads this
    {
      head < buffer.Length && tail < buffer.Length < WORD
    }

    ghost function State(): Ring<T>
      reads this, buffer
    {
      Ring(buffer[..], head, tail)
    }

    ghost function Contents(): seq<T>
      requires Valid()
      reads this, buffer
    {
      State().Contents()
    }

    /** `cyclic_buffer_init` with nonzero capacity. */
    constructor (buffer: array<T>)
      requires 0 < buffer.Length < WORD
      ensures Valid() && this.buffer == buffer && Contents() == []
    {
      this.buffer, head, tail := buffer, 0, 0;
    }

    method IsFull() returns (full: bool)
      requires Valid()
      ensures full <==> |Contents()| == buffer.Length - 1
    {
      NextIsModulo(head, buffer.Length);
      FullIffNoRoom(State());
      full := (head + 1) % buffer.Length == tail;
    }

    method IsEmpty() returns (empty: bool)
      requires Valid()
      ensures empty <==> Contents() == []
    {
      FullIffNoRoom(State());
      empty := head == tail;
    }

    /** The number of elements, except when the sum wraps; up to capacity 2^31
        it never does. */
    method Size() returns (size: nat)
      requires Valid()
      ensures size == |Contents()| <==> !(tail <= head && head - tail + buffer.Length >= WORD)
      ensures buffer.Length <= WORD / 2 ==> size == |Contents()|
    {
      SizeExact(head, tail, buffer.Length);
      size := ((head + buffer.Length) % WORD + WORD - tail) % WORD % buffer.Length;
    }

    /** A push never fails; into a full buffer it replaces the oldest element. */
    method Push(x: T)
      requires Valid()
      modifies this, buffer
      ensures Valid() && State() == old(State()).Push(x)
      ensures Contents() == QueuePush(old(Contents()), x, buffer.Length - 1)
    {
      hide Ring.Contents, QueuePush;
      PushRefines(State(), x);
      NextIsModulo(head, buffer.Length);
      NextIsModulo(tail, buffer.Length);
      var wasFull := (head + 1) % buffer.Length == tail;
      buffer[head] := x;
      assert buffer[..] == old(buffer[..])[old(head) := x];
      head := (head + 1) % buffer.Length;
      if wasFull {
        tail := (tail + 1) % buffer.Length;
      }
    }

    /** A pop fails exactly on an empty buffer; otherwise it takes the oldest. */
    method Pop(fallback: T) returns (ok: bool, x: T)
      requires Valid()
      modifies this
      ensures Valid() && ok == (old(Contents()) != [])
      ensures ok ==> [x] + Contents() == old(Contents())
      ensures !ok ==> x == fallback && Contents() == []
    {
      hide Ring.Contents;
      FullIffNoRoom(State());
      if head == tail {
        return false, fallback;
      }
      NextIsModulo(tail, buffer.Length);
      PopContents(State());
      FrontElement(State());
      ok, x := true, buffer[tail];
      tail := (tail + 1) % buffer.Length;
    }
  }
}
