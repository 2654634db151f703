/** The scancode decoder of `keyboard.c`, which carries state from byte to byte
    and from interrupt to interrupt. */
module Keyboard {
  import opened Bits
  import opened Numbers
  import opened Rings

  const EXTENDED_PREFIX: nat := 0xE0
  const BUFFER_SIZE: nat := 256

  const LEFT_SHIFT: nat := 0x2A
  const RIGHT_SHIFT: nat := 0x36
  const LEFT_CTRL: nat := 0x1D
  const RIGHT_CTRL: nat := 0xE01D
  const LEFT_ALT: nat := 0x38
  const RIGHT_ALT: nat := 0xE038
  const CAPS_LOCK: nat := 0x3A

  datatype KeyEvent = KeyEvent(
    keycode: nat, scancode: nat, pressed: bool, shift: bool, ctrl: bool, alt: bool, caps: bool)

  /** What the decoder remembers between bytes. */
  datatype Mods = Mods(extended: bool, shift: bool, ctrl: bool, alt: bool, caps: bool)

  /** The event stream of a byte stream, and the state it leaves. */
  datatype Decoded = Decoded(mods: Mods, events: seq<KeyEvent>)

  /** The modifiers after key `scancode` went down or up. */
  function Track(m: Mods, scancode: nat, pressed: bool): Mods {
    if scancode == LEFT_SHIFT || scancode == RIGHT_SHIFT then m.(shift := pressed)
    else if scancode == LEFT_CTRL || scancode == RIGHT_CTRL then m.(ctrl := pressed)
    else if scancode == LEFT_ALT || scancode == RIGHT_ALT then m.(alt := pressed)
    else if scancode == CAPS_LOCK && pressed then m.(caps := !m.caps)
    else m
  }

  function DecodeByte(m: Mods, b: Byte): Decoded {
    if b == EXTENDED_PREFIX then Decoded(m.(extended := true), [])
    else
      var keycode, pressed := b % 128, b < 128;
      var scancode := (if m.extended then 0xE000 else 0) + keycode;
      var n := Track(m.(extended := false), scancode, pressed);
      Decoded(n, [KeyEvent(keycode, scancode, pressed, n.shift, n.ctrl, n.alt, n.caps)])
  }

  function Decode(m: Mods, bytes: seq<Byte>): Decoded {
    if |bytes| == 0 then Decoded(m, [])
    else
      var before := Decode(m, bytes[..|bytes| - 1]);
      var last := DecodeByte(before.mods, bytes[|bytes| - 1]);
      Decoded(last.mods, before.events + last.events)
  }

  /** Decoding may be interrupted anywhere and resumed from the state left. */
  lemma {:induction false} DecodeResumes(m: Mods, a: seq<Byte>, b: seq<Byte>)
    ensures Decode(m, a + b).mods == Decode(Decode(m, a).mods, b).mods
    ensures Decode(m, a + b).events == Decode(m, a).events + Decode(Decode(m, a).mods, b).events
    decreases |b|
  {
    if |b| == 0 {
      assert a + b == a;
    } else {
      DecodeResumes(m, a, b[..|b| - 1]);
      assert (a + b)[..|a + b| - 1] == a + b[..|b| - 1];
    }
  }

  // ------------------------------------- what the decoder computes, directly

  /** The scancode that byte `i` of the stream completes; a prefix byte before
      it selects the extended set.  `m` is the state before the stream. */
  function ScancodeAt(m: Mods, bytes: seq<Byte>, i: nat): nat
    requires i < |bytes|
  {
    var prefixed := if i == 0 then m.extended else bytes[i - 1] == 0xE0;
    var keycode: nat := bytes[i] % 128;
    (if prefixed then 0xE000 else 0) + keycode
  }

  datatype Modifier = Shift | Ctrl | Alt

  function KeysOf(k: Modifier): set<nat> {
    match k
    case Shift => {0x2A, 0x36}
    case Ctrl => {0x1D, 0xE01D}
    case Alt => {0x38, 0xE038}
  }

  function Held(m: Mods, k: Modifier): bool {
    match k
    case Shift => m.shift
    case Ctrl => m.ctrl
    case Alt => m.alt
  }

  /** Byte `i` is the make or break code of a key for modifier `k`. */
  predicate Stroke(m: Mods, bytes: seq<Byte>, k: Modifier, i: nat) {
    i < |bytes| && bytes[i] != 0xE0 && ScancodeAt(m, bytes, i) in KeysOf(k)
  }

  predicate CapsPress(m: Mods, bytes: seq<Byte>, i: nat) {
    i < |bytes| && bytes[i] < 128 && ScancodeAt(m, bytes, i) == 0x3A
  }

  ghost function CapsPresses(m: Mods, bytes: seq<Byte>): set<nat> {
    set i: nat | i < |bytes| && CapsPress(m, bytes, i)
  }

  /** Later bytes do not change what earlier ones mean. */
  lemma StrokeStable(m: Mods, bytes: seq<Byte>, n: nat)
    requires n <= |bytes|
    ensures forall k, i: nat :: i < n ==> (Stroke(m, bytes[..n], k, i) <==> Stroke(m, bytes, k, i))
    ensures forall i: nat :: i < n ==> (CapsPress(m, bytes[..n], i) <==> CapsPress(m, bytes, i))
  {
    hide KeysOf;
    forall i: nat | i < n
      ensures ScancodeAt(m, bytes[..n], i) == ScancodeAt(m, bytes, i)
    {
    }
  }

  /** A prefix is pending exactly when it was the last byte. */
  lemma {:induction false} PendingPrefix(m: Mods, bytes: seq<Byte>)
    ensures Decode(m, bytes).mods.extended ==
              if bytes == [] then m.extended else bytes[|bytes| - 1] == 0xE0
  {
    if bytes != [] {
      var before := Decode(m, bytes[..|bytes| - 1]).mods;
      if bytes[|bytes| - 1] != 0xE0 {
        ExtendedIrrelevant(before, bytes[|bytes| - 1]);
      }
    }
  }

  /** The last byte of a stream, if no prefix, is tracked and reported under
      its scancode. */
  lemma LastByte(m: Mods, bytes: seq<Byte>)
    requires bytes != [] && bytes[|bytes| - 1] != 0xE0
    ensures var n := |bytes| - 1;
            var d, before := Decode(m, bytes), Decode(m, bytes[..n]);
            var c := ScancodeAt(m, bytes, n);
            && d.mods == Track(before.mods, c, bytes[n] < 128).(extended := false)
            && d.events == before.events +
                 [KeyEvent(bytes[n] % 128, c, bytes[n] < 128, d.mods.shift, d.mods.ctrl, d.mods.alt, d.mods.caps)]
  {
    hide Track;
    var n := |bytes| - 1;
    var before := Decode(m, bytes[..n]).mods;
    PendingPrefix(m, bytes[..n]);
    ScancodeShape(before, bytes[n], before.extended);
    assert before.(extended := before.extended) == before;
  }

  lemma TrackHeld(m: Mods, c: nat, pressed: bool, k: Modifier)
    ensures Held(Track(m, c, pressed), k) == if c in KeysOf(k) then pressed else Held(m, k)
    ensures Track(m, c, pressed).caps == (m.caps != (c == 0x3A && pressed))
  {
  }

  /** Byte `i` is the last make or break code of a key for `k`. */
  ghost predicate LastStroke(m: Mods, bytes: seq<Byte>, k: Modifier, i: nat) {
    Stroke(m, bytes, k, i) && forall j: nat :: i < j ==> !Stroke(m, bytes, k, j)
  }

  /** A modifier is held exactly if the last make or break code of one of its
      keys is a make code, or if there is none and it was held before. */
  lemma ModifierFollowsKeys(m: Mods, bytes: seq<Byte>, k: Modifier)
    ensures Held(Decode(m, bytes).mods, k) <==>
              || (Held(m, k) && forall i: nat :: !Stroke(m, bytes, k, i))
              || exists i: nat :: i < |bytes| && LastStroke(m, bytes, k, i) && bytes[i] < 128
  {
    hide Decode, Stroke, Held;
    if i: nat :| Stroke(m, bytes, k, i) {
      var last := FindLast(m, bytes, k, i);
      HeldAsLast(m, bytes, k, last);
      forall j: nat | LastStroke(m, bytes, k, j)
        ensures j == last
      {
      }
    } else {
      HeldAsBefore(m, bytes, k);
    }
  }

  lemma FindLast(m: Mods, bytes: seq<Byte>, k: Modifier, i: nat) returns (last: nat)
    requires Stroke(m, bytes, k, i)
    ensures last < |bytes| && LastStroke(m, bytes, k, last)
  {
    hide ScancodeAt;
    last := |bytes| - 1;
    while !Stroke(m, bytes, k, last)
      invariant i <= last < |bytes| && forall j: nat :: last < j ==> !Stroke(m, bytes, k, j)
      decreases last
    {
      last := last - 1;
    }
  }

  lemma {:induction false} HeldAsLast(m: Mods, bytes: seq<Byte>, k: Modifier, i: nat)
    requires i < |bytes| && LastStroke(m, bytes, k, i)
    ensures Held(Decode(m, bytes).mods, k) == (bytes[i] < 128)
    decreases |bytes|
  {
    hide Decode, Stroke, Held;
    var n := |bytes| - 1;
    HeldStep(m, bytes, k);
    if i < n {
      LastInPrefix(m, bytes, k, i);
      HeldAsLast(m, bytes[..n], k, i);
    }
  }

  lemma LastInPrefix(m: Mods, bytes: seq<Byte>, k: Modifier, i: nat)
    requires LastStroke(m, bytes, k, i) && i < |bytes| - 1
    ensures LastStroke(m, bytes[..|bytes| - 1], k, i) && !Stroke(m, bytes, k, |bytes| - 1)
  {
    hide ScancodeAt;
    StrokeStable(m, bytes, |bytes| - 1);
  }

  lemma {:induction false} HeldAsBefore(m: Mods, bytes: seq<Byte>, k: Modifier)
    requires forall i: nat :: !Stroke(m, bytes, k, i)
    ensures Held(Decode(m, bytes).mods, k) == Held(m, k)
    decreases |bytes|
  {
    if bytes == [] {
      assert Decode(m, bytes).mods == m;
    } else {
      HeldStep(m, bytes, k);
      NoneInPrefix(m, bytes, k);
      HeldAsBefore(m, bytes[..|bytes| - 1], k);
    }
  }

  lemma NoneInPrefix(m: Mods, bytes: seq<Byte>, k: Modifier)
    requires bytes != [] && forall i: nat :: !Stroke(m, bytes, k, i)
    ensures var prefix := bytes[..|bytes| - 1]; forall i: nat :: !Stroke(m, prefix, k, i)
  {
    hide ScancodeAt;
    StrokeStable(m, bytes, |bytes| - 1);
  }

  lemma HeldStep(m: Mods, bytes: seq<Byte>, k: Modifier)
    requires bytes != []
    ensures var n := |bytes| - 1;
            Held(Decode(m, bytes).mods, k) ==
              if Stroke(m, bytes, k, n) then bytes[n] < 128 else Held(Decode(m, bytes[..n]).mods, k)
  {
    hide Track;
    var n := |bytes| - 1;
    if bytes[n] != 0xE0 {
      LastByte(m, bytes);
      TrackHeld(Decode(m, bytes[..n]).mods, ScancodeAt(m, bytes, n), bytes[n] < 128, k);
    }
  }

  /** Caps lock is on according to the parity of its make codes. */
  lemma {:induction false} CapsFollowsParity(m: Mods, bytes: seq<Byte>)
    ensures Decode(m, bytes).mods.caps == (m.caps != (|CapsPresses(m, bytes)| % 2 == 1))
    decreases |bytes|
  {
    if bytes == [] {
      assert Decode(m, bytes).mods == m;
      assert CapsPresses(m, bytes) == {};
    } else {
      hide Decode, ScancodeAt;
      var n := |bytes| - 1;
      CapsFollowsParity(m, bytes[..n]);
      CapsStep(m, bytes);
      MorePresses(m, bytes);
    }
  }

  lemma MorePresses(m: Mods, bytes: seq<Byte>)
    requires bytes != []
    ensures var n := |bytes| - 1;
            |CapsPresses(m, bytes)| == |CapsPresses(m, bytes[..n])| + if CapsPress(m, bytes, n) then 1 else 0
  {
    hide ScancodeAt;
    var n := |bytes| - 1;
    StrokeStable(m, bytes, n);
    var before := CapsPresses(m, bytes[..n]);
    assert CapsPresses(m, bytes) == if CapsPress(m, bytes, n) then before + {n} else before;
  }

  lemma CapsStep(m: Mods, bytes: seq<Byte>)
    requires bytes != []
    ensures Decode(m, bytes).mods.caps ==
              (Decode(m, bytes[..|bytes| - 1]).mods.caps != CapsPress(m, bytes, |bytes| - 1))
  {
    hide Track;
    var n := |bytes| - 1;
    if bytes[n] != 0xE0 {
      LastByte(m, bytes);
      TrackHeld(Decode(m, bytes[..n]).mods, ScancodeAt(m, bytes, n), bytes[n] < 128, Shift);
    }
  }

  /** How many events the first `i` bytes make: one for each that is no prefix. */
  function Strokes(bytes: seq<Byte>, i: nat): nat
    requires i <= |bytes|
  {
    if i == 0 then 0 else Strokes(bytes, i - 1) + if bytes[i - 1] == 0xE0 then 0 else 1
  }

  /** Every byte that is no prefix is reported, in order, under its scancode
      and with the modifiers as they are after it. */
  lemma {:induction false} EventOfByte(m: Mods, bytes: seq<Byte>, i: nat)
    requires i < |bytes| && bytes[i] != 0xE0
    ensures |Decode(m, bytes).events| == Strokes(bytes, |bytes|)
    ensures Strokes(bytes, i) < |Decode(m, bytes).events|
    ensures var e, d := Decode(m, bytes).events[Strokes(bytes, i)], Decode(m, bytes[..i + 1]).mods;
            e == KeyEvent(bytes[i] % 128, ScancodeAt(m, bytes, i), bytes[i] < 128, d.shift, d.ctrl, d.alt, d.caps)
  {
    hide Track, DecodeByte;
    var head, tail := bytes[..i + 1], bytes[i + 1..];
    assert bytes == head + tail;
    DecodeResumes(m, head, tail);
    assert head[..|head| - 1] == bytes[..i];
    LastByte(m, head);
    EventCount(m, bytes, i);
    EventCount(m, bytes, i + 1);
    EventCount(m, bytes, |bytes|);
    assert bytes[..|bytes|] == bytes;
  }

  lemma {:induction false} EventCount(m: Mods, bytes: seq<Byte>, i: nat)
    requires i <= |bytes|
    ensures |Decode(m, bytes[..i]).events| == Strokes(bytes, i)
  {
    if i > 0 {
      EventCount(m, bytes, i - 1);
      assert bytes[..i][..i - 1] == bytes[..i - 1];
    }
  }

  // ------------------------------------------------------------- interrupts

  /** One interrupt consumes `n` of the bytes offered to it: all of them, or
      those up to and including the first prefix byte. */
  predicate Batch(offered: seq<Byte>, n: nat) {
    && n <= |offered|
    && (forall j :: 0 <= j < n - 1 ==> offered[j] != 0xE0)
    && (n < |offered| ==> n > 0 && offered[n - 1] == 0xE0)
  }

  /** The bytes that interrupts consume, `ns[i]` of those offered to the
      `i`-th. */
  function Consumed(offers: seq<seq<Byte>>, ns: seq<nat>): seq<Byte>
    requires |ns| == |offers| && forall i :: 0 <= i < |ns| ==> ns[i] <= |offers[i]|
  {
    if |ns| == 0 then []
    else
      var n := |ns| - 1;
      Consumed(offers[..n], ns[..n]) + offers[n][..ns[n]]
  }

  class Driver {
    var extended: bool
    var shift: bool
    var ctrl: bool
    var alt: bool
    var caps: bool
    const events: CyclicBuffer<KeyEvent>

    ghost predicate Valid()
      reads this, events
    {
      events.Valid() && events.buffer.Length == BUFFER_SIZE
    }

    ghost function State(): Mods
      reads this
    {
      Mods(extended, shift, ctrl, alt, caps)
    }

    constructor (storage: array<KeyEvent>)
      requires storage.Length == BUFFER_SIZE
      ensures Valid() && State() == Mods(false, false, false, false, false) && events.Contents() == []
      ensures fresh(events) && events.buffer == storage && storage.Length == 256
    {
      extended, shift, ctrl, alt, caps := false, false, false, false, false;
      events := new CyclicBuffer(storage);
    }

    /** `handle_scancode`. */
    method HandleScancode(raw: Byte, wasExtended: bool)
      requires Valid() && raw != EXTENDED_PREFIX
      modifies this, events, events.buffer
      ensures Valid()
      ensures var d := DecodeByte(old(State()).(extended := wasExtended), raw);
              && State() == d.mods.(extended := old(extended))
              && events.Contents() == LastN(old(events.Contents()) + d.events, BUFFER_SIZE - 1)
    {
      hide Ring.Contents, LastN, Track, DecodeByte;
      ScancodeShape(State(), raw, wasExtended);
      var released := raw >= 128;
      var keycode := raw % 128;
      var scancode := (if wasExtended then 0xE000 else 0) + keycode;
      UpdateModifiers(scancode, released);
      events.Push(KeyEvent(keycode, scancode, !released, shift, ctrl, alt, caps));
    }

    method UpdateModifiers(scancode: nat, released: bool)
      modifies this
      ensures State() == Track(old(State()), scancode, !released)
    {
      if scancode == LEFT_SHIFT || scancode == RIGHT_SHIFT {
        shift := !released;
      } else if scancode == LEFT_CTRL || scancode == RIGHT_CTRL {
        ctrl := !released;
      } else if scancode == LEFT_ALT || scancode == RIGHT_ALT {
        alt := !released;
      } else if scancode == CAPS_LOCK && !released {
        caps := !caps;
      }
    }

    /** One interrupt: `offered` are the bytes the controller would deliver.
        The handler stops early, after a prefix byte, and leaves the rest for
        the next interrupt. */
    method Handler(offered: seq<Byte>) returns (consumed: nat)
      requires Valid()
      modifies this, events, events.buffer
      ensures Valid() && Batch(offered, consumed)
      ensures Behaves(old(State()), old(events.Contents()), offered[..consumed])
    {
      hide Ring.Contents, LastN, DecodeByte, Decode;
      ghost var was, queue := State(), events.Contents();
      consumed := 0;
      NothingDecoded(was);
      while consumed < |offered|
        invariant Valid() && consumed <= |offered| && Behaves(was, queue, offered[..consumed])
        invariant forall j :: 0 <= j < consumed ==> offered[j] != EXTENDED_PREFIX
      {
        var scancode := offered[consumed];
        DecodeNext(was, queue, offered, consumed);
        consumed := consumed + 1;
        if scancode == EXTENDED_PREFIX {
          TakePrefix();
          return;
        }
        TakeScancode(scancode);
      }
    }

    /** Lines 71-74 of the handler. */
    method TakePrefix()
      requires Valid()
      modifies this`extended
      ensures Valid()
      ensures State() == DecodeByte(old(State()), EXTENDED_PREFIX).mods
      ensures events.Contents() ==
                LastN(old(events.Contents()) + DecodeByte(old(State()), EXTENDED_PREFIX).events, BUFFER_SIZE - 1)
    {
      hide Ring.Contents, LastN, DecodeByte;
      PrefixByte(State());
      extended := true;
      SizeBelow(events.State());
      FitsWhole(events.Contents(), BUFFER_SIZE - 1);
      assert events.Contents() + [] == events.Contents();
    }

    /** Lines 76-79 of the handler. */
    method TakeScancode(scancode: Byte)
      requires Valid() && scancode != EXTENDED_PREFIX
      modifies this, events, events.buffer
      ensures Valid()
      ensures State() == DecodeByte(old(State()), scancode).mods
      ensures events.Contents() ==
                LastN(old(events.Contents()) + DecodeByte(old(State()), scancode).events, BUFFER_SIZE - 1)
    {
      hide Ring.Contents, LastN, DecodeByte;
      ExtendedIrrelevant(State(), scancode);
      var wasExtended := extended;
      extended := false;
      HandleScancode(scancode, wasExtended);
    }

    /** State and queue are what decoding `bytes` from `m` makes of them. */
    ghost predicate Behaves(m: Mods, queue: seq<KeyEvent>, bytes: seq<Byte>)
      requires events.Valid()
      reads this, events, events.buffer
    {
      && State() == Decode(m, bytes).mods
      && events.Contents() == LastN(queue + Decode(m, bytes).events, 255)
    }

    lemma NothingDecoded(m: Mods)
      requires Valid() && m == State()
      ensures Behaves(m, events.Contents(), [])
    {
      SizeBelow(events.State());
      assert events.Contents() + [] == events.Contents();
    }

    /** Any number of interrupts: `ns[i]` bytes are consumed of those offered
        to the `i`-th, and state and queue are what decoding their
        concatenation makes of them. */
    method Session(offers: seq<seq<Byte>>) returns (ghost ns: seq<nat>, bytes: seq<Byte>)
      requires Valid()
      modifies this, events, events.buffer
      ensures Valid() && |ns| == |offers|
      ensures forall i :: 0 <= i < |offers| ==> Batch(offers[i], ns[i]) && ns[i] <= |offers[i]|
      ensures bytes == Consumed(offers, ns)
      ensures Behaves(old(State()), old(events.Contents()), bytes)
    {
      hide Ring.Contents, LastN, DecodeByte, Decode, Batch;
      ghost var was, queue := State(), events.Contents();
      ns, bytes := [], [];
      NothingDecoded(was);
      for i := 0 to |offers|
        invariant Valid() && |ns| == i && Behaves(was, queue, bytes)
        invariant forall j :: 0 <= j < i ==> Batch(offers[j], ns[j]) && ns[j] <= |offers[j]|
        invariant bytes == Consumed(offers[..i], ns)
      {
        ghost var mid := Decode(was, bytes);
        var n := Handler(offers[i]);
        BatchBound(offers[i], n);
        ghost var more := Decode(mid.mods, offers[i][..n]);
        DecodeResumes(was, bytes, offers[i][..n]);
        LastNAgain(queue + mid.events, more.events, BUFFER_SIZE - 1);
        assert queue + mid.events + more.events == queue + (mid.events + more.events);
        bytes := bytes + offers[i][..n];
        assert offers[..i + 1][..i] == offers[..i] && (ns + [n])[..i] == ns;
        ns := ns + [n];
      }
      assert offers[..|offers|] == offers;
    }
  }

  lemma BatchBound(offered: seq<Byte>, n: nat)
    requires Batch(offered, n)
    ensures n <= |offered|
  {
  }

  /** State and queue depend only on the bytes consumed: two drivers that start
      alike and consume the same bytes, however these fall to interrupts, end
      alike. */
  method SplitIrrelevant(a: Driver, b: Driver, offersA: seq<seq<Byte>>, offersB: seq<seq<Byte>>)
    returns (same: bool)
    requires a.Valid() && b.Valid() && a != b && a.events != b.events && a.events.buffer != b.events.buffer
    requires a.State() == b.State() && a.events.Contents() == b.events.Contents()
    modifies a, a.events, a.events.buffer, b, b.events, b.events.buffer
    ensures exists ns, ms ::
              && |ns| == |offersA| && (forall i :: 0 <= i < |ns| ==> Batch(offersA[i], ns[i]) && ns[i] <= |offersA[i]|)
              && |ms| == |offersB| && (forall i :: 0 <= i < |ms| ==> Batch(offersB[i], ms[i]) && ms[i] <= |offersB[i]|)
              && same == (Consumed(offersA, ns) == Consumed(offersB, ms))
    ensures a.Valid() && b.Valid()
    ensures same ==> a.State() == b.State() && a.events.Contents() == b.events.Contents()
  {
    hide Ring.Contents, LastN, DecodeByte, Decode, Consumed;
    ghost var ns, ms;
    var bytesA, bytesB;
    ns, bytesA := a.Session(offersA);
    ms, bytesB := b.Session(offersB);
    same := bytesA == bytesB;
    assert same == (Consumed(offersA, ns) == Consumed(offersB, ms));
  }

  /** Tracking a key neither reads nor changes the pending prefix. */
  lemma TrackKeepsExtended(m: Mods, scancode: nat, pressed: bool)
    ensures Track(m, scancode, pressed).extended == m.extended
    ensures Track(m.(extended := false), scancode, pressed) == Track(m, scancode, pressed).(extended := false)
  {
  }

  /** A byte that is no prefix, in terms of the modifiers it tracks. */
  lemma ScancodeShape(m: Mods, raw: Byte, wasExtended: bool)
    requires raw != EXTENDED_PREFIX
    ensures var scancode := (if wasExtended then 0xE000 else 0) + raw % 128;
            var t := Track(m, scancode, raw < 128);
            && t.extended == m.extended
            && DecodeByte(m.(extended := wasExtended), raw) ==
                 Decoded(t.(extended := false),
                         [KeyEvent(raw % 128, scancode, raw < 128, t.shift, t.ctrl, t.alt, t.caps)])
  {
    hide Track;
    TrackKeepsExtended(m, (if wasExtended then 0xE000 else 0) + raw % 128, raw < 128);
  }

  lemma PrefixByte(m: Mods)
    ensures DecodeByte(m, EXTENDED_PREFIX) == Decoded(m.(extended := true), [])
  {
  }

  lemma ExtendedIrrelevant(m: Mods, b: Byte)
    requires b != EXTENDED_PREFIX
    ensures !DecodeByte(m, b).mods.extended
    ensures var d := DecodeByte(m.(extended := false).(extended := m.extended), b); d == DecodeByte(m, b)
  {
  }

  lemma DecodeNext(m: Mods, queue: seq<KeyEvent>, bytes: seq<Byte>, k: nat)
    requires k < |bytes|
    ensures var d, e := Decode(m, bytes[..k]), DecodeByte(Decode(m, bytes[..k]).mods, bytes[k]);
            && Decode(m, bytes[..k + 1]) == Decoded(e.mods, d.events + e.events)
            && LastN(queue + (d.events + e.events), BUFFER_SIZE - 1) ==
                 LastN(LastN(queue + d.events, BUFFER_SIZE - 1) + e.events, BUFFER_SIZE - 1)
  {
    hide LastN, DecodeByte;
    var d, e := Decode(m, bytes[..k]), DecodeByte(Decode(m, bytes[..k]).mods, bytes[k]);
    assert bytes[..k + 1][..k] == bytes[..k];
    LastNAgain(queue + d.events, e.events, BUFFER_SIZE - 1);
    assert queue + d.events + e.events == queue + (d.events + e.events);
  }
}
