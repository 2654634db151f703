/** The boot information parser of `multiboot2.c` against an encoder of
    well-formed tag streams (section 3.6 of the Multiboot2 Specification). */
module Multiboot {
  import opened Numbers
  import opened Options

  // ------------------------------------------------ little-endian fields

  function Pow256(n: nat): nat { if n == 0 then 1 else 256 * Pow256(n - 1) }

  function Le(x: nat, n: nat): (s: seq<Byte>)
    ensures |s| == n
  {
    if n == 0 then [] else [x % 256] + Le(x / 256, n - 1)
  }

  function ReadLe(b: seq<Byte>, at: nat, n: nat): nat
    requires at + n <= |b|
    decreases n
  {
    if n == 0 then 0 else b[at] + 256 * ReadLe(b, at + 1, n - 1)
  }

  /** `field` stands in `b` at offset `at`. */
  ghost predicate HasAt(b: seq<Byte>, at: nat, field: seq<Byte>) {
    at + |field| <= |b| && b[at..at + |field|] == field
  }

  lemma {:induction false} ReadLeBack(b: seq<Byte>, at: nat, x: nat, n: nat)
    requires HasAt(b, at, Le(x, n)) && x < Pow256(n)
    ensures ReadLe(b, at, n) == x
    decreases n
  {
    if n > 0 {
      var f := Le(x, n);
      assert b[at] == b[at..at + n][0] == x % 256;
      assert b[at + 1..at + n] == b[at..at + n][1..] == f[1..] == Le(x / 256, n - 1);
      ReadLeBack(b, at + 1, x / 256, n - 1);
    }
  }

  lemma HasPart(b: seq<Byte>, at: nat, x: seq<Byte>, y: seq<Byte>, z: seq<Byte>)
    requires HasAt(b, at, x + y + z)
    ensures HasAt(b, at + |x|, y)
  {
    var f := x + y + z;
    forall i | 0 <= i < |y|
      ensures y[i] == b[at + |x| + i]
    {
      assert f[|x| + i] == b[at..at + |f|][|x| + i];
    }
  }

  // ---------------------------------------------------------- the tags

  datatype MapEntry = MapEntry(base: nat, length: nat, kind: nat, rest: seq<Byte>)

  /** Tags as a boot loader means them; `kind` of `Other` is a type the kernel
      does not look at. */
  datatype Tag =
    | MemoryMap(entrySize: nat, version: nat, entries: seq<MapEntry>)
    | CommandLine(text: seq<Byte>)
    | Module(start: nat, end: nat, text: seq<Byte>)
    | LoaderName(text: seq<Byte>)
    | Other(kind: nat, payload: seq<Byte>)

  const AVAILABLE: nat := 1
  const RESERVED: nat := 2

  ghost predicate GoodText(s: seq<Byte>) { forall i :: 0 <= i < |s| ==> s[i] != 0 }

  ghost predicate GoodEntry(e: MapEntry, entrySize: nat) {
    e.base < Pow256(8) && e.length < Pow256(8) && e.kind < Pow256(4) && 20 + |e.rest| == entrySize
  }

  ghost predicate GoodTag(t: Tag) {
    && |Body(t)| + 16 < Pow256(4)
    && match t
       case MemoryMap(size, version, entries) =>
         24 <= size < Pow256(4) && version < Pow256(4) && forall e :: e in entries ==> GoodEntry(e, size)
       case CommandLine(s) => GoodText(s)
       case Module(start, end, s) => start < Pow256(4) && end < Pow256(4) && GoodText(s)
       case LoaderName(s) => GoodText(s)
       case Other(kind, _) => kind < Pow256(4) && kind !in {0, 1, 2, 3, 6}
  }

  function TypeOf(t: Tag): nat {
    match t
    case MemoryMap(_, _, _) => 6
    case CommandLine(_) => 1
    case Module(_, _, _) => 3
    case LoaderName(_) => 2
    case Other(kind, _) => kind
  }

  function EncodeEntry(e: MapEntry): seq<Byte> {
    Le(e.base, 8) + Le(e.length, 8) + Le(e.kind, 4) + e.rest
  }

  function EncodeEntries(es: seq<MapEntry>): seq<Byte> {
    if |es| == 0 then [] else EncodeEntry(es[0]) + EncodeEntries(es[1..])
  }

  /** What follows the 8-byte header of a tag. */
  function Body(t: Tag): seq<Byte> {
    match t
    case MemoryMap(size, version, entries) => Le(size, 4) + Le(version, 4) + EncodeEntries(entries)
    case CommandLine(s) => s + [0]
    case Module(start, end, s) => Le(start, 4) + Le(end, 4) + (s + [0])
    case LoaderName(s) => s + [0]
    case Other(_, payload) => payload
  }

  function AlignUp8(x: nat): nat { (x + 7) / 8 * 8 }

  /** Type, size and body of a tag; `size` does not count padding. */
  function EncodeTag(t: Tag): (s: seq<Byte>)
    ensures |s| == 8 + |Body(t)|
  {
    Le(TypeOf(t), 4) + Le(8 + |Body(t)|, 4) + Body(t)
  }

  /** The tags `ts` stand in `b` from `at` on, each at a multiple of 8 from the
      first, followed by the terminating tag.  Padding may hold anything, and
      so may what comes after the last. */
  ghost predicate HasTags(b: seq<Byte>, at: nat, ts: seq<Tag>)
    decreases |ts|
  {
    if |ts| == 0 then HasAt(b, at, Le(0, 4) + Le(8, 4))
    else HasAt(b, at, EncodeTag(ts[0])) && HasTags(b, at + AlignUp8(|EncodeTag(ts[0])|), ts[1..])
  }

  /** The boot information structure: total size, reserved word, tags. */
  ghost predicate IsInfo(b: seq<Byte>, ts: seq<Tag>) {
    8 <= |b| && HasAt(b, 0, Le(|b|, 4)) && HasTags(b, 8, ts)
  }

  /** Every sequence of tags has such a structure, with any padding. */
  lemma {:induction false} TagsExist(prefix: seq<Byte>, ts: seq<Tag>, pad: Byte) returns (b: seq<Byte>)
    ensures |prefix| <= |b| && b[..|prefix|] == prefix && HasTags(b, |prefix|, ts)
    decreases |ts|
  {
    if |ts| == 0 {
      b := prefix + (Le(0, 4) + Le(8, 4));
    } else {
      hide Le, Body, EncodeTag, HasAt, AlignUp8;
      var raw := EncodeTag(ts[0]);
      PaddingSize(|raw|);
      var padding := seq(AlignUp8(|raw|) - |raw|, _ => pad);
      b := TagsExist(prefix + raw + padding, ts[1..], pad);
      StillThere(b, prefix, raw, padding);
    }
  }

  lemma PaddingSize(n: nat)
    ensures n <= AlignUp8(n) < n + 8
  {
  }

  lemma StillThere(b: seq<Byte>, x: seq<Byte>, y: seq<Byte>, z: seq<Byte>)
    requires |x + y + z| <= |b| && b[..|x + y + z|] == x + y + z
    ensures b[..|x|] == x && HasAt(b, |x|, y)
  {
    var f := x + y + z;
    assert b[..|x|] == b[..|f|][..|x|] == x;
    assert b[|x|..|x| + |y|] == b[..|f|][|x|..|x| + |y|] == y;
  }

  // ------------------------------------------------------- their meaning

  datatype MemoryRegion = MemoryRegion(base: nat, length: nat)
  datatype BootModule = BootModule(start: nat, end: nat, text: seq<Byte>)

  datatype BootData = BootData(
    name: Option<seq<Byte>>, commandLine: Option<seq<Byte>>,
    ram: seq<MemoryRegion>, reserved: seq<MemoryRegion>, modules: seq<BootModule>)

  const EMPTY: BootData := BootData(None, None, [], [], [])

  /** Regions of the entries of one kind, in order. */
  function OfKind(es: seq<MapEntry>, kind: nat): seq<MemoryRegion> {
    if |es| == 0 then []
    else
      var e := es[|es| - 1];
      OfKind(es[..|es| - 1], kind) + if e.kind == kind then [MemoryRegion(e.base, e.length)] else []
  }

  /** All map entries of all memory-map tags, in order. */
  function AllEntries(ts: seq<Tag>): seq<MapEntry> {
    if |ts| == 0 then []
    else
      var t := ts[|ts| - 1];
      AllEntries(ts[..|ts| - 1]) + if t.MemoryMap? then t.entries else []
  }

  function AllModules(ts: seq<Tag>): seq<BootModule> {
    if |ts| == 0 then []
    else
      var t := ts[|ts| - 1];
      AllModules(ts[..|ts| - 1]) + if t.Module? then [BootModule(t.start, t.end, t.text)] else []
  }

  function LastName(ts: seq<Tag>): Option<seq<Byte>> {
    if |ts| == 0 then None
    else if ts[|ts| - 1].LoaderName? then Some(ts[|ts| - 1].text) else LastName(ts[..|ts| - 1])
  }

  function LastCommandLine(ts: seq<Tag>): Option<seq<Byte>> {
    if |ts| == 0 then None
    else if ts[|ts| - 1].CommandLine? then Some(ts[|ts| - 1].text) else LastCommandLine(ts[..|ts| - 1])
  }

  /** What the kernel should know after reading the tags. */
  function Meaning(ts: seq<Tag>): BootData {
    var entries := AllEntries(ts);
    BootData(LastName(ts), LastCommandLine(ts), OfKind(entries, AVAILABLE), OfKind(entries, RESERVED), AllModules(ts))
  }

  lemma {:induction false} OfKindAppend(a: seq<MapEntry>, b: seq<MapEntry>, kind: nat)
    ensures OfKind(a + b, kind) == OfKind(a, kind) + OfKind(b, kind)
    decreases |b|
  {
    if |b| == 0 {
      assert a + b == a;
    } else {
      OfKindAppend(a, b[..|b| - 1], kind);
      assert (a + b)[..|a + b| - 1] == a + b[..|b| - 1];
    }
  }

  /** One more tag. */
  function WithTag(d: BootData, t: Tag): BootData {
    match t
    case MemoryMap(_, _, es) => d.(ram := d.ram + OfKind(es, AVAILABLE), reserved := d.reserved + OfKind(es, RESERVED))
    case CommandLine(s) => d.(commandLine := Some(s))
    case Module(start, end, s) => d.(modules := d.modules + [BootModule(start, end, s)])
    case LoaderName(s) => d.(name := Some(s))
    case Other(_, _) => d
  }

  lemma MeaningGrows(ts: seq<Tag>, t: Tag)
    ensures Meaning(ts + [t]) == WithTag(Meaning(ts), t)
  {
    assert (ts + [t])[..|ts|] == ts;
    if t.MemoryMap? {
      OfKindAppend(AllEntries(ts), t.entries, AVAILABLE);
      OfKindAppend(AllEntries(ts), t.entries, RESERVED);
    } else {
      assert AllEntries(ts) + [] == AllEntries(ts);
    }
    if !t.Module? {
      assert AllModules(ts) + [] == AllModules(ts);
    }
  }

  // ------------------------------------------------------- the same on bytes

  function Word32(b: seq<Byte>, at: nat): nat
    requires at + 4 <= |b|
  {
    var b0: nat, b1: nat, b2: nat, b3: nat := b[at], b[at + 1], b[at + 2], b[at + 3];
    b0 + 256 * b1 + 65536 * b2 + 16777216 * b3
  }

  function Word64(b: seq<Byte>, at: nat): nat
    requires at + 8 <= |b|
  {
    Word32(b, at) + 4294967296 * Word32(b, at + 4)
  }

  lemma WordsAreRead(b: seq<Byte>, at: nat)
    ensures at + 4 <= |b| ==> ReadLe(b, at, 4) == Word32(b, at)
    ensures at + 8 <= |b| ==> ReadLe(b, at, 8) == Word64(b, at)
  {
    if at + 4 <= |b| {
      FourBytes(b, at);
    }
    if at + 8 <= |b| {
      FourBytes(b, at + 4);
      EightBytes(b, at);
    }
  }

  lemma FourBytes(b: seq<Byte>, at: nat)
    requires at + 4 <= |b|
    ensures ReadLe(b, at, 4) == Word32(b, at)
  {
    assert ReadLe(b, at + 4, 0) == 0;
    assert ReadLe(b, at + 2, 2) == b[at + 2] + 256 * ReadLe(b, at + 3, 1);
  }

  lemma EightBytes(b: seq<Byte>, at: nat)
    requires at + 8 <= |b|
    ensures ReadLe(b, at, 8) == Word32(b, at) + 4294967296 * ReadLe(b, at + 4, 4)
  {
    assert ReadLe(b, at, 8) == b[at] + 256 * ReadLe(b, at + 1, 7);
    assert ReadLe(b, at + 1, 7) == b[at + 1] + 256 * ReadLe(b, at + 2, 6);
    assert ReadLe(b, at + 2, 6) == b[at + 2] + 256 * ReadLe(b, at + 3, 5);
  }

  /** A zero-terminated string. */
  ghost predicate IsText(b: seq<Byte>, at: nat, s: seq<Byte>) {
    at + |s| < |b| && b[at..at + |s|] == s && b[at + |s|] == 0 && 0 !in s
  }

  /** Of `n` map entries that start at `at`, `size` bytes apart, those whose
      type word is `kind`: base at offset 0, length at 8, type at 16. */
  function RegionsOf(b: seq<Byte>, at: nat, size: nat, n: nat, kind: nat): seq<MemoryRegion>
    requires size >= 20 && at + n * size <= |b|
    decreases n
  {
    if n == 0 then []
    else
      var e := at + (n - 1) * size;
      assert e + size == at + n * size;
      RegionsOf(b, at, size, n - 1, kind) +
      if Word32(b, e + 16) == kind then [MemoryRegion(Word64(b, e), Word64(b, e + 8))] else []
  }

  /** What the tag at `at` adds to `d`, read off its bytes: the type word is 1
      for the command line, 2 for the loader's name, 3 for a module, 6 for the
      memory map, of which type 1 is RAM and type 2 reserved. */
  ghost predicate TagAdds(b: seq<Byte>, at: nat, d: BootData, d': BootData) {
    && at + 8 <= |b|
    && var kind, size := Word32(b, at), Word32(b, at + 4);
       if kind == 1 then
         exists s :: IsText(b, at + 8, s) && d' == d.(commandLine := Some(s))
       else if kind == 2 then
         exists s :: IsText(b, at + 8, s) && d' == d.(name := Some(s))
       else if kind == 3 then
         exists s :: ModuleAdds(b, at, s, d, d')
       else if kind == 6 then
         exists n: nat :: MapAdds(b, at, n, d, d')
       else d' == d
  }

  ghost predicate ModuleAdds(b: seq<Byte>, at: nat, s: seq<Byte>, d: BootData, d': BootData) {
    && at + 16 <= |b| && IsText(b, at + 16, s)
    && d' == d.(modules := d.modules + [BootModule(Word32(b, at + 8), Word32(b, at + 12), s)])
  }

  /** A memory map of `n` entries. */
  ghost predicate MapAdds(b: seq<Byte>, at: nat, n: nat, d: BootData, d': BootData) {
    && at + 16 <= |b|
    && var size, entrySize := Word32(b, at + 4), Word32(b, at + 8);
       && entrySize >= 24 && size == 16 + n * entrySize && at + 16 + n * entrySize <= |b|
       && d' == d.(ram := d.ram + RegionsOf(b, at + 16, entrySize, n, 1),
                   reserved := d.reserved + RegionsOf(b, at + 16, entrySize, n, 2))
  }

  /** What the tags from `at` on add, up to the one of type 0; each starts at
      the next multiple of 8 behind the one before. */
  ghost predicate TagsAdd(b: seq<Byte>, at: nat, d: BootData, d': BootData)
    decreases |b| - at
  {
    && at + 8 <= |b|
    && if Word32(b, at) == 0 then d' == d
       else
         && Word32(b, at + 4) >= 8
         && exists mid ::
              TagAdds(b, at, d, mid) && TagsAdd(b, at + (Word32(b, at + 4) + 7) / 8 * 8, mid, d')
  }

  // ------------------------------------------------------- field access

  lemma HasPrefix(b: seq<Byte>, at: nat, x: seq<Byte>, y: seq<Byte>)
    requires HasAt(b, at, x + y)
    ensures HasAt(b, at, x) && HasAt(b, at + |x|, y)
  {
    HasPart(b, at, [], x, y);
    assert [] + x + y == x + y;
    HasPart(b, at, x, y, []);
    assert x + y + [] == x + y;
  }

  /** Where the header fields and the body of an encoded tag stand. */
  lemma TagFields(b: seq<Byte>, at: nat, t: Tag)
    requires HasAt(b, at, EncodeTag(t)) && GoodTag(t)
    ensures at + 8 + |Body(t)| <= |b| && HasAt(b, at + 8, Body(t))
    ensures ReadLe(b, at, 4) == TypeOf(t) && ReadLe(b, at + 4, 4) == 8 + |Body(t)|
  {
    hide Le, Body, HasAt;
    var x, y, z := Le(TypeOf(t), 4), Le(8 + |Body(t)|, 4), Body(t);
    assert EncodeTag(t) == x + (y + z);
    HasPrefix(b, at, x, y + z);
    HasPrefix(b, at + 4, y, z);
    TypeSmall(t);
    HasRoom(b, at, x);
    HasRoom(b, at + 4, y);
    HasRoom(b, at + 8, z);
    ReadLeBack(b, at, TypeOf(t), 4);
    ReadLeBack(b, at + 4, 8 + |Body(t)|, 4);
  }

  lemma HasRoom(b: seq<Byte>, at: nat, x: seq<Byte>)
    requires HasAt(b, at, x)
    ensures at + |x| <= |b|
  {
  }

  lemma TypeSmall(t: Tag)
    requires GoodTag(t)
    ensures TypeOf(t) < Pow256(4)
  {
  }

  lemma EntryFields(b: seq<Byte>, at: nat, e: MapEntry, entrySize: nat)
    requires HasAt(b, at, EncodeEntry(e)) && GoodEntry(e, entrySize)
    ensures at + 20 <= |b|
    ensures ReadLe(b, at, 8) == e.base && ReadLe(b, at + 8, 8) == e.length && ReadLe(b, at + 16, 4) == e.kind
  {
    hide Le, HasAt, ReadLe, Pow256;
    var x, y, z := Le(e.base, 8), Le(e.length, 8), Le(e.kind, 4);
    assert EncodeEntry(e) == x + (y + (z + e.rest));
    HasPrefix(b, at, x, y + (z + e.rest));
    HasPrefix(b, at + 8, y, z + e.rest);
    HasPrefix(b, at + 16, z, e.rest);
    HasRoom(b, at + 16, z);
    ReadLeBack(b, at, e.base, 8);
    ReadLeBack(b, at + 8, e.length, 8);
    ReadLeBack(b, at + 16, e.kind, 4);
  }

  lemma TextThere(b: seq<Byte>, at: nat, s: seq<Byte>)
    requires HasAt(b, at, s + [0]) && GoodText(s)
    ensures IsText(b, at, s)
  {
    HasPrefix(b, at, s, [0]);
    assert b[at + |s|] == b[at + |s|..at + |s| + 1][0] == 0;
  }

  /** An encoded tag, read off its bytes, adds what the tag means. */
  lemma TagOnBytes(b: seq<Byte>, at: nat, t: Tag, d: BootData)
    requires HasAt(b, at, EncodeTag(t)) && GoodTag(t)
    ensures TagAdds(b, at, d, WithTag(d, t))
  {
    hide HasAt, ReadLe, EncodeTag, Le, Pow256, Word32, RegionsOf, IsText, OfKind, EncodeEntries, MapAdds, ModuleAdds;
    TagFields(b, at, t);
    WordsAreRead(b, at);
    match t
    case MemoryMap(_, _, _) => MapOnBytes(b, at, t, d);
    case CommandLine(s) => TextThere(b, at + 8, s);
    case Module(_, _, _) => ModuleOnBytes(b, at, t, d);
    case LoaderName(s) => TextThere(b, at + 8, s);
    case Other(_, _) =>
  }

  lemma ModuleOnBytes(b: seq<Byte>, at: nat, t: Tag, d: BootData)
    requires HasAt(b, at, EncodeTag(t)) && GoodTag(t) && t.Module?
    ensures ModuleAdds(b, at, t.text, d, WithTag(d, t))
  {
    hide HasAt, ReadLe, EncodeTag, Le, Pow256, Word32, IsText;
    ModuleFields(b, at, t);
    WordsAreRead(b, at + 8);
    WordsAreRead(b, at + 12);
    TextThere(b, at + 16, t.text);
  }

  lemma MapOnBytes(b: seq<Byte>, at: nat, t: Tag, d: BootData)
    requires HasAt(b, at, EncodeTag(t)) && GoodTag(t) && t.MemoryMap?
    ensures MapAdds(b, at, |t.entries|, d, WithTag(d, t))
  {
    hide HasAt, ReadLe, EncodeTag, Le, Pow256, Word32, RegionsOf, OfKind, EncodeEntries, GoodEntry;
    MapFields(b, at, t);
    WordsAreRead(b, at + 4);
    WordsAreRead(b, at + 8);
    var n := |t.entries|;
    EntriesOnBytes(b, at + 16, t.entries, t.entrySize, 0);
    assert t.entries[..n] == t.entries && t.entries[n..] == [] && t.entries[0..] == t.entries;
    RegionsAreEntries(b, at + 16, t.entries, t.entrySize, n, 1);
    RegionsAreEntries(b, at + 16, t.entries, t.entrySize, n, 2);
  }

  /** Each entry stands where its index says. */
  lemma {:induction false} EntriesOnBytes(b: seq<Byte>, at: nat, es: seq<MapEntry>, size: nat, k: nat)
    requires k <= |es| && at + k * size <= |b| && HasAt(b, at + k * size, EncodeEntries(es[k..]))
    requires forall e :: e in es ==> GoodEntry(e, size)
    ensures |EncodeEntries(es[k..])| == (|es| - k) * size && at + |es| * size <= |b|
    ensures forall i :: k <= i < |es| ==> EntryOnBytes(b, at + i * size, es[i])
    decreases |es| - k
  {
    hide HasAt, ReadLe, Le, Pow256, GoodEntry, EntryOnBytes;
    if k < |es| {
      NextEntry(b, at + k * size, es, k, size) by { SomeEntry(es, k, size); }
      EntryRead(b, at + k * size, es[k]);
      assert at + k * size + size == at + (k + 1) * size;
      HasRoom(b, at + k * size + size, EncodeEntries(es[k + 1..]));
      EntriesOnBytes(b, at, es, size, k + 1);
      assert (|es| - k) * size == (|es| - (k + 1)) * size + size;
    } else {
      assert es[k..] == [];
    }
  }

  lemma SomeEntry(es: seq<MapEntry>, k: nat, size: nat)
    requires k < |es| && forall e :: e in es ==> GoodEntry(e, size)
    ensures |EncodeEntries(es[k..])| > 0
  {
    assert es[k..][0] == es[k];
    assert GoodEntry(es[k], size);
  }

  ghost predicate EntryOnBytes(b: seq<Byte>, at: nat, e: MapEntry) {
    && at + 20 <= |b|
    && Word64(b, at) == e.base && Word64(b, at + 8) == e.length && Word32(b, at + 16) == e.kind
  }

  lemma EntryRead(b: seq<Byte>, at: nat, e: MapEntry)
    requires at + 20 <= |b|
    requires ReadLe(b, at, 8) == e.base && ReadLe(b, at + 8, 8) == e.length && ReadLe(b, at + 16, 4) == e.kind
    ensures EntryOnBytes(b, at, e)
  {
    hide ReadLe, Word32;
    WordsAreRead(b, at);
    WordsAreRead(b, at + 8);
    WordsAreRead(b, at + 16);
  }

  lemma {:induction false} RegionsAreEntries(
    b: seq<Byte>, at: nat, es: seq<MapEntry>, size: nat, n: nat, kind: nat)
    requires n <= |es| && size >= 20 && at + n * size <= |b|
    requires forall i :: 0 <= i < |es| ==> EntryOnBytes(b, at + i * size, es[i])
    ensures RegionsOf(b, at, size, n, kind) == OfKind(es[..n], kind)
    decreases n
  {
    hide Word32;
    if n > 0 {
      assert at + (n - 1) * size + size == at + n * size;
      RegionsAreEntries(b, at, es, size, n - 1, kind);
      assert EntryOnBytes(b, at + (n - 1) * size, es[n - 1]);
      assert es[..n][..n - 1] == es[..n - 1];
    }
  }

  /** All tags, one after the other. */
  function WithTags(d: BootData, ts: seq<Tag>): BootData
    decreases |ts|
  {
    if |ts| == 0 then d else WithTags(WithTag(d, ts[0]), ts[1..])
  }

  lemma {:induction false} MeaningInOrder(before: seq<Tag>, ts: seq<Tag>)
    ensures WithTags(Meaning(before), ts) == Meaning(before + ts)
    decreases |ts|
  {
    hide Meaning, WithTag;
    if |ts| == 0 {
      assert before + ts == before;
    } else {
      MeaningGrows(before, ts[0]);
      MeaningInOrder(before + [ts[0]], ts[1..]);
      assert before + [ts[0]] + ts[1..] == before + ts;
    }
  }

  lemma {:induction false} TagsOnBytes(b: seq<Byte>, at: nat, ts: seq<Tag>, d: BootData)
    requires HasTags(b, at, ts) && forall t :: t in ts ==> GoodTag(t)
    ensures TagsAdd(b, at, d, WithTags(d, ts))
    decreases |ts|
  {
    hide HasAt, Le, Body, ReadLe, GoodTag, TagAdds, WithTag, Word32, EncodeTag;
    RoomForTags(b, at, ts);
    WordsAreRead(b, at);
    WordsAreRead(b, at + 4);
    if |ts| == 0 {
      LastTag(b, at);
    } else {
      assert ts[0..] == ts;
      NextTag(b, at, ts, 0);
      SizeAtLeast8(b, at, ts[0]);
      TagOnBytes(b, at, ts[0], d);
      TagsOnBytes(b, at + AlignUp8(ReadLe(b, at + 4, 4)), ts[1..], WithTag(d, ts[0]));
    }
  }

  lemma SizeAtLeast8(b: seq<Byte>, at: nat, t: Tag)
    requires HasAt(b, at, EncodeTag(t)) && GoodTag(t)
    ensures at + 8 <= |b| && ReadLe(b, at + 4, 4) >= 8
  {
    hide HasAt, Le, Body, ReadLe, EncodeTag;
    TagFields(b, at, t);
  }

  lemma WholeOnBytes(b: seq<Byte>, ts: seq<Tag>)
    requires HasTags(b, 8, ts) && forall t :: t in ts ==> GoodTag(t)
    ensures TagsAdd(b, 8, BootData(None, None, [], [], []), Meaning(ts))
  {
    hide HasTags, GoodTag, TagsAdd, WithTags;
    TagsOnBytes(b, 8, ts, EMPTY);
    NoMeaning();
    MeaningInOrder([], ts);
    assert [] + ts == ts;
  }

  /** `kstrlen`. */
  method StrLen(b: seq<Byte>, at: nat, ghost s: seq<Byte>) returns (n: nat)
    requires HasAt(b, at, s + [0]) && GoodText(s)
    ensures n == |s| && at + n <= |b| && b[at..at + n] == s
  {
    HasPrefix(b, at, s, [0]);
    assert b[at + |s|] == b[at + |s|..at + |s| + 1][0] == 0;
    assert forall i :: 0 <= i < |s| ==> s[i] == b[at + i];
    n := 0;
    while b[at + n] != 0
      invariant n <= |s|
      decreases |s| - n
    {
      n := n + 1;
    }
  }

  class BootInfo {
    var name: Option<seq<Byte>>
    var commandLine: Option<seq<Byte>>
    var ram: seq<MemoryRegion>
    var reserved: seq<MemoryRegion>
    var modules: seq<BootModule>

    ghost function Data(): BootData
      reads this
    {
      BootData(name, commandLine, ram, reserved, modules)
    }

    constructor ()
      ensures Data() == EMPTY
    {
      name, commandLine, ram, reserved, modules := None, None, [], [], [];
    }

    /** `parse_memory_map`: entries are `entry_size` apart, whatever follows the
        fields the kernel reads. */
    method ParseMemoryMap(b: seq<Byte>, at: nat, ghost t: Tag)
      requires HasAt(b, at, EncodeTag(t)) && GoodTag(t) && t.MemoryMap?
      modifies this
      ensures Data() == WithTag(old(Data()), t)
    {
      hide HasAt, ReadLe, GoodEntry, EncodeTag, EncodeEntries, OfKind, Le;
      NoKind();
      MapFields(b, at, t);
      var current: nat := at + 16;
      var end := at + ReadLe(b, at + 4, 4);
      var entrySize := ReadLe(b, at + 8, 4);
      ghost var es, k := t.entries, 0;
      assert es[0..] == es && es[..0] == [];
      while current < end
        invariant 0 <= k <= |es| && end == current + |EncodeEntries(es[k..])|
        invariant HasAt(b, current, EncodeEntries(es[k..]))
        invariant Data() == old(Data()).(ram := old(ram) + OfKind(es[..k], AVAILABLE),
                                         reserved := old(reserved) + OfKind(es[..k], RESERVED))
        decreases |es| - k
      {
        NextEntry(b, current, es, k, entrySize);
        TakeNext(es, k);
        var region := MemoryRegion(ReadLe(b, current, 8), ReadLe(b, current + 8, 8));
        var kind := ReadLe(b, current + 16, 4);
        if kind == AVAILABLE {
          ram := ram + [region];
        } else if kind == RESERVED {
          reserved := reserved + [region];
        }
        current := current + entrySize;
        k := k + 1;
      }
      NoneLeft(es, k);
    }

    /** `parse_command_line`. */
    method ParseCommandLine(b: seq<Byte>, at: nat, ghost t: Tag)
      requires HasAt(b, at, EncodeTag(t)) && GoodTag(t) && t.CommandLine?
      modifies this
      ensures Data() == WithTag(old(Data()), t)
    {
      hide HasAt, ReadLe, EncodeTag, Le, Pow256;
      TagFields(b, at, t);
      var n := StrLen(b, at + 8, t.text);
      commandLine := Some(b[at + 8..at + 8 + n]);
    }

    /** `parse_name`. */
    method ParseName(b: seq<Byte>, at: nat, ghost t: Tag)
      requires HasAt(b, at, EncodeTag(t)) && GoodTag(t) && t.LoaderName?
      modifies this
      ensures Data() == WithTag(old(Data()), t)
    {
      hide HasAt, ReadLe, EncodeTag, Le, Pow256;
      TagFields(b, at, t);
      var n := StrLen(b, at + 8, t.text);
      name := Some(b[at + 8..at + 8 + n]);
    }

    /** `parse_module`. */
    method ParseModule(b: seq<Byte>, at: nat, ghost t: Tag)
      requires HasAt(b, at, EncodeTag(t)) && GoodTag(t) && t.Module?
      modifies this
      ensures Data() == WithTag(old(Data()), t)
    {
      hide ReadLe, HasAt, EncodeTag, Le, Pow256;
      ModuleFields(b, at, t);
      var start, end := ReadLe(b, at + 8, 4), ReadLe(b, at + 12, 4);
      var n := StrLen(b, at + 16, t.text);
      modules := modules + [BootModule(start, end, b[at + 16..at + 16 + n])];
    }

    /** `multiboot2_parse_boot_info`: on every well-formed structure it ends
        with exactly what the tags mean. */
    method ParseBootInfo(b: seq<Byte>, ghost ts: seq<Tag>)
      requires IsInfo(b, ts) && |b| < Pow256(4) && forall t :: t in ts ==> GoodTag(t)
      modifies this
      ensures Data() == Meaning(ts)
      ensures TagsAdd(b, 8, BootData(None, None, [], [], []), Data())
    {
      hide HasAt, ReadLe, GoodTag, Meaning, HasTags, Le, Body, TagsAdd;
      name, commandLine, ram, reserved, modules := None, None, [], [], [];
      StartOfTags(b, ts);
      var current: nat, end := 8, ReadLe(b, 0, 4);
      NoMeaning();
      ghost var k := 0;
      assert ts[0..] == ts && ts[..0] == [];
      while current < end
        invariant 0 <= k <= |ts| && end == |b|
        invariant HasTags(b, current, ts[k..]) && Data() == Meaning(ts[..k])
        decreases |ts| - k
      {
        if k == |ts| {
          assert ts[k..] == [];
          LastTag(b, current);
        } else {
          NextTag(b, current, ts, k);
        }
        var kind := ReadLe(b, current, 4);
        if kind == 0 {
          break;
        }
        ParseTag(b, current, kind, ts[k]);
        MeaningGrows(ts[..k], ts[k]);
        assert ts[..k + 1] == ts[..k] + [ts[k]];
        current := current + AlignUp8(ReadLe(b, current + 4, 4));
        k := k + 1;
      }
      assert ts[..|ts|] == ts;
      RoomForTags(b, current, ts[k..]);
      WholeOnBytes(b, ts);
    }

    /** The `switch` over the tag type. */
    method ParseTag(b: seq<Byte>, at: nat, kind: nat, ghost t: Tag)
      requires HasAt(b, at, EncodeTag(t)) && GoodTag(t) && kind == TypeOf(t)
      modifies this
      ensures Data() == WithTag(old(Data()), t) && TagAdds(b, at, old(Data()), Data())
    {
      hide TagAdds;
      TagOnBytes(b, at, t, Data());
      if kind == 6 {
        ParseMemoryMap(b, at, t);
      } else if kind == 1 {
        ParseCommandLine(b, at, t);
      } else if kind == 3 {
        ParseModule(b, at, t);
      } else if kind == 2 {
        ParseName(b, at, t);
      }
    }
  }

  lemma MapFields(b: seq<Byte>, at: nat, t: Tag)
    requires HasAt(b, at, EncodeTag(t)) && GoodTag(t) && t.MemoryMap?
    ensures at + 16 + |EncodeEntries(t.entries)| <= |b|
    ensures ReadLe(b, at + 8, 4) == t.entrySize
    ensures at + ReadLe(b, at + 4, 4) == at + 16 + |EncodeEntries(t.entries)|
    ensures HasAt(b, at + 16, EncodeEntries(t.entries))
  {
    hide HasAt, Le, ReadLe, EncodeTag, EncodeEntries, Pow256;
    TagFields(b, at, t);
    var x, y, z := Le(t.entrySize, 4), Le(t.version, 4), EncodeEntries(t.entries);
    assert Body(t) == x + (y + z);
    HasPrefix(b, at + 8, x, y + z);
    HasPrefix(b, at + 12, y, z);
    HasRoom(b, at + 8, Body(t));
    ReadLeBack(b, at + 8, t.entrySize, 4);
  }

  lemma ModuleFields(b: seq<Byte>, at: nat, t: Tag)
    requires HasAt(b, at, EncodeTag(t)) && GoodTag(t) && t.Module?
    ensures at + 16 <= |b| && ReadLe(b, at + 8, 4) == t.start && ReadLe(b, at + 12, 4) == t.end
    ensures HasAt(b, at + 16, t.text + [0])
  {
    hide HasAt, Le, ReadLe, EncodeTag, Pow256;
    TagFields(b, at, t);
    var x, y, z := Le(t.start, 4), Le(t.end, 4), t.text + [0];
    assert Body(t) == x + (y + z);
    HasPrefix(b, at + 8, x, y + z);
    HasPrefix(b, at + 12, y, z);
    HasRoom(b, at + 8, Body(t));
    ReadLeBack(b, at + 8, t.start, 4);
    ReadLeBack(b, at + 12, t.end, 4);
  }

  lemma NextEntry(b: seq<Byte>, at: nat, es: seq<MapEntry>, k: nat, entrySize: nat)
    requires k <= |es| && |EncodeEntries(es[k..])| > 0 && HasAt(b, at, EncodeEntries(es[k..]))
    requires forall e :: e in es ==> GoodEntry(e, entrySize)
    ensures k < |es| && at + 20 <= |b|
    ensures ReadLe(b, at, 8) == es[k].base && ReadLe(b, at + 8, 8) == es[k].length
    ensures ReadLe(b, at + 16, 4) == es[k].kind
    ensures |EncodeEntries(es[k..])| == entrySize + |EncodeEntries(es[k + 1..])|
    ensures HasAt(b, at + entrySize, EncodeEntries(es[k + 1..]))
  {
    hide HasAt;
    assert k < |es|;
    assert es[k..][0] == es[k] && es[k..][1..] == es[k + 1..];
    assert GoodEntry(es[k], entrySize);
    HasPrefix(b, at, EncodeEntry(es[k]), EncodeEntries(es[k + 1..]));
    EntryFields(b, at, es[k], entrySize);
  }

  lemma TakeNext(es: seq<MapEntry>, k: nat)
    requires k < |es|
    ensures var region := MemoryRegion(es[k].base, es[k].length);
            forall kind :: OfKind(es[..k + 1], kind) ==
                             OfKind(es[..k], kind) + if es[k].kind == kind then [region] else []
  {
    assert es[..k + 1][..k] == es[..k];
  }

  lemma NoneLeft(es: seq<MapEntry>, k: nat)
    requires k <= |es| && |EncodeEntries(es[k..])| <= 0
    ensures es[..k] == es
  {
  }

  lemma NoKind()
    ensures forall kind :: OfKind([], kind) == []
  {
  }

  lemma NoMeaning()
    ensures Meaning([]) == EMPTY
  {
  }

  lemma StartOfTags(b: seq<Byte>, ts: seq<Tag>)
    requires IsInfo(b, ts) && |b| < Pow256(4)
    ensures |b| >= 8 && ReadLe(b, 0, 4) == |b| && HasTags(b, 8, ts)
  {
    hide Le, HasTags;
    ReadLeBack(b, 0, |b|, 4);
  }

  lemma LastTag(b: seq<Byte>, at: nat)
    requires HasTags(b, at, [])
    ensures at + 4 <= |b| && ReadLe(b, at, 4) == 0
  {
    HasPrefix(b, at, Le(0, 4), Le(8, 4));
    assert Pow256(4) > 0;
    ReadLeBack(b, at, 0, 4);
  }

  lemma NextTag(b: seq<Byte>, at: nat, ts: seq<Tag>, k: nat)
    requires k < |ts| && HasTags(b, at, ts[k..]) && forall t :: t in ts ==> GoodTag(t)
    ensures HasAt(b, at, EncodeTag(ts[k])) && GoodTag(ts[k]) && at + 8 <= |b|
    ensures ReadLe(b, at, 4) == TypeOf(ts[k]) != 0
    ensures HasTags(b, at + AlignUp8(ReadLe(b, at + 4, 4)), ts[k + 1..])
  {
    hide HasAt, Le, Body, AlignUp8, ReadLe;
    assert ts[k..][0] == ts[k] && ts[k..][1..] == ts[k + 1..];
    TagFields(b, at, ts[k]);
    TypeNotEnd(ts[k]);
  }

  lemma TypeNotEnd(t: Tag)
    requires GoodTag(t)
    ensures TypeOf(t) != 0
  {
  }

  lemma RoomForTags(b: seq<Byte>, at: nat, ts: seq<Tag>)
    requires HasTags(b, at, ts)
    ensures at + 8 <= |b|
  {
  }
}
