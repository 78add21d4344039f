/** The two decoders of an ELF dynamic table: readDynamic (scripts/android-staging-elf.js) and validateAndroidLifetime
    (scripts/android-elf.js). */
module DynamicTable {
  import opened Common
  import opened Doubles
  import opened JsonBoundary

  type Byte = b: int | 0 <= b < 0x100 witness 0

  datatype Entry = Entry(tag: nat, value: nat)
  type Table = map<nat, seq<nat>>

  const DT_FLAGS_1: nat := 0x6fff_fffb
  const DF_1_NODELETE: nat := 8
  const MIB: int := 0x10_0000

  // ---------- The table as a list of entries ----------

  /** The little-endian number in `width` bytes. */
  function Word(bytes: seq<Byte>, at: nat, width: nat): nat
    requires at + width <= |bytes|
    decreases width
  {
    if width == 0 then 0 else bytes[at] + 0x100 * Word(bytes, at + 1, width - 1)
  }

  function EntryAt(bytes: seq<Byte>, at: nat, width: nat): Entry
    requires at + 2 * width <= |bytes|
  {
    Entry(Word(bytes, at, width), Word(bytes, at + width, width))
  }

  /** Where the k-th entry starts. */
  ghost function Position(width: nat, k: nat): nat {
    if k == 0 then 0 else Position(width, k - 1) + 2 * width
  }

  lemma {:induction false} PositionIs(width: nat, k: nat)
    ensures Position(width, k) == 2 * width * k
  {
    if k > 0 {
      PositionIs(width, k - 1);
      assert 2 * width * (k - 1) + 2 * width == 2 * width * k;
    }
  }

  /** The first `n` entries. */
  ghost function Entries(bytes: seq<Byte>, width: nat, n: nat): (r: seq<Entry>)
    requires Position(width, n) <= |bytes|
    ensures |r| == n
  {
    if n == 0 then [] else Entries(bytes, width, n - 1) + [EntryAt(bytes, Position(width, n - 1), width)]
  }

  /** The entries before the first one that is DT_NULL, if there is one. */
  ghost function BeforeNull(entries: seq<Entry>): Option<seq<Entry>> {
    if entries == [] then None
    else if entries[0].tag == 0 then Some([])
    else
      var rest := BeforeNull(entries[1..]);
      if rest.Some? then Some([entries[0]] + rest.value) else None
  }

  /** The values of a tag, in order. */
  ghost function Values(entries: seq<Entry>, tag: nat): seq<nat> {
    if entries == [] then []
    else
      var n := |entries| - 1;
      Values(entries[..n], tag) + (if entries[n].tag == tag then [entries[n].value] else [])
  }

  ghost predicate GroupsTag(table: Table, entries: seq<Entry>, tag: nat) {
    && (tag in table <==> Values(entries, tag) != [])
    && (tag in table ==> table[tag] == Values(entries, tag))
  }

  ghost predicate Groups(table: Table, entries: seq<Entry>) {
    forall tag: nat :: GroupsTag(table, entries, tag)
  }

  ghost predicate NullAt(entries: seq<Entry>, k: nat) {
    k < |entries| && entries[k].tag == 0 && forall i :: 0 <= i < k ==> entries[i].tag != 0
  }

  /** BeforeNull, by position. */
  lemma {:induction false} FirstNull(entries: seq<Entry>)
    ensures BeforeNull(entries).None? ==> forall i :: 0 <= i < |entries| ==> entries[i].tag != 0
    ensures BeforeNull(entries).Some? ==>
      var k := |BeforeNull(entries).value|; NullAt(entries, k) && BeforeNull(entries).value == entries[..k]
  {
    if entries != [] && entries[0].tag != 0 {
      var rest := entries[1..];
      FirstNull(rest);
      assert forall i :: 1 <= i < |entries| ==> entries[i] == rest[i - 1];
    }
  }

  lemma FoundNull(entries: seq<Entry>, k: nat)
    requires NullAt(entries, k)
    ensures BeforeNull(entries) == Some(entries[..k])
  {
    FirstNull(entries);
  }

  lemma NoNull(entries: seq<Entry>)
    requires forall i :: 0 <= i < |entries| ==> entries[i].tag != 0
    ensures BeforeNull(entries) == None
  {
    FirstNull(entries);
  }

  /** The k-th entry is the one at its position. */
  lemma {:induction false} EntryIsAt(bytes: seq<Byte>, width: nat, k: nat, n: nat)
    requires k < n && Position(width, n) <= |bytes|
    ensures Position(width, k) + 2 * width <= Position(width, n)
    ensures Entries(bytes, width, n)[k] == EntryAt(bytes, Position(width, k), width)
    decreases n
  {
    if k < n - 1 { EntryIsAt(bytes, width, k, n - 1); }
  }

  /** A position is inside exactly when there is an entry there. */
  lemma {:induction false} Inside(width: nat, k: nat, n: nat)
    requires width > 0
    ensures Position(width, k) < Position(width, n) <==> k < n
    decreases n + k
  {
    if k < n { Inside(width, k, n - 1); } else if n < k { Inside(width, k - 1, n); }
  }

  lemma OneMore(entries: seq<Entry>, k: nat, tag: nat)
    requires k < |entries|
    ensures Values(entries[..k + 1], tag) ==
      Values(entries[..k], tag) + (if entries[k].tag == tag then [entries[k].value] else [])
  {
    assert entries[..k + 1][..k] == entries[..k];
  }

  /** The table with one more value for a tag. */
  function Pushed(table: Table, e: Entry): Table {
    var present := if e.tag in table then table else table[e.tag := []];
    present[e.tag := present[e.tag] + [e.value]]
  }

  lemma Grouped(table: Table, entries: seq<Entry>, k: nat)
    requires k < |entries| && Groups(table, entries[..k])
    ensures Groups(Pushed(table, entries[k]), entries[..k + 1])
  {
    var after, prefix := Pushed(table, entries[k]), entries[..k + 1];
    forall tag: nat ensures GroupsTag(after, prefix, tag) {
      assert GroupsTag(table, entries[..k], tag);
      OneMore(entries, k, tag);
    }
  }

  lemma {:induction false} MoreValues(entries: seq<Entry>, k: nat, j: nat, tag: nat)
    requires k <= j <= |entries|
    ensures |Values(entries[..k], tag)| <= |Values(entries[..j], tag)|
    decreases j
  {
    if k < j {
      MoreValues(entries, k, j - 1, tag);
      OneMore(entries, j - 1, tag);
    }
  }

  // ---------- Flags ----------

  /** Whether the bit of a mask is set. */
  predicate Bit(value: nat, mask: nat)
    requires mask > 0
  {
    value / mask % 2 == 1
  }

  /** That is the bit: the mask goes into the value an odd number of times. */
  lemma BitIs(value: nat, mask: nat, times: nat, rest: nat)
    requires 0 <= rest < mask && value == times * mask + rest
    ensures Bit(value, mask) <==> times % 2 == 1
  {
    assert value / mask == times by { Quotient(times, mask, rest); }
  }

  lemma Quotient(times: nat, mask: nat, rest: nat)
    requires 0 <= rest < mask
    ensures (times * mask + rest) / mask == times
  {
    var q := (times * mask + rest) / mask;
    if q < times { Times(q + 1, times, mask); }
    if q > times { Times(times + 1, q, mask); }
  }

  function ValuesOf(table: Table, tag: nat): seq<nat> {
    if tag in table then table[tag] else []
  }

  /** dynamicFlag: an exception when the tag occurs twice. */
  function DynamicFlag(table: Table, tag: nat, mask: nat): Option<bool>
    requires mask > 0
  {
    var values := ValuesOf(table, tag);
    if |values| > 1 then None else Some(|values| == 1 && Bit(values[0], mask))
  }

  // ---------- The segment in the file ----------

  /** A safe integer, as a number of JavaScript's. */
  function SafeInt(v: Value): Option<int> {
    if v.Num? && IsSafeInteger(v.number) then Some(v.number.value.Floor) else None
  }

  /** The bounds check of readDynamic; the sum is one of doubles. */
  predicate StagingBounds(offset: Value, size: Value, width: nat, file: nat)
    requires width > 0
  {
    && SafeInt(offset).Some? && SafeInt(offset).value >= 0
    && SafeInt(size).Some? && SafeInt(size).value > 0
    && SafeInt(size).value <= MIB && SafeInt(size).value % (2 * width) == 0
    && var end := SafeInt(Num(ToNumber(SafeInt(offset).value + SafeInt(size).value)));
    end.Some? && 0 <= end.value <= file
  }

  /** The bounds check of validateAndroidLifetime. */
  predicate LifetimeBounds(offset: Value, size: Value, width: nat, file: nat)
    requires width > 0
  {
    && SafeInt(offset).Some? && SafeInt(offset).value >= 16
    && SafeInt(size).Some? && SafeInt(size).value >= 2 * width
    && SafeInt(size).value <= MIB && SafeInt(size).value % (2 * width) == 0
    && var end := SafeInt(Num(ToNumber(SafeInt(offset).value + SafeInt(size).value)));
    end.Some? && end.value <= file
  }

  /** The identification bytes that validateAndroidLifetime looks at. */
  predicate Identified(file: seq<Byte>, width: nat) {
    && |file| >= 16 && file[0] == 0x7f && file[1] == 0x45 && file[2] == 0x4c && file[3] == 0x46
    && file[4] == (if width == 8 then 2 else 1) && file[5] == 1
  }

  lemma WholeEntries(width: nat, size: int)
    requires width == 4 || width == 8
    ensures size >= 0 && size % (2 * width) == 0 ==> Position(width, size / (2 * width)) == size
  {
    if size >= 0 { PositionIs(width, size / (2 * width)); }
  }

  /** The stricter bounds imply the others, and both describe a part of the file that is a whole number of entries. */
  lemma BoundsAreReal(offset: Value, size: Value, width: nat, file: nat)
    requires width == 4 || width == 8
    ensures LifetimeBounds(offset, size, width, file) ==> StagingBounds(offset, size, width, file)
    ensures StagingBounds(offset, size, width, file) ==>
      && 0 <= SafeInt(offset).value && 0 < SafeInt(size).value
      && SafeInt(offset).value + SafeInt(size).value <= file
      && Position(width, SafeInt(size).value / (2 * width)) == SafeInt(size).value
    ensures StagingBounds(offset, size, width, file) && SafeInt(offset).value >= 16 ==>
      LifetimeBounds(offset, size, width, file)
  {
    if SafeInt(offset).Some? && SafeInt(size).Some? {
      NumberIsSafe(SafeInt(offset).value + SafeInt(size).value);
      WholeEntries(width, SafeInt(size).value);
    }
  }

  lemma SegmentInFile(offset: Value, size: Value, width: nat, file: nat)
    requires (width == 4 || width == 8) && StagingBounds(offset, size, width, file)
    ensures 0 <= SafeInt(offset).value && 0 < SafeInt(size).value
    ensures SafeInt(offset).value + SafeInt(size).value <= file
    ensures Position(width, SafeInt(size).value / (2 * width)) == SafeInt(size).value
  {
    BoundsAreReal(offset, size, width, file);
  }

  function Slice(file: seq<Byte>, from: int, n: int, width: nat): (r: seq<Byte>)
    requires width > 0 && 0 <= from && 0 <= n && from + n <= |file| && Position(width, n / (2 * width)) == n
    ensures |r| == n && Position(width, |r| / (2 * width)) == |r|
  {
    file[from..from + n]
  }

  /** The bytes of the segment. */
  function Bytes(file: seq<Byte>, offset: Value, size: Value, width: nat): (r: seq<Byte>)
    requires (width == 4 || width == 8) && StagingBounds(offset, size, width, |file|)
    ensures Position(width, |r| / (2 * width)) == |r|
  {
    SegmentInFile(offset, size, width, |file|);
    Slice(file, SafeInt(offset).value, SafeInt(size).value, width)
  }

  /** The entries of the segment before DT_NULL. */
  ghost function Listed(file: seq<Byte>, offset: Value, size: Value, width: nat): Option<seq<Entry>>
    requires (width == 4 || width == 8) && StagingBounds(offset, size, width, |file|)
  {
    var bytes := Bytes(file, offset, size, width);
    BeforeNull(Entries(bytes, width, |bytes| / (2 * width)))
  }

  // ---------- The same, byte by byte ----------

  /** What four or eight bytes of the file are worth, the least significant first. */
  ghost function Number(file: seq<Byte>, at: nat, width: nat): int
    requires (width == 4 || width == 8) && at + width <= |file|
  {
    if width == 4 then Low(file, at) else Low(file, at) + 0x1_0000_0000 * Low(file, at + 4)
  }

  ghost function Low(file: seq<Byte>, at: nat): int
    requires at + 4 <= |file|
  {
    file[at] as int + 0x100 * file[at + 1] as int + 0x1_0000 * file[at + 2] as int + 0x100_0000 * file[at + 3] as int
  }

  /** Where the k-th pair starts. */
  ghost function Start(width: nat, k: nat): nat {
    if width == 4 then 8 * k else 16 * k
  }

  /** From here on the file has these pairs of a tag, which is not zero, and a value, and then a tag that is zero, all
      within `size` bytes. */
  ghost predicate TableAt(file: seq<Byte>, from: nat, size: nat, width: nat, listed: seq<Entry>)
    requires (width == 4 || width == 8) && from + size <= |file|
  {
    && Start(width, |listed| + 1) <= size
    && (forall k :: 0 <= k < |listed| ==>
          && listed[k].tag != 0
          && listed[k].tag == Number(file, from + Start(width, k), width)
          && listed[k].value == Number(file, from + Start(width, k) + width, width))
    && Number(file, from + Start(width, |listed|), width) == 0
  }

  lemma LowIsWord(bytes: seq<Byte>, at: nat)
    requires at + 4 <= |bytes|
    ensures Word(bytes, at, 4) == Low(bytes, at)
  {
    assert Word(bytes, at + 3, 1) == bytes[at + 3] + 0x100 * Word(bytes, at + 4, 0);
    assert Word(bytes, at + 2, 2) == bytes[at + 2] + 0x100 * Word(bytes, at + 3, 1);
    assert Word(bytes, at + 1, 3) == bytes[at + 1] + 0x100 * Word(bytes, at + 2, 2);
  }

  lemma EightBytes(bytes: seq<Byte>, at: nat)
    requires at + 8 <= |bytes|
    ensures Word(bytes, at, 8) == Word(bytes, at, 4) + 0x1_0000_0000 * Word(bytes, at + 4, 4)
  {
    LowIsWord(bytes, at);
    assert Word(bytes, at + 3, 5) == bytes[at + 3] + 0x100 * Word(bytes, at + 4, 4);
    assert Word(bytes, at + 2, 6) == bytes[at + 2] + 0x100 * Word(bytes, at + 3, 5);
    assert Word(bytes, at + 1, 7) == bytes[at + 1] + 0x100 * Word(bytes, at + 2, 6);
  }

  lemma WordIsNumber(file: seq<Byte>, from: nat, size: nat, at: nat, width: nat)
    requires (width == 4 || width == 8) && from + size <= |file| && at + width <= size
    ensures Word(file[from..from + size], at, width) == Number(file, from + at, width)
  {
    var bytes := file[from..from + size];
    LowIsWord(bytes, at);
    if width == 8 {
      LowIsWord(bytes, at + 4);
      EightBytes(bytes, at);
    }
  }

  lemma StartIsPosition(width: nat, k: nat)
    requires width == 4 || width == 8
    ensures Start(width, k) == Position(width, k)
  {
    PositionIs(width, k);
  }

  lemma EntryIsNumbers(file: seq<Byte>, from: nat, size: nat, width: nat, n: nat, k: nat)
    requires (width == 4 || width == 8) && from + size <= |file|
    requires Start(width, n) == Position(width, n) == size && k < n
    ensures var e := Entries(file[from..from + size], width, n)[k];
      && e.tag == Number(file, from + Start(width, k), width)
      && e.value == Number(file, from + Start(width, k) + width, width)
  {
    var at := Start(width, k);
    StartIsPosition(width, k);
    EntryIsAt(file[from..from + size], width, k, n);
    PairIsNumbers(file, from, size, at, width);
  }

  lemma PairIsNumbers(file: seq<Byte>, from: nat, size: nat, at: nat, width: nat)
    requires (width == 4 || width == 8) && from + size <= |file| && at + 2 * width <= size
    ensures EntryAt(file[from..from + size], at, width).tag == Number(file, from + at, width)
    ensures EntryAt(file[from..from + size], at, width).value == Number(file, from + at + width, width)
  {
    WordIsNumber(file, from, size, at, width);
    WordIsNumber(file, from, size, at + width, width);
  }

  /** The entries before DT_NULL are exactly those pairs. */
  lemma ListedIsTable(file: seq<Byte>, from: nat, size: nat, width: nat, n: nat, listed: seq<Entry>)
    requires (width == 4 || width == 8) && from + size <= |file| && Position(width, n) == size
    ensures BeforeNull(Entries(file[from..from + size], width, n)) == Some(listed) <==>
      TableAt(file, from, size, width, listed)
  {
    var entries := Entries(file[from..from + size], width, n);
    StartIsPosition(width, n);
    forall k | 0 <= k < n
      ensures entries[k].tag == Number(file, from + Start(width, k), width)
      ensures entries[k].value == Number(file, from + Start(width, k) + width, width)
    {
      EntryIsNumbers(file, from, size, width, n, k);
    }
    TableIsPrefix(file, from, size, width, entries, listed);
  }

  lemma TableIsPrefix(file: seq<Byte>, from: nat, size: nat, width: nat, entries: seq<Entry>, listed: seq<Entry>)
    requires (width == 4 || width == 8) && from + size <= |file| && Start(width, |entries|) == size
    requires forall k :: 0 <= k < |entries| ==>
      && entries[k].tag == Number(file, from + Start(width, k), width)
      && entries[k].value == Number(file, from + Start(width, k) + width, width)
    ensures BeforeNull(entries) == Some(listed) <==> TableAt(file, from, size, width, listed)
  {
    FirstNull(entries);
    if BeforeNull(entries) == Some(listed) { PrefixIsTable(file, from, size, width, entries, |listed|); }
    if TableAt(file, from, size, width, listed) { TableIsEntries(file, from, size, width, entries, listed); }
  }

  lemma PrefixIsTable(file: seq<Byte>, from: nat, size: nat, width: nat, entries: seq<Entry>, n: nat)
    requires (width == 4 || width == 8) && from + size <= |file| && Start(width, |entries|) == size
    requires forall k :: 0 <= k < |entries| ==>
      && entries[k].tag == Number(file, from + Start(width, k), width)
      && entries[k].value == Number(file, from + Start(width, k) + width, width)
    requires NullAt(entries, n)
    ensures TableAt(file, from, size, width, entries[..n])
  {
    assert entries[n].tag == Number(file, from + Start(width, n), width);
  }

  lemma TableIsEntries(file: seq<Byte>, from: nat, size: nat, width: nat, entries: seq<Entry>, listed: seq<Entry>)
    requires (width == 4 || width == 8) && from + size <= |file| && Start(width, |entries|) == size
    requires forall k :: 0 <= k < |entries| ==>
      && entries[k].tag == Number(file, from + Start(width, k), width)
      && entries[k].value == Number(file, from + Start(width, k) + width, width)
    requires TableAt(file, from, size, width, listed)
    ensures BeforeNull(entries) == Some(listed)
  {
    var n := |listed|;
    assert entries[n].tag == Number(file, from + Start(width, n), width);
    forall k | 0 <= k < n ensures entries[k].tag == listed[k].tag && entries[k].value == listed[k].value {}
    FoundNull(entries, n);
    assert entries[..n] == listed;
  }

  // ---------- The decoders ----------

  /** The entries that fill these bytes. */
  ghost predicate Decodes(bytes: seq<Byte>, width: nat, all: seq<Entry>) {
    Position(width, |all|) == |bytes| && all == Entries(bytes, width, |all|)
  }

  /** What is read at the k-th position. */
  lemma Reading(bytes: seq<Byte>, width: nat, all: seq<Entry>, k: nat)
    requires width > 0 && Decodes(bytes, width, all) && k <= |all|
    ensures Position(width, k) < |bytes| <==> k < |all|
    ensures k < |all| ==>
      && Position(width, k) + 2 * width <= |bytes|
      && all[k] == EntryAt(bytes, Position(width, k), width)
      && Position(width, k + 1) == Position(width, k) + 2 * width
  {
    Inside(width, k, |all|);
    if k < |all| { EntryIsAt(bytes, width, k, |all|); }
  }

  ghost predicate NoNullUpTo(all: seq<Entry>, k: nat) {
    k <= |all| && forall i :: 0 <= i < k ==> all[i].tag != 0
  }

  /** The loop of readDynamic. */
  method ReadEntries(bytes: seq<Byte>, width: nat, ghost all: seq<Entry>) returns (table: Option<Table>)
    requires width > 0 && Decodes(bytes, width, all)
    ensures table.Some? <==> BeforeNull(all).Some?
    ensures table.Some? ==> Groups(table.value, BeforeNull(all).value)
  {
    var entries: Table := map[];
    var at: nat := 0;
    ghost var k: nat := 0;
    assert all[..0] == [];
    while at < |bytes|
      invariant at == Position(width, k) && NoNullUpTo(all, k)
      invariant Groups(entries, all[..k])
      decreases |bytes| - at
    {
      Reading(bytes, width, all, k);
      var e := EntryAt(bytes, at, width);
      if e.tag == 0 {
        FoundNull(all, k);
        return Some(entries);
      }
      Grouped(entries, all, k);
      entries := Pushed(entries, e);
      at := at + 2 * width;
      k := k + 1;
    }
    Reading(bytes, width, all, k);
    NoNull(all);
    return None;
  }

  /** The flags that validateAndroidLifetime has found among the first `k` entries. */
  ghost predicate FlagsAre(flags: Option<nat>, all: seq<Entry>, k: nat)
    requires k <= |all|
  {
    Values(all[..k], DT_FLAGS_1) == (if flags.Some? then [flags.value] else [])
  }

  /** What the k-th entry means for the verdict. */
  lemma ScanStep(flags: Option<nat>, all: seq<Entry>, k: nat)
    requires k < |all| && NoNullUpTo(all, k) && FlagsAre(flags, all, k)
    ensures var e := all[k];
      && (e.tag == 0 ==> (LastsForever(BeforeNull(all)) <==> flags.Some? && Bit(flags.value, DF_1_NODELETE)))
      && (e.tag != 0 ==> NoNullUpTo(all, k + 1))
      && (e.tag != 0 && e.tag != DT_FLAGS_1 ==> FlagsAre(flags, all, k + 1))
      && (e.tag == DT_FLAGS_1 && flags.None? ==> FlagsAre(Some(e.value), all, k + 1))
      && (e.tag == DT_FLAGS_1 && flags.Some? ==> !LastsForever(BeforeNull(all)))
  {
    if all[k].tag == 0 {
      FoundNull(all, k);
    } else {
      OneMore(all, k, DT_FLAGS_1);
      if all[k].tag == DT_FLAGS_1 && flags.Some? { Duplicate(all, k); }
    }
  }

  /** The loop of validateAndroidLifetime. */
  method ScanFlags(bytes: seq<Byte>, width: nat, ghost all: seq<Entry>) returns (ok: bool)
    requires width > 0 && Decodes(bytes, width, all)
    ensures ok <==> LastsForever(BeforeNull(all))
  {
    var flags: Option<nat> := None;
    var at: nat := 0;
    ghost var k: nat := 0;
    assert all[..0] == [];
    while at < |bytes|
      invariant at == Position(width, k) && NoNullUpTo(all, k)
      invariant FlagsAre(flags, all, k)
      decreases |bytes| - at
    {
      Reading(bytes, width, all, k);
      var e := EntryAt(bytes, at, width);
      ScanStep(flags, all, k);
      if e.tag == 0 {
        return flags.Some? && Bit(flags.value, DF_1_NODELETE);
      }
      if e.tag == DT_FLAGS_1 {
        if flags.Some? { return false; }
        flags := Some(e.value);
      }
      at := at + 2 * width;
      k := k + 1;
    }
    Reading(bytes, width, all, k);
    NoNull(all);
    return false;
  }

  /** There is a DT_NULL, and before it one DT_FLAGS_1, with DF_1_NODELETE. */
  ghost predicate LastsForever(listed: Option<seq<Entry>>) {
    listed.Some? && var flags := Values(listed.value, DT_FLAGS_1); |flags| == 1 && Bit(flags[0], DF_1_NODELETE)
  }

  /** One pair has DT_FLAGS_1, and bit 3 is set in its value. */
  ghost predicate NoDelete(listed: seq<Entry>) {
    exists i :: OnlyAt(listed, i, 0x6fff_fffb) && listed[i].value / 8 % 2 == 1
  }

  ghost predicate OnlyAt(listed: seq<Entry>, i: int, tag: nat) {
    && 0 <= i < |listed| && listed[i].tag == tag
    && forall j :: 0 <= j < |listed| && j != i ==> listed[j].tag != tag
  }

  lemma {:induction false} NoValues(entries: seq<Entry>, tag: nat)
    ensures Values(entries, tag) == [] <==> forall j :: 0 <= j < |entries| ==> entries[j].tag != tag
  {
    if entries != [] {
      var n := |entries| - 1;
      NoValues(entries[..n], tag);
      assert forall j :: 0 <= j < n ==> entries[j] == entries[..n][j];
    }
  }

  lemma OnlyLast(entries: seq<Entry>, tag: nat)
    requires entries != [] && entries[|entries| - 1].tag == tag
    ensures Values(entries[..|entries| - 1], tag) == [] <==> OnlyAt(entries, |entries| - 1, tag)
  {
    var before := entries[..|entries| - 1];
    NoValues(before, tag);
    assert forall j :: 0 <= j < |before| ==> entries[j] == before[j];
  }

  lemma OnlyBefore(entries: seq<Entry>, i: nat, tag: nat)
    requires i < |entries| - 1 && entries[|entries| - 1].tag != tag
    ensures OnlyAt(entries, i, tag) <==> OnlyAt(entries[..|entries| - 1], i, tag)
  {
    var before := entries[..|entries| - 1];
    assert forall j :: 0 <= j < |before| ==> entries[j] == before[j];
  }

  lemma {:induction false} OneValue(entries: seq<Entry>, tag: nat, v: nat)
    ensures Values(entries, tag) == [v] <==> exists i :: OnlyAt(entries, i, tag) && entries[i].value == v
  {
    if entries != [] {
      var n := |entries| - 1;
      var before := entries[..n];
      if entries[n].tag == tag {
        OnlyLast(entries, tag);
        var values := Values(entries, tag);
        assert values == Values(before, tag) + [entries[n].value];
        if values == [v] { assert |Values(before, tag)| == 0 && values[0] == entries[n].value; }
        if i :| OnlyAt(entries, i, tag) && entries[i].value == v { assert i == n; }
      } else {
        OneValue(before, tag, v);
        assert Values(entries, tag) == Values(before, tag);
        if i :| OnlyAt(before, i, tag) && before[i].value == v { OnlyBefore(entries, i, tag); }
        if i :| OnlyAt(entries, i, tag) && entries[i].value == v { OnlyBefore(entries, i, tag); }
      }
    }
  }

  /** These are the values of the pairs of a tag, in the order in which the pairs stand. */
  ghost predicate InOrder(values: seq<nat>, listed: seq<Entry>, tag: nat, places: seq<nat>) {
    && |places| == |values|
    && (forall i, j :: 0 <= i < j < |places| ==> places[i] < places[j])
    && (forall i: nat :: i in places <==> i < |listed| && listed[i].tag == tag)
    && (forall i :: 0 <= i < |places| ==> places[i] < |listed| && values[i] == listed[places[i]].value)
  }

  lemma {:induction false} ValuesInOrder(listed: seq<Entry>, tag: nat) returns (places: seq<nat>)
    ensures InOrder(Values(listed, tag), listed, tag, places)
  {
    places := [];
    if listed != [] {
      var n := |listed| - 1;
      var before := listed[..n];
      places := ValuesInOrder(before, tag);
      assert forall i :: i in places ==> i < n;
      if listed[n].tag == tag { places := places + [n]; }
      assert forall i: nat :: i < n ==> listed[i] == before[i];
    }
  }

  /** The table has the tags that are listed, and for each of them its values in order. */
  ghost predicate Collects(table: Table, listed: seq<Entry>) {
    forall tag: nat ::
      && (tag in table <==> exists i :: 0 <= i < |listed| && listed[i].tag == tag)
      && (tag in table ==> exists places :: InOrder(table[tag], listed, tag, places))
  }

  lemma GroupsCollects(table: Table, listed: seq<Entry>)
    requires Groups(table, listed)
    ensures Collects(table, listed)
  {
    forall tag: nat
      ensures tag in table <==> exists i :: 0 <= i < |listed| && listed[i].tag == tag
      ensures tag in table ==> exists places :: InOrder(table[tag], listed, tag, places)
    {
      assert GroupsTag(table, listed, tag);
      NoValues(listed, tag);
      var places := ValuesInOrder(listed, tag);
    }
  }

  lemma LastsIsNoDelete(listed: seq<Entry>)
    ensures LastsForever(Some(listed)) <==> NoDelete(listed)
  {
    var flags := Values(listed, DT_FLAGS_1);
    if |flags| == 1 {
      assert flags == [flags[0]];
      OneValue(listed, DT_FLAGS_1, flags[0]);
    }
    if NoDelete(listed) {
      var i :| OnlyAt(listed, i, 0x6fff_fffb) && listed[i].value / 8 % 2 == 1;
      OneValue(listed, DT_FLAGS_1, listed[i].value);
    }
  }

  lemma Duplicate(all: seq<Entry>, k: nat)
    requires k < |all| && |Values(all[..k + 1], DT_FLAGS_1)| > 1 && all[k].tag != 0
    requires forall i :: 0 <= i < k ==> all[i].tag != 0
    ensures !LastsForever(BeforeNull(all))
  {
    FirstNull(all);
    if BeforeNull(all).Some? { MoreValues(all, k + 1, |BeforeNull(all).value|, DT_FLAGS_1); }
  }

  /** The table has exactly the values listed before DT_NULL, by tag and in order; without bounds or DT_NULL there is
      none. */
  ghost predicate ReadAs(file: seq<Byte>, segments: nat, offset: Value, size: Value, width: nat, table: Option<Table>)
    requires width == 4 || width == 8
  {
    && (table.Some? <==>
          segments == 1 && StagingBounds(offset, size, width, |file|) && Listed(file, offset, size, width).Some?)
    && (table.Some? ==> Groups(table.value, Listed(file, offset, size, width).value))
  }

  /** Offset and size are these integers, and delimit a part of the file that is a whole number of pairs. */
  ghost predicate SegmentAt(offset: Value, size: Value, width: nat, file: nat, o: nat, n: nat) {
    && offset == Num(Finite(o as real)) && size == Num(Finite(n as real))
    && 0 < n <= 1024 * 1024 && n % (if width == 4 then 8 else 16) == 0
    && o + n <= file && o + n < 0x20_0000_0000_0000
  }

  lemma SafeIntIs(v: Value, n: int)
    ensures SafeInt(v) == Some(n) <==> v == Num(Finite(n as real)) && Safe(n)
  {
    if v.Num? && v.number.Finite? && v.number.value == n as real { assert v.number.value.Floor == n; }
  }

  /** The bounds checks, on numbers as they are computed, say just that. */
  lemma BoundsExactly(offset: Value, size: Value, width: nat, file: nat)
    requires width == 4 || width == 8
    ensures StagingBounds(offset, size, width, file) <==>
      exists o: nat, n: nat :: SegmentAt(offset, size, width, file, o, n)
    ensures forall o: nat, n: nat :: SegmentAt(offset, size, width, file, o, n) ==>
      && SafeInt(offset) == Some(o) && SafeInt(size) == Some(n)
      && (LifetimeBounds(offset, size, width, file) <==> o >= 16)
  {
    forall o: nat, n: nat | SegmentAt(offset, size, width, file, o, n)
      ensures SafeInt(offset) == Some(o) && SafeInt(size) == Some(n) && StagingBounds(offset, size, width, file)
    {
      SafeIntIs(offset, o);
      SafeIntIs(size, n);
      NumberIsSafe(o + n);
    }
    BoundsAreReal(offset, size, width, file);
    if StagingBounds(offset, size, width, file) {
      var o: nat, n: nat := SafeInt(offset).value, SafeInt(size).value;
      SafeIntIs(offset, o);
      SafeIntIs(size, n);
      NumberIsSafe(o + n);
      assert SegmentAt(offset, size, width, file, o, n);
    }
  }

  /** What is listed is the table that starts at the offset. */
  lemma ListedExactly(file: seq<Byte>, offset: Value, size: Value, width: nat, o: nat, n: nat, listed: seq<Entry>)
    requires (width == 4 || width == 8) && SegmentAt(offset, size, width, |file|, o, n)
    ensures StagingBounds(offset, size, width, |file|)
    ensures Listed(file, offset, size, width) == Some(listed) <==> TableAt(file, o, n, width, listed)
  {
    assert SafeInt(offset) == Some(o) && SafeInt(size) == Some(n) && StagingBounds(offset, size, width, |file|) by {
      BoundsExactly(offset, size, width, |file|);
    }
    var bytes := Bytes(file, offset, size, width);
    assert bytes == file[o..o + n];
    ListedIsTable(file, o, n, width, |bytes| / (2 * width), listed);
  }

  /** The segment is delimited by offset and size, and has this table. */
  ghost predicate Lists(file: seq<Byte>, offset: Value, size: Value, width: nat, o: nat, n: nat, listed: seq<Entry>)
    requires width == 4 || width == 8
  {
    SegmentAt(offset, size, width, |file|, o, n) && TableAt(file, o, n, width, listed)
  }

  lemma ListedBySegment(file: seq<Byte>, offset: Value, size: Value, width: nat)
    requires width == 4 || width == 8
    ensures StagingBounds(offset, size, width, |file|) && Listed(file, offset, size, width).Some? <==>
      exists o, n, listed :: Lists(file, offset, size, width, o, n, listed)
    ensures forall o, n, listed :: Lists(file, offset, size, width, o, n, listed) ==>
      && StagingBounds(offset, size, width, |file|)
      && Listed(file, offset, size, width) == Some(listed)
      && (LifetimeBounds(offset, size, width, |file|) <==> o >= 16)
  {
    BoundsExactly(offset, size, width, |file|);
    forall o, n, listed | Lists(file, offset, size, width, o, n, listed)
      ensures StagingBounds(offset, size, width, |file|) && Listed(file, offset, size, width) == Some(listed)
    {
      ListedExactly(file, offset, size, width, o, n, listed);
    }
    if StagingBounds(offset, size, width, |file|) && Listed(file, offset, size, width).Some? {
      var o: nat, n: nat :| SegmentAt(offset, size, width, |file|, o, n);
      ListedExactly(file, offset, size, width, o, n, Listed(file, offset, size, width).value);
      assert Lists(file, offset, size, width, o, n, Listed(file, offset, size, width).value);
    }
  }

  /** readDynamic, of a file with `segments` dynamic segments. */
  method ReadDynamic(file: seq<Byte>, segments: nat, offset: Value, size: Value, width: nat)
    returns (table: Option<Table>)
    requires width == 4 || width == 8
    ensures ReadAs(file, segments, offset, size, width, table)
    ensures table.Some? <==> segments == 1 && exists o, n, listed :: Lists(file, offset, size, width, o, n, listed)
    ensures table.Some? ==> forall o, n, listed ::
      Lists(file, offset, size, width, o, n, listed) ==> Groups(table.value, listed) && Collects(table.value, listed)
  {
    ListedBySegment(file, offset, size, width);
    if segments != 1 || !StagingBounds(offset, size, width, |file|) { return None; }
    var bytes := Bytes(file, offset, size, width);
    table := ReadEntries(bytes, width, Entries(bytes, width, |bytes| / (2 * width)));
    if table.Some? { GroupsCollects(table.value, Listed(file, offset, size, width).value); }
  }

  ghost predicate Lasting(file: seq<Byte>, offset: Value, size: Value, width: nat)
    requires width == 4 || width == 8
  {
    && LifetimeBounds(offset, size, width, |file|) && Identified(file, width)
    && (BoundsAreReal(offset, size, width, |file|); LastsForever(Listed(file, offset, size, width)))
  }

  /** A file of the right identification, in which the segment has a table that keeps the addon loaded. */
  ghost predicate Persists(file: seq<Byte>, offset: Value, size: Value, width: nat)
    requires width == 4 || width == 8
  {
    && |file| >= 16 && file[..6] == [0x7f, 0x45, 0x4c, 0x46, width / 4, 1]
    && exists o, n, listed :: Lists(file, offset, size, width, o, n, listed) && o >= 16 && NoDelete(listed)
  }

  lemma IdentifiedExactly(file: seq<Byte>, width: nat)
    requires width == 4 || width == 8
    ensures Identified(file, width) <==> |file| >= 16 && file[..6] == [0x7f, 0x45, 0x4c, 0x46, width / 4, 1]
  {
    var magic: seq<Byte> := [0x7f, 0x45, 0x4c, 0x46, width / 4, 1];
    if |file| >= 16 {
      assert forall i :: 0 <= i < 6 ==> file[..6][i] == file[i];
      assert Identified(file, width) ==> file[..6] == magic;
    }
  }

  lemma LastingIsPersistent(file: seq<Byte>, offset: Value, size: Value, width: nat)
    requires width == 4 || width == 8
    ensures Lasting(file, offset, size, width) <==> Persists(file, offset, size, width)
  {
    IdentifiedExactly(file, width);
    LastingSegment(file, offset, size, width);
  }

  lemma LastingSegment(file: seq<Byte>, offset: Value, size: Value, width: nat)
    requires width == 4 || width == 8
    ensures LifetimeBounds(offset, size, width, |file|) ==> StagingBounds(offset, size, width, |file|)
    ensures LifetimeBounds(offset, size, width, |file|) && LastsForever(Listed(file, offset, size, width)) <==>
      exists o, n, listed :: Lists(file, offset, size, width, o, n, listed) && o >= 16 && NoDelete(listed)
  {
    ListedBySegment(file, offset, size, width);
    BoundsAreReal(offset, size, width, |file|);
    forall o, n, listed | Lists(file, offset, size, width, o, n, listed)
      ensures LastsForever(Some(listed)) <==> NoDelete(listed)
    {
      LastsIsNoDelete(listed);
    }
  }

  /** validateAndroidLifetime. */
  method ValidateAndroidLifetime(file: seq<Byte>, segments: nat, offset: Value, size: Value, width: nat)
    returns (ok: bool)
    requires width == 4 || width == 8
    ensures ok <==> segments == 1 && Lasting(file, offset, size, width)
    ensures ok <==> segments == 1 && Persists(file, offset, size, width)
  {
    LastingIsPersistent(file, offset, size, width);
    if segments != 1 || !LifetimeBounds(offset, size, width, |file|) || !Identified(file, width) { return false; }
    BoundsAreReal(offset, size, width, |file|);
    var bytes := Bytes(file, offset, size, width);
    ok := ScanFlags(bytes, width, Entries(bytes, width, |bytes| / (2 * width)));
  }

  /** The two decoders agree: validateAndroidLifetime accepts what readDynamic reads and dynamicFlag finds DF_1_NODELETE
      in, provided the segment does not lie in the identification and that is right. */
  lemma DecodersAgree(file: seq<Byte>, segments: nat, offset: Value, size: Value, width: nat, table: Option<Table>)
    requires width == 4 || width == 8
    requires ReadAs(file, segments, offset, size, width, table)
    ensures segments == 1 && Lasting(file, offset, size, width) <==>
      (&& table.Some? && DynamicFlag(table.value, DT_FLAGS_1, DF_1_NODELETE) == Some(true)
       && SafeInt(offset).value >= 16 && Identified(file, width))
  {
    BoundsAreReal(offset, size, width, |file|);
    if table.Some? { FlagAgrees(table.value, Listed(file, offset, size, width).value); }
  }

  lemma FlagAgrees(table: Table, listed: seq<Entry>)
    requires Groups(table, listed)
    ensures LastsForever(Some(listed)) <==> DynamicFlag(table, DT_FLAGS_1, DF_1_NODELETE) == Some(true)
  {
    assert GroupsTag(table, listed, DT_FLAGS_1);
  }
}
