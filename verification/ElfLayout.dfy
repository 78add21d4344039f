/** The layout checks of scripts/android-elf.js and scripts/android-staging-elf.js, and the protection they give. */
module ElfLayout {
  import opened Common
  import opened Doubles
  import opened JsonBoundary
  import opened DynamicTable

  datatype Segment = Segment(kind: string, address: Value, memSize: Value, offset: Value, fileSize: Value,
                             alignment: Value, flags: Value)
  datatype Section = Section(name: string, address: Value, size: Value, flags: Value)
  datatype Elf = Elf(segments: seq<Segment>, sections: seq<Section>)

  const PAGE_16K: nat := 16384
  const PAGE_4K: nat := 4096

  // ---------- Numbers that were checked ----------

  /** A safe integer that is not negative. */
  function Whole(v: Value): Option<nat> {
    if SafeInt(v).Some? && SafeInt(v).value >= 0 then Some(SafeInt(v).value) else None
  }

  /** The sum of two such numbers, as computed on doubles and then checked. */
  function End(address: Value, size: Value): Option<nat> {
    if Whole(address).Some? && Whole(size).Some? then Whole(Num(ToNumber(Whole(address).value + Whole(size).value)))
    else None
  }

  predicate Valid(address: Value, size: Value) {
    End(address, size).Some? && Whole(size).value > 0
  }

  /** A sum that passed its check is the exact sum. */
  lemma EndIsExact(address: Value, size: Value)
    ensures End(address, size).Some? ==>
      Whole(address).Some? && Whole(size).Some? && End(address, size).value == Whole(address).value + Whole(size).value
    ensures End(address, size).None? && Whole(address).Some? && Whole(size).Some? ==>
      !Safe(Whole(address).value + Whole(size).value)
  {
    if Whole(address).Some? && Whole(size).Some? {
      NumberIsSafe(Whole(address).value + Whole(size).value);
    }
  }

  lemma WholeIs(v: Value, n: int)
    ensures Whole(v) == Some(n) <==> v == Num(Finite(n as real)) && 0 <= n < 0x20_0000_0000_0000
  {
    if v.Num? && v.number.Finite? && v.number.value == n as real { assert v.number.value.Floor == n; }
  }

  function Of(segments: seq<Segment>, kind: string): (r: seq<Segment>)
    ensures forall s :: s in r <==> s in segments && s.kind == kind
  {
    if segments == [] then []
    else (if segments[0].kind == kind then [segments[0]] else []) + Of(segments[1..], kind)
  }

  /** The one segment of a kind. */
  ghost predicate OneOf(segments: seq<Segment>, kind: string, s: Segment) {
    exists i :: 0 <= i < |segments| && segments[i] == s && OnlyKind(segments, i, kind)
  }

  ghost predicate OnlyKind(segments: seq<Segment>, i: nat, kind: string)
    requires i < |segments|
  {
    segments[i].kind == kind && forall j :: 0 <= j < |segments| && j != i ==> segments[j].kind != kind
  }

  lemma NoneOf(segments: seq<Segment>, kind: string)
    ensures Of(segments, kind) == [] <==> forall j :: 0 <= j < |segments| ==> segments[j].kind != kind
  {
    if Of(segments, kind) != [] { assert Of(segments, kind)[0] in segments; }
    forall j | 0 <= j < |segments| && segments[j].kind == kind ensures Of(segments, kind) != [] {
      assert segments[j] in Of(segments, kind);
    }
  }

  lemma OnlyFirst(segments: seq<Segment>, kind: string)
    requires segments != [] && segments[0].kind == kind
    ensures Of(segments[1..], kind) == [] <==> OnlyKind(segments, 0, kind)
  {
    NoneOf(segments[1..], kind);
    assert forall j :: 0 < j < |segments| ==> segments[j] == segments[1..][j - 1];
  }

  lemma OnlyLater(segments: seq<Segment>, kind: string, i: nat)
    requires i + 1 < |segments|
    ensures OnlyKind(segments, i + 1, kind) <==> segments[0].kind != kind && OnlyKind(segments[1..], i, kind)
  {
    assert forall j :: 0 < j < |segments| ==> segments[j] == segments[1..][j - 1];
  }

  /** What is kept of a kind is one segment exactly when there is just that one. */
  lemma {:induction false} OneOfExactly(segments: seq<Segment>, kind: string, s: Segment)
    ensures Of(segments, kind) == [s] <==> OneOf(segments, kind, s)
    decreases |segments|, 1
  {
    if segments != [] {
      var rest := segments[1..];
      forall i: nat | i < |rest| ensures OnlyKind(segments, i + 1, kind) <==>
        segments[0].kind != kind && OnlyKind(rest, i, kind)
      {
        OnlyLater(segments, kind, i);
      }
      if segments[0].kind == kind { OnlyFirst(segments, kind); } else { OneLater(segments, kind, s); }
    }
  }

  lemma OneLater(segments: seq<Segment>, kind: string, s: Segment)
    requires segments != [] && segments[0].kind != kind
    ensures Of(segments, kind) == [s] <==> OneOf(segments, kind, s)
    decreases |segments|, 0
  {
    var rest := segments[1..];
    OneOfExactly(rest, kind, s);
    if i :| 0 <= i < |rest| && rest[i] == s && OnlyKind(rest, i, kind) { OnlyLater(segments, kind, i); }
    if i :| 0 <= i < |segments| && segments[i] == s && OnlyKind(segments, i, kind) {
      OnlyLater(segments, kind, i - 1);
    }
  }

  // ---------- validateAndroidProtection ----------

  /** The names of the sections that have to be read-only after relocation. */
  predicate Protected(name: string) {
    || name in [".dynamic", ".got", ".got.plt", ".data.rel.ro", ".init_array", ".fini_array", ".relro_padding"]
    || (".data.rel.ro." <= name && forall i :: 0 <= i < |name| ==> !LineTerminator(name[i]))
  }

  predicate LineTerminator(c: char) {
    c == '\n' || c == '\r' || c == '\U{2028}' || c == '\U{2029}'
  }

  ghost predicate OneLine(s: string) {
    '\n' !in s && '\r' !in s && '\U{2028}' !in s && '\U{2029}' !in s
  }

  /** The names of the expression: one of these, or the fourth with a dot and anything on the same line. */
  lemma ProtectedExactly(name: string)
    ensures Protected(name) <==>
      (|| name == ".dynamic" || name == ".got" || name == ".got.plt" || name == ".data.rel.ro"
       || name == ".init_array" || name == ".fini_array" || name == ".relro_padding"
       || exists rest :: name == ".data.rel.ro." + rest && OneLine(rest))
  {
    var dotted := ".data.rel.ro.";
    if dotted <= name && forall i :: 0 <= i < |name| ==> !LineTerminator(name[i]) {
      assert name == dotted + name[|dotted|..];
    }
    if rest :| name == dotted + rest && OneLine(rest) {
      forall i | 0 <= i < |name| ensures !LineTerminator(name[i]) {
        if i >= |dotted| { assert name[i] == rest[i - |dotted|]; }
      }
    }
  }

  predicate Contains(r: Segment, address: Value, size: Value) {
    && Valid(r.address, r.memSize) && Valid(address, size)
    && Whole(address).value >= Whole(r.address).value && End(address, size).value <= End(r.address, r.memSize).value
  }

  predicate Allocated(s: Section) {
    Whole(s.flags).Some? && Bit(Whole(s.flags).value, 2)
  }

  predicate Writable(s: Section) {
    Whole(s.flags).Some? && Bit(Whole(s.flags).value, 1)
  }

  lemma FlagsExactly(s: Section, flags: nat)
    requires s.flags == Num(Finite(flags as real)) && flags < 0x20_0000_0000_0000
    ensures Writable(s) <==> flags % 2 == 1
    ensures Allocated(s) <==> flags % 4 >= 2
  {
    WholeIs(s.flags, flags);
  }

  /** The first address of the page of an address. */
  function PageStart(address: nat, page: nat): nat
    requires page > 0
  {
    address / page * page
  }

  /** What the loop demands of a section. */
  predicate Allowed(r: Segment, s: Section, page: nat)
    requires Valid(r.address, r.memSize) && page > 0
  {
    && End(s.address, s.size).Some? && Whole(s.flags).Some?
    && (Whole(s.size).value > 0 && Allocated(s) ==>
          && (Protected(s.name) ==> Contains(r, s.address, s.size))
          && (!Protected(s.name) && Writable(s) ==>
                || Whole(s.address).value >= End(r.address, r.memSize).value
                || End(s.address, s.size).value <= PageStart(Whole(r.address).value, page)))
  }

  predicate InsideLoad(r: Segment, load: Segment)
    requires Valid(r.address, r.memSize)
  {
    && Valid(load.address, load.memSize)
    && Whole(r.address).value >= Whole(load.address).value
    && End(r.address, r.memSize).value <= End(load.address, load.memSize).value
  }

  predicate ValidateAndroidProtection(elf: Elf, page: nat) {
    var relros, dynamics := Of(elf.segments, "PT_GNU_RELRO"), Of(elf.segments, "PT_DYNAMIC");
    var loads := Of(elf.segments, "PT_LOAD");
    && (page == PAGE_4K || page == PAGE_16K)
    && |relros| == 1 && |dynamics| == 1
    && var r := relros[0];
    && Valid(r.address, r.memSize)
    && (exists load | load in loads :: InsideLoad(r, load))
    && Contains(r, dynamics[0].address, dynamics[0].memSize)
    && (exists s | s in elf.sections :: s.name == ".dynamic")
    && (exists s | s in elf.sections :: s.name == ".got")
    && (forall s | s in elf.sections :: Allowed(r, s, page))
  }

  // ---------- validateAndroidElf and validateLayout ----------

  predicate LoadAligned(load: Segment, page: nat)
    requires page > 0
  {
    && Whole(load.alignment).Some? && Whole(load.alignment).value >= page
    && Whole(load.address).Some? && Whole(load.offset).Some?
    && (Whole(load.address).value - Whole(load.offset).value) % page == 0
  }

  predicate EndAligned(r: Segment, page: nat)
    requires page > 0
  {
    End(r.address, r.memSize).Some? && End(r.address, r.memSize).value % page == 0
  }

  /** validateAndroidElf, on a file of the right identity; the script has it with pages of 16384 bytes. */
  predicate ValidateAndroidElf(elf: Elf, page: nat)
    requires page > 0
  {
    var loads, relros := Of(elf.segments, "PT_LOAD"), Of(elf.segments, "PT_GNU_RELRO");
    && loads != [] && relros != []
    && (forall load | load in loads :: LoadAligned(load, page))
    && (forall r | r in relros :: EndAligned(r, page))
  }

  predicate WellFormed(s: Segment) {
    && End(s.address, s.memSize).Some? && Whole(s.offset).Some? && Whole(s.fileSize).Some?
    && Whole(s.alignment).Some? && Whole(s.flags).Some?
  }

  predicate LoadChecked(load: Segment, page: nat)
    requires page > 0
  {
    && LoadAligned(load, page) && Whole(load.alignment).value % page == 0
    && Whole(load.flags).Some? && !(Bit(Whole(load.flags).value, 1) && Bit(Whole(load.flags).value, 2))
  }

  const DT_RPATH: nat := 15
  const DT_TEXTREL: nat := 22
  const DT_BIND_NOW: nat := 24
  const DT_RUNPATH: nat := 29
  const DT_FLAGS: nat := 30

  /** The checks on the dynamic table; a duplicate flags entry is an exception, if it is looked at. */
  predicate DynamicChecked(table: Table) {
    var flags, flags1 := DynamicFlag(table, DT_FLAGS, 8), DynamicFlag(table, DT_FLAGS_1, 1);
    && flags.Some?
    && (flags.value || (flags1.Some? && (flags1.value || DT_BIND_NOW in table)))
    && DT_TEXTREL !in table && DynamicFlag(table, DT_FLAGS, 4) == Some(false)
    && DT_RPATH !in table && DT_RUNPATH !in table
  }

  /** The checks of validateLayout on headers and sections. */
  predicate HeadersChecked(elf: Elf, page: nat)
    requires page > 0
  {
    && StackChecked(Of(elf.segments, "PT_GNU_STACK"))
    && (forall s | s in elf.segments :: WellFormed(s))
    && LoadsChecked(Of(elf.segments, "PT_LOAD"), page)
    && RelroChecked(Of(elf.segments, "PT_GNU_RELRO"), page)
    && ValidateAndroidProtection(elf, page)
  }

  predicate StackChecked(stacks: seq<Segment>) {
    |stacks| == 1 && Whole(stacks[0].flags).Some? && !Bit(Whole(stacks[0].flags).value, 1)
  }

  predicate LoadsChecked(loads: seq<Segment>, page: nat)
    requires page > 0
  {
    loads != [] && forall load | load in loads :: LoadChecked(load, page)
  }

  predicate RelroChecked(relros: seq<Segment>, page: nat)
    requires page > 0
  {
    && |relros| == 1
    && Whole(relros[0].memSize).Some? && Whole(relros[0].memSize).value > 0 && EndAligned(relros[0], page)
  }

  /** What the headers have to say besides: every number is a whole one, no LOAD is writable and executable, every LOAD
      and the end of the one RELRO segment are aligned, and the one GNU_STACK is not executable. */
  ghost predicate Sound(elf: Elf, page: nat)
    requires page > 0
  {
    && (exists s :: OneOf(elf.segments, "PT_GNU_STACK", s) && Whole(s.flags).Some? && Whole(s.flags).value % 2 == 0)
    && (forall s | s in elf.segments :: Described(s))
    && SoundLoads(elf, page)
    && (exists s :: OneOf(elf.segments, "PT_GNU_RELRO", s) && EndsWithPage(s, page))
  }

  ghost predicate Described(s: Segment) {
    && Whole(s.address).Some? && Whole(s.memSize).Some? && Whole(s.offset).Some? && Whole(s.fileSize).Some?
    && Whole(s.alignment).Some? && Whole(s.flags).Some?
    && Whole(s.address).value + Whole(s.memSize).value < 0x20_0000_0000_0000
  }

  ghost predicate SoundLoads(elf: Elf, page: nat)
    requires page > 0
  {
    && (exists s | s in elf.segments :: s.kind == "PT_LOAD")
    && (forall s | s in elf.segments && s.kind == "PT_LOAD" :: SoundLoad(s, page))
  }

  ghost predicate SoundLoad(s: Segment, page: nat)
    requires page > 0
  {
    && Whole(s.alignment).Some? && Whole(s.alignment).value >= page && Whole(s.alignment).value % page == 0
    && Whole(s.address).Some? && Whole(s.offset).Some?
    && (Whole(s.address).value - Whole(s.offset).value) % page == 0
    && Whole(s.flags).Some? && !(Whole(s.flags).value % 2 == 1 && Whole(s.flags).value / 2 % 2 == 1)
  }

  ghost predicate EndsWithPage(s: Segment, page: nat)
    requires page > 0
  {
    && Described(s) && Whole(s.memSize).value > 0
    && (Whole(s.address).value + Whole(s.memSize).value) % page == 0
  }

  lemma DescribedExactly(s: Segment)
    ensures WellFormed(s) <==> Described(s)
    ensures Described(s) ==> End(s.address, s.memSize) == Some(Whole(s.address).value + Whole(s.memSize).value)
  {
    EndIsExact(s.address, s.memSize);
    if Whole(s.address).Some? && Whole(s.memSize).Some? {
      NumberIsSafe(Whole(s.address).value + Whole(s.memSize).value);
    }
  }

  lemma OneOfKind(segments: seq<Segment>, kind: string)
    ensures forall s :: Of(segments, kind) == [s] <==> OneOf(segments, kind, s)
  {
    forall s ensures Of(segments, kind) == [s] <==> OneOf(segments, kind, s) { OneOfExactly(segments, kind, s); }
  }

  lemma StackExactly(elf: Elf)
    ensures StackChecked(Of(elf.segments, "PT_GNU_STACK")) <==>
      exists s :: OneOf(elf.segments, "PT_GNU_STACK", s) && Whole(s.flags).Some? && Whole(s.flags).value % 2 == 0
  {
    var stacks := Of(elf.segments, "PT_GNU_STACK");
    OneOfKind(elf.segments, "PT_GNU_STACK");
    if |stacks| == 1 { assert stacks == [stacks[0]]; }
  }

  lemma RelroExactly(elf: Elf, page: nat)
    requires page > 0 && (forall s | s in elf.segments :: Described(s))
    ensures RelroChecked(Of(elf.segments, "PT_GNU_RELRO"), page) <==>
      exists s :: OneOf(elf.segments, "PT_GNU_RELRO", s) && EndsWithPage(s, page)
  {
    var relros := Of(elf.segments, "PT_GNU_RELRO");
    OneOfKind(elf.segments, "PT_GNU_RELRO");
    if |relros| == 1 {
      assert relros == [relros[0]];
      assert relros[0] in elf.segments;
      DescribedExactly(relros[0]);
    }
  }

  lemma LoadsSound(elf: Elf, page: nat)
    requires page > 0
    ensures LoadsChecked(Of(elf.segments, "PT_LOAD"), page) <==> SoundLoads(elf, page)
  {
    var loads := Of(elf.segments, "PT_LOAD");
    forall s ensures LoadChecked(s, page) <==> SoundLoad(s, page) { LoadIsSound(s, page); }
    if loads != [] { assert loads[0] in loads; }
  }

  lemma LoadIsSound(s: Segment, page: nat)
    requires page > 0
    ensures LoadChecked(s, page) <==> SoundLoad(s, page)
  {
  }

  /** validateLayout's checks of the headers are that and validateAndroidProtection. */
  lemma HeadersExactly(elf: Elf, page: nat)
    requires page > 0
    ensures HeadersChecked(elf, page) <==> Sound(elf, page) && ValidateAndroidProtection(elf, page)
  {
    forall s ensures WellFormed(s) <==> Described(s) { DescribedExactly(s); }
    StackExactly(elf);
    LoadsSound(elf, page);
    if forall s | s in elf.segments :: Described(s) { RelroExactly(elf, page); }
  }

  /** validateLayout, on a file of the right identity; `lasting` is the verdict of validateAndroidLifetime. */
  predicate ValidateLayout(elf: Elf, page: nat, table: Table, lasting: bool)
    requires page > 0
  {
    HeadersChecked(elf, page) && lasting && DynamicChecked(table)
  }

  /** An entry that makes the loader bind everything at once. */
  ghost predicate BindsNow(e: Entry) {
    (e.tag == 30 && e.value / 8 % 2 == 1) || (e.tag == 0x6fff_fffb && e.value % 2 == 1) || e.tag == 24
  }

  ghost predicate Forbidden(e: Entry) {
    e.tag == 22 || (e.tag == 30 && e.value / 4 % 2 == 1) || e.tag == 15 || e.tag == 29
  }

  lemma {:induction false} ValuesFrom(listed: seq<Entry>, tag: nat, v: nat)
    ensures v in Values(listed, tag) <==> Entry(tag, v) in listed
  {
    if listed != [] {
      var n := |listed| - 1;
      ValuesFrom(listed[..n], tag, v);
      assert listed == listed[..n] + [listed[n]];
    }
  }

  lemma TagFrom(listed: seq<Entry>, tag: nat)
    ensures Values(listed, tag) == [] <==> forall e :: e in listed ==> e.tag != tag
  {
    forall e | e in listed && e.tag == tag ensures Values(listed, tag) != [] {
      ValuesFrom(listed, tag, e.value);
    }
    if Values(listed, tag) != [] { ValuesFrom(listed, tag, Values(listed, tag)[0]); }
  }

  /** For one entry of a tag at most, the flag is set exactly when an entry sets it. */
  lemma FlagFrom(table: Table, listed: seq<Entry>, tag: nat, mask: nat)
    requires mask > 0 && Groups(table, listed)
    ensures DynamicFlag(table, tag, mask).Some? <==> |Values(listed, tag)| <= 1
    ensures DynamicFlag(table, tag, mask).Some? ==>
      (DynamicFlag(table, tag, mask).value <==> exists e :: e in listed && e.tag == tag && Bit(e.value, mask))
  {
    assert GroupsTag(table, listed, tag);
    var values := Values(listed, tag);
    if |values| == 1 {
      forall e | e in listed && e.tag == tag ensures e.value == values[0] { ValuesFrom(listed, tag, e.value); }
      ValuesFrom(listed, tag, values[0]);
      assert Entry(tag, values[0]) in listed;
    } else if |values| == 0 {
      TagFrom(listed, tag);
    }
  }

  /** With a single DT_FLAGS_1, which the lifetime check sees to, the checks on the grouped table hold exactly when some
      entry asks for immediate binding, none is forbidden, and DT_FLAGS is not repeated. */
  lemma DynamicCheckedExactly(table: Table, listed: seq<Entry>)
    requires Groups(table, listed) && |Values(listed, DT_FLAGS_1)| == 1
    ensures DynamicChecked(table) <==>
      (&& (exists e :: e in listed && BindsNow(e))
       && (forall e :: e in listed ==> !Forbidden(e))
       && |Values(listed, DT_FLAGS)| <= 1)
  {
    FlagFrom(table, listed, DT_FLAGS, 8);
    FlagFrom(table, listed, DT_FLAGS, 4);
    FlagFrom(table, listed, DT_FLAGS_1, 1);
    PresentFrom(table, listed, DT_BIND_NOW);
    PresentFrom(table, listed, DT_TEXTREL);
    PresentFrom(table, listed, DT_RPATH);
    PresentFrom(table, listed, DT_RUNPATH);
  }

  lemma PresentFrom(table: Table, listed: seq<Entry>, tag: nat)
    requires Groups(table, listed)
    ensures tag in table <==> exists e :: e in listed && e.tag == tag
  {
    assert GroupsTag(table, listed, tag);
    TagFrom(listed, tag);
  }

  // ---------- One file ----------

  /** What an accepted addon's dynamic table asks of the loader: to stay loaded, to bind at once, and no text
      relocations or search paths. */
  ghost predicate Disciplined(listed: seq<Entry>) {
    && LastsForever(Some(listed))
    && (exists e :: e in listed && BindsNow(e))
    && (forall e :: e in listed ==> !Forbidden(e))
    && |Values(listed, DT_FLAGS)| <= 1
  }

  /** The headers pass, and the one dynamic segment they describe lists, in the file, a disciplined table. */
  ghost predicate ValidAddon(elf: Elf, page: nat, file: seq<Byte>, width: nat)
    requires page > 0 && (width == 4 || width == 8)
  {
    && HeadersChecked(elf, page)
    && Identified(file, width)
    && (exists d :: Of(elf.segments, "PT_DYNAMIC") == [d] && ValidDynamic(d, file, width))
  }

  ghost predicate ValidDynamic(d: Segment, file: seq<Byte>, width: nat)
    requires width == 4 || width == 8
  {
    && LifetimeBounds(d.offset, d.fileSize, width, |file|)
    && (BoundsAreReal(d.offset, d.fileSize, width, |file|);
        var listed := Listed(file, d.offset, d.fileSize, width);
        listed.Some? && Disciplined(listed.value))
  }

  /** The same of a table that is read off the bytes. */
  ghost predicate Keeps(listed: seq<Entry>) {
    && NoDelete(listed)
    && (exists e :: e in listed && BindsNow(e))
    && (forall e :: e in listed ==> !Forbidden(e))
    && (forall i, j :: 0 <= i < j < |listed| && listed[i].tag == 30 ==> listed[j].tag != 30)
  }

  /** The headers are in order, and from the offset of the one dynamic segment on, the file has such a table. */
  ghost predicate AcceptedAddon(elf: Elf, page: nat, file: seq<Byte>, width: nat)
    requires page > 0 && (width == 4 || width == 8)
  {
    && (page == 4096 || page == 16384)
    && Sound(elf, page) && (exists r, d :: ProtectedImage(elf, r, d, page))
    && |file| >= 16 && file[..6] == [0x7f, 0x45, 0x4c, 0x46, width / 4, 1]
    && exists d, o, n, listed ::
      && OneOf(elf.segments, "PT_DYNAMIC", d) && Lists(file, d.offset, d.fileSize, width, o, n, listed)
      && o >= 16 && Keeps(listed)
  }

  lemma {:induction false} FewValues(listed: seq<Entry>, tag: nat)
    ensures |Values(listed, tag)| <= 1 <==>
      forall i, j :: 0 <= i < j < |listed| && listed[i].tag == tag ==> listed[j].tag != tag
  {
    if listed != [] {
      var n := |listed| - 1;
      var before := listed[..n];
      FewValues(before, tag);
      NoValues(before, tag);
      assert forall i :: 0 <= i < n ==> listed[i] == before[i];
    }
  }

  lemma KeepsExactly(listed: seq<Entry>)
    ensures Disciplined(listed) <==> Keeps(listed)
  {
    LastsIsNoDelete(listed);
    FewValues(listed, 30);
  }

  lemma HeadersProtect(elf: Elf, page: nat)
    requires page > 0
    ensures HeadersChecked(elf, page) <==>
      (page == 4096 || page == 16384) && Sound(elf, page) && exists r, d :: ProtectedImage(elf, r, d, page)
  {
    HeadersExactly(elf, page);
    if Sound(elf, page) {
      RelroExactly(elf, page);
      var relros, dynamics := Of(elf.segments, "PT_GNU_RELRO"), Of(elf.segments, "PT_DYNAMIC");
      assert relros == [relros[0]];
      if |dynamics| == 1 {
        assert dynamics == [dynamics[0]];
        if page == 4096 || page == 16384 { ProtectionExactly(elf, relros[0], dynamics[0], page); }
      }
    }
  }

  lemma ValidIsAccepted(elf: Elf, page: nat, file: seq<Byte>, width: nat)
    requires page > 0 && (width == 4 || width == 8)
    ensures ValidAddon(elf, page, file, width) <==> AcceptedAddon(elf, page, file, width)
  {
    HeadersProtect(elf, page);
    IdentifiedExactly(file, width);
    OneOfKind(elf.segments, "PT_DYNAMIC");
    forall d ensures ValidDynamic(d, file, width) <==>
      exists o, n, listed :: Lists(file, d.offset, d.fileSize, width, o, n, listed) && o >= 16 && Keeps(listed)
    {
      DynamicIsTable(d, file, width);
    }
  }

  lemma DynamicIsTable(d: Segment, file: seq<Byte>, width: nat)
    requires width == 4 || width == 8
    ensures ValidDynamic(d, file, width) <==>
      exists o, n, listed :: Lists(file, d.offset, d.fileSize, width, o, n, listed) && o >= 16 && Keeps(listed)
  {
    ListedBySegment(file, d.offset, d.fileSize, width);
    BoundsAreReal(d.offset, d.fileSize, width, |file|);
    if ValidDynamic(d, file, width) {
      var o, n, listed :| Lists(file, d.offset, d.fileSize, width, o, n, listed);
      KeepsExactly(listed);
    }
    if o, n, listed :| Lists(file, d.offset, d.fileSize, width, o, n, listed) && o >= 16 && Keeps(listed) {
      KeepsExactly(listed);
    }
  }

  /** readDynamic, as readElf calls it, and validateLayout on the same file: together they accept exactly that. */
  method CheckAddon(elf: Elf, page: nat, file: seq<Byte>, width: nat) returns (ok: bool)
    requires page > 0 && (width == 4 || width == 8)
    ensures ok <==> ValidAddon(elf, page, file, width)
    ensures ok <==> AcceptedAddon(elf, page, file, width)
  {
    ValidIsAccepted(elf, page, file, width);
    var dynamics := Of(elf.segments, "PT_DYNAMIC");
    if |dynamics| != 1 { return false; }
    var d := dynamics[0];
    var table := ReadDynamic(file, |dynamics|, d.offset, d.fileSize, width);
    var lasting := ValidateAndroidLifetime(file, |dynamics|, d.offset, d.fileSize, width);
    BoundsAreReal(d.offset, d.fileSize, width, |file|);
    if table.None? { return false; }
    ok := ValidateLayout(elf, page, table.value, lasting);
    if lasting { DisciplinedExactly(table.value, Listed(file, d.offset, d.fileSize, width).value); }
    assert dynamics == [d];
  }

  lemma DisciplinedExactly(table: Table, listed: seq<Entry>)
    requires Groups(table, listed) && LastsForever(Some(listed))
    ensures DynamicChecked(table) <==> Disciplined(listed)
  {
    DynamicCheckedExactly(table, listed);
  }

  // ---------- What that protects ----------

  /** An address is one of those of a part of the image: exact arithmetic on what the numbers stand for. */
  ghost predicate Covers(address: Value, size: Value, b: nat) {
    && Whole(address).Some? && Whole(size).Some?
    && Whole(address).value <= b < Whole(address).value + Whole(size).value
  }

  /** An address is on a page on which RELRO has a byte: those pages are made read-only. */
  ghost predicate OnRelroPage(r: Segment, page: nat, b: nat)
    requires page > 0
  {
    exists x: nat :: Covers(r.address, r.memSize, x) && SamePage(x, b, page)
  }

  ghost predicate SamePage(x: nat, b: nat, page: nat)
    requires page > 0
  {
    x / page == b / page
  }

  lemma ContainedIsCovered(r: Segment, address: Value, size: Value, page: nat, b: nat)
    requires page > 0 && Contains(r, address, size) && Covers(address, size, b)
    ensures OnRelroPage(r, page, b)
  {
    EndIsExact(r.address, r.memSize);
    EndIsExact(address, size);
    assert Covers(r.address, r.memSize, b) && SamePage(b, b, page);
  }

  lemma PagesFrom(x: nat, b: nat, start: nat, page: nat)
    requires page > 0 && start <= x && x / page == b / page
    ensures PageStart(start, page) <= b
  {
    if b / page < start / page { Times(x / page + 1, start / page, page); }
    Times(start / page, b / page, page);
  }

  lemma PagesUpTo(x: nat, b: nat, end: nat, page: nat)
    requires page > 0 && x < end && end % page == 0 && x / page == b / page
    ensures b < end
  {
    if end / page <= x / page { Times(end / page, x / page, page); }
    Times(b / page + 1, end / page, page);
  }

  lemma MutableStaysOut(r: Segment, s: Section, page: nat, b: nat)
    requires page > 0 && Valid(r.address, r.memSize) && EndAligned(r, page) && Allowed(r, s, page)
    requires Allocated(s) && Writable(s) && !Protected(s.name) && Covers(s.address, s.size, b)
    ensures !OnRelroPage(r, page, b)
  {
    EndIsExact(r.address, r.memSize);
    EndIsExact(s.address, s.size);
    if OnRelroPage(r, page, b) {
      var x: nat :| Covers(r.address, r.memSize, x) && SamePage(x, b, page);
      PagesFrom(x, b, Whole(r.address).value, page);
      PagesUpTo(x, b, End(r.address, r.memSize).value, page);
      assert false;
    }
  }

  ghost predicate SectionProtected(s: Section, r: Segment, page: nat, b: nat)
    requires page > 0
  {
    && (Protected(s.name) ==> OnRelroPage(r, page, b))
    && (!Protected(s.name) && Writable(s) ==> !OnRelroPage(r, page, b))
  }

  ghost predicate PagesProtect(elf: Elf, r: Segment, page: nat)
    requires page > 0
  {
    && (forall d, b | d in elf.segments && d.kind == "PT_DYNAMIC" && Covers(d.address, d.memSize, b) ::
          OnRelroPage(r, page, b))
    && (forall s, b | s in elf.sections && Allocated(s) && Covers(s.address, s.size, b) ::
          SectionProtected(s, r, page, b))
  }

  lemma DynamicIsProtected(elf: Elf, r: Segment, page: nat)
    requires page > 0
    requires var dynamics := Of(elf.segments, "PT_DYNAMIC");
      |dynamics| == 1 && Contains(r, dynamics[0].address, dynamics[0].memSize)
    ensures forall d, b | d in elf.segments && d.kind == "PT_DYNAMIC" && Covers(d.address, d.memSize, b) ::
      OnRelroPage(r, page, b)
  {
    forall d, b | d in elf.segments && d.kind == "PT_DYNAMIC" && Covers(d.address, d.memSize, b)
      ensures OnRelroPage(r, page, b)
    {
      assert d in Of(elf.segments, "PT_DYNAMIC");
      ContainedIsCovered(r, d.address, d.memSize, page, b);
    }
  }

  lemma AllowedIsProtected(r: Segment, s: Section, page: nat, b: nat)
    requires page > 0 && Valid(r.address, r.memSize) && EndAligned(r, page) && Allowed(r, s, page)
    requires Allocated(s) && Covers(s.address, s.size, b)
    ensures SectionProtected(s, r, page, b)
  {
    if Protected(s.name) {
      ContainedIsCovered(r, s.address, s.size, page, b);
    } else if Writable(s) {
      MutableStaysOut(r, s, page, b);
    }
  }

  lemma PagesAreProtected(elf: Elf, r: Segment, page: nat)
    requires page > 0 && ValidateAndroidProtection(elf, page) && Of(elf.segments, "PT_GNU_RELRO") == [r]
    requires EndAligned(r, page)
    ensures PagesProtect(elf, r, page)
  {
    DynamicIsProtected(elf, r, page);
    forall s, b | s in elf.sections && Allocated(s) && Covers(s.address, s.size, b)
      ensures SectionProtected(s, r, page, b)
    {
      AllowedIsProtected(r, s, page, b);
    }
  }

  /** An accepted layout, whatever its dynamic table, has one RELRO segment, and the pages it lies on hold every byte
      of DYNAMIC and of every allocated section that has to be protected, and no byte of any other allocated section
      that is writable. */
  lemma LayoutProtects(elf: Elf, page: nat)
    requires page > 0 && HeadersChecked(elf, page)
    ensures exists r :: Of(elf.segments, "PT_GNU_RELRO") == [r] && PagesProtect(elf, r, page)
  {
    var r := Of(elf.segments, "PT_GNU_RELRO")[0];
    PagesAreProtected(elf, r, page);
  }

  /** The bytes of a section are where they have to be. */
  ghost predicate InPlace(r: Segment, s: Section, page: nat)
    requires page > 0
  {
    forall b | Covers(s.address, s.size, b) ::
      && (Protected(s.name) ==> Covers(r.address, r.memSize, b))
      && (!Protected(s.name) && Writable(s) ==> !OnRelroPage(r, page, b))
  }

  lemma EndsContained(r: Segment, s: Section, page: nat)
    requires page > 0 && Valid(r.address, r.memSize) && Valid(s.address, s.size)
    requires Protected(s.name) && InPlace(r, s, page)
    ensures Contains(r, s.address, s.size)
  {
    EndIsExact(r.address, r.memSize);
    EndIsExact(s.address, s.size);
    assert Covers(s.address, s.size, Whole(s.address).value);
    assert Covers(s.address, s.size, End(s.address, s.size).value - 1);
  }

  lemma StartsPage(b: nat, at: nat, page: nat)
    requires page > 0 && PageStart(at, page) <= b <= at
    ensures b / page == at / page
  {
    if b / page < at / page { Times(b / page + 1, at / page, page); }
    if at / page < b / page { Times(at / page + 1, b / page, page); }
  }

  lemma PageStartBelow(at: nat, page: nat)
    requires page > 0
    ensures 0 <= PageStart(at, page) <= at
  {
  }

  /** A range that reaches onto the first page of another one, or further, and starts before its end shares a page. */
  lemma Overlap(from: nat, to: nat, first: nat, last: nat, page: nat) returns (b: nat, x: nat)
    requires page > 0 && from < to && first < last && first < to && PageStart(from, page) < last
    ensures first <= b < last && from <= x < to && SamePage(x, b, page)
  {
    var start := PageStart(from, page);
    PageStartBelow(from, page);
    b := if first < start then start else first;
    x := if b < from then from else b;
    if b < from { StartsPage(b, from, page); }
  }

  lemma EndsApart(r: Segment, s: Section, page: nat)
    requires page > 0 && Valid(r.address, r.memSize) && Valid(s.address, s.size)
    requires !Protected(s.name) && Writable(s) && InPlace(r, s, page)
    ensures Whole(s.address).value >= End(r.address, r.memSize).value ||
      End(s.address, s.size).value <= PageStart(Whole(r.address).value, page)
  {
    EndIsExact(r.address, r.memSize);
    EndIsExact(s.address, s.size);
    var from, to := Whole(r.address).value, End(r.address, r.memSize).value;
    var first, last := Whole(s.address).value, End(s.address, s.size).value;
    if first < to && PageStart(from, page) < last {
      var b, x := Overlap(from, to, first, last, page);
      assert Covers(s.address, s.size, b);
      assert Covers(r.address, r.memSize, x);
    }
  }

  /** The comparisons of the loop over the sections are exactly the statement about their bytes. */
  lemma AllowedExactly(r: Segment, s: Section, page: nat)
    requires page > 0 && Valid(r.address, r.memSize) && EndAligned(r, page)
    ensures Allowed(r, s, page) <==>
      (End(s.address, s.size).Some? && Whole(s.flags).Some? && (Allocated(s) ==> InPlace(r, s, page)))
  {
    EndIsExact(r.address, r.memSize);
    EndIsExact(s.address, s.size);
    if Allowed(r, s, page) && Allocated(s) {
      forall b | Covers(s.address, s.size, b) && !Protected(s.name) && Writable(s) ensures !OnRelroPage(r, page, b) {
        MutableStaysOut(r, s, page, b);
      }
    }
    if Valid(s.address, s.size) && Allocated(s) && InPlace(r, s, page) {
      if Protected(s.name) { EndsContained(r, s, page); } else if Writable(s) { EndsApart(r, s, page); }
    }
  }

  // ---------- The check, said about bytes ----------

  /** A part of the image that is not empty and whose end is a safe integer. */
  ghost predicate Solid(address: Value, size: Value) {
    Whole(address).Some? && Whole(size).Some? && Whole(size).value > 0 && Safe(Whole(address).value + Whole(size).value)
  }

  ghost predicate Within(inner: Segment, outer: Segment) {
    forall b | Covers(inner.address, inner.memSize, b) :: Covers(outer.address, outer.memSize, b)
  }

  lemma ValidIsSolid(address: Value, size: Value)
    ensures Valid(address, size) <==> Solid(address, size)
  {
    EndIsExact(address, size);
    if Whole(address).Some? && Whole(size).Some? { NumberIsSafe(Whole(address).value + Whole(size).value); }
  }

  lemma ContainsExactly(r: Segment, d: Segment)
    requires Valid(r.address, r.memSize)
    ensures Contains(r, d.address, d.memSize) <==> Solid(d.address, d.memSize) && Within(d, r)
  {
    ValidIsSolid(d.address, d.memSize);
    EndIsExact(r.address, r.memSize);
    EndIsExact(d.address, d.memSize);
    if Valid(d.address, d.memSize) && Within(d, r) {
      assert Covers(d.address, d.memSize, Whole(d.address).value);
      assert Covers(d.address, d.memSize, End(d.address, d.memSize).value - 1);
    }
  }

  lemma InsideExactly(r: Segment, load: Segment)
    requires Valid(r.address, r.memSize)
    ensures InsideLoad(r, load) <==> Solid(load.address, load.memSize) && Within(r, load)
  {
    ValidIsSolid(load.address, load.memSize);
    EndIsExact(r.address, r.memSize);
    EndIsExact(load.address, load.memSize);
    if Valid(load.address, load.memSize) && Within(r, load) {
      assert Covers(r.address, r.memSize, Whole(r.address).value);
      assert Covers(r.address, r.memSize, End(r.address, r.memSize).value - 1);
    }
  }

  ghost predicate Sized(s: Section) {
    && Whole(s.address).Some? && Whole(s.size).Some? && Whole(s.flags).Some?
    && Safe(Whole(s.address).value + Whole(s.size).value)
  }

  /** An image whose RELRO pages protect what they should: one RELRO segment, inside one LOAD; one DYNAMIC segment,
      inside RELRO; and every allocated section in place. */
  ghost predicate ProtectedImage(elf: Elf, r: Segment, d: Segment, page: nat)
    requires page > 0
  {
    && Of(elf.segments, "PT_GNU_RELRO") == [r] && Of(elf.segments, "PT_DYNAMIC") == [d]
    && Solid(r.address, r.memSize)
    && (exists load | load in elf.segments ::
          load.kind == "PT_LOAD" && Solid(load.address, load.memSize) && Within(r, load))
    && Solid(d.address, d.memSize) && Within(d, r)
    && (exists s | s in elf.sections :: s.name == ".dynamic")
    && (exists s | s in elf.sections :: s.name == ".got")
    && (forall s | s in elf.sections :: Sized(s) && (Allocated(s) ==> InPlace(r, s, page)))
  }

  lemma SizedExactly(s: Section)
    ensures Sized(s) <==> End(s.address, s.size).Some? && Whole(s.flags).Some?
  {
    EndIsExact(s.address, s.size);
    if Whole(s.address).Some? && Whole(s.size).Some? { NumberIsSafe(Whole(s.address).value + Whole(s.size).value); }
  }

  lemma SectionsExactly(elf: Elf, r: Segment, page: nat)
    requires page > 0 && Valid(r.address, r.memSize) && EndAligned(r, page)
    ensures (forall s | s in elf.sections :: Allowed(r, s, page)) <==>
      (forall s | s in elf.sections :: Sized(s) && (Allocated(s) ==> InPlace(r, s, page)))
  {
    forall s ensures Allowed(r, s, page) <==> (Sized(s) && (Allocated(s) ==> InPlace(r, s, page))) {
      AllowedExactly(r, s, page);
      SizedExactly(s);
    }
  }

  lemma LoadsExactly(elf: Elf, r: Segment)
    requires Valid(r.address, r.memSize)
    ensures (exists load | load in Of(elf.segments, "PT_LOAD") :: InsideLoad(r, load)) <==>
      (exists load | load in elf.segments ::
         load.kind == "PT_LOAD" && Solid(load.address, load.memSize) && Within(r, load))
  {
    forall load ensures InsideLoad(r, load) <==> Solid(load.address, load.memSize) && Within(r, load) {
      InsideExactly(r, load);
    }
  }

  /** The comparisons of validateAndroidProtection, on rounded sums, accept exactly the images that are protected byte
      by byte, when RELRO ends with a page. */
  lemma ProtectionExactly(elf: Elf, r: Segment, d: Segment, page: nat)
    requires page == PAGE_4K || page == PAGE_16K
    requires Of(elf.segments, "PT_GNU_RELRO") == [r] && Of(elf.segments, "PT_DYNAMIC") == [d] && EndAligned(r, page)
    ensures ValidateAndroidProtection(elf, page) <==> ProtectedImage(elf, r, d, page)
  {
    ValidIsSolid(r.address, r.memSize);
    if Valid(r.address, r.memSize) {
      ContainsExactly(r, d);
      LoadsExactly(elf, r);
      SectionsExactly(elf, r, page);
    }
  }

  // ---------- Page sizes ----------

  lemma Divides(n: int)
    ensures n % PAGE_16K == 0 ==> n % PAGE_4K == 0
  {
  }

  lemma StartsEarlier(address: nat)
    ensures PageStart(address, PAGE_16K) <= PageStart(address, PAGE_4K)
  {
  }

  /** What holds for pages of 16384 bytes holds for pages of 4096. */
  lemma ProtectionAtSmallerPages(elf: Elf)
    requires ValidateAndroidProtection(elf, PAGE_16K)
    ensures ValidateAndroidProtection(elf, PAGE_4K)
  {
    var r := Of(elf.segments, "PT_GNU_RELRO")[0];
    StartsEarlier(Whole(r.address).value);
    forall s | s in elf.sections ensures Allowed(r, s, PAGE_4K) {
      assert Allowed(r, s, PAGE_16K);
    }
  }

  lemma LoadAtSmallerPages(load: Segment)
    ensures LoadAligned(load, PAGE_16K) ==> LoadAligned(load, PAGE_4K)
    ensures LoadChecked(load, PAGE_16K) ==> LoadChecked(load, PAGE_4K)
  {
    if LoadAligned(load, PAGE_16K) {
      Divides(Whole(load.address).value - Whole(load.offset).value);
      Divides(Whole(load.alignment).value);
    }
  }

  lemma EndAtSmallerPages(r: Segment)
    ensures EndAligned(r, PAGE_16K) ==> EndAligned(r, PAGE_4K)
  {
    if End(r.address, r.memSize).Some? { Divides(End(r.address, r.memSize).value); }
  }

  lemma ElfAtSmallerPages(elf: Elf)
    requires ValidateAndroidElf(elf, PAGE_16K)
    ensures ValidateAndroidElf(elf, PAGE_4K)
  {
    forall load ensures LoadAligned(load, PAGE_16K) ==> LoadAligned(load, PAGE_4K) { LoadAtSmallerPages(load); }
    forall r ensures EndAligned(r, PAGE_16K) ==> EndAligned(r, PAGE_4K) { EndAtSmallerPages(r); }
  }

  lemma LayoutAtSmallerPages(elf: Elf, table: Table, lasting: bool)
    requires ValidateLayout(elf, PAGE_16K, table, lasting)
    ensures ValidateLayout(elf, PAGE_4K, table, lasting)
  {
    ProtectionAtSmallerPages(elf);
    forall load ensures LoadChecked(load, PAGE_16K) ==> LoadChecked(load, PAGE_4K) { LoadAtSmallerPages(load); }
    EndAtSmallerPages(Of(elf.segments, "PT_GNU_RELRO")[0]);
  }

  /** Whatever validateLayout accepts, validateAndroidElf accepts. */
  lemma LayoutImpliesElf(elf: Elf, page: nat, table: Table, lasting: bool)
    requires page > 0 && ValidateLayout(elf, page, table, lasting)
    ensures ValidateAndroidElf(elf, page)
  {
    OnlyMember(Of(elf.segments, "PT_GNU_RELRO"));
  }

  lemma OnlyMember<T>(s: seq<T>)
    requires |s| == 1
    ensures forall x :: x in s <==> x == s[0]
  {
  }
}
