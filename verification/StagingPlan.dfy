/** planCopies and ownedOutput of scripts/stage-android-addons.js: which files are staged, and which staged
    directories may be replaced. */
module StagingPlan {
  import opened Common
  import opened StagingTree
  import opened StageCopies

  const NAME: string := "utexo__rgb-lightning-node-bare"

  datatype Original = Original(abi: string, source: string, sha256: Digest<Content>)

  // What inspecting a linked addon reports: whether it is for the ABI of its directory, its SONAME and its DT_NEEDED.
  datatype Elf = Elf(matchesAbi: bool, loadName: Option<string>, needed: seq<string>)
  datatype Entry = Entry(name: string, regular: bool, content: Content, elf: Elf)

  // ---------- Names ----------

  predicate IsDigit(c: char) {
    '0' <= c <= '9'
  }

  /** (\.\d+)* to the end; `seen` tells that the current group has a digit. */
  predicate VersionTail(s: string, seen: bool) {
    if s == "" then seen
    else if IsDigit(s[0]) then VersionTail(s[1..], true)
    else s[0] == '.' && seen && VersionGroup(s[1..])
  }

  predicate VersionGroup(s: string) {
    s != "" && IsDigit(s[0]) && VersionTail(s[1..], true)
  }

  /** [^/\\]+\.so(?:\.\d+)* after the first three characters, with ".so" at position k. */
  predicate SoAt(s: string, k: nat) {
    && 4 <= k <= |s| - 3
    && '/' !in s[3..k] && '\\' !in s[3..k]
    && s[k] == '.' && s[k + 1] == 's' && s[k + 2] == 'o'
    && (k + 3 == |s| || (s[k + 3] == '.' && VersionGroup(s[k + 4..])))
  }

  /** ^lib[^/\\]+\.so(?:\.\d+)*$ */
  predicate LinkedName(s: string) {
    |s| >= 7 && s[0] == 'l' && s[1] == 'i' && s[2] == 'b' && exists k | 4 <= k <= |s| - 3 :: SoAt(s, k)
  }

  predicate StartsWith(s: string, prefix: string) {
    |prefix| <= |s| && s[..|prefix|] == prefix
  }

  predicate OccursAt(s: string, part: string, i: nat) {
    i + |part| <= |s| && s[i..i + |part|] == part
  }

  predicate Includes(s: string, part: string) {
    exists i | 0 <= i <= |s| :: OccursAt(s, part, i)
  }

  predicate IsRln(name: string) {
    StartsWith(name, "lib" + NAME)
  }

  // ---------- The same names, as strings put together ----------

  /** A group of digits behind a dot, for each version. */
  ghost function Suffix(versions: seq<string>): string {
    if versions == [] then "" else "." + versions[0] + Suffix(versions[1..])
  }

  ghost predicate Numbers(versions: seq<string>) {
    forall i :: 0 <= i < |versions| ==> versions[i] != "" && forall c :: c in versions[i] ==> '0' <= c <= '9'
  }

  ghost predicate IsLinked(s: string, base: string, versions: seq<string>) {
    && base != "" && '/' !in base && '\\' !in base && Numbers(versions)
    && s == "lib" + base + ".so" + Suffix(versions)
  }

  /** The tail of a version that has begun with these digits. */
  lemma {:induction false} TailIs(s: string, digits: string) returns (versions: seq<string>)
    requires VersionTail(s, digits != "") && (forall c :: c in digits ==> IsDigit(c))
    ensures versions != [] && Numbers(versions) && "." + digits + s == Suffix(versions)
    decreases |s|
  {
    if s == "" {
      versions := [digits];
      assert versions[1..] == [];
      assert "." + digits + s == "." + digits + "";
    } else if IsDigit(s[0]) {
      versions := TailIs(s[1..], digits + [s[0]]);
      assert digits + s == digits + [s[0]] + s[1..];
      assert "." + digits + s == "." + (digits + [s[0]]) + s[1..];
    } else {
      var group := s[1..];
      var rest := TailIs(group[1..], [group[0]]);
      versions := [digits] + rest;
      assert versions[1..] == rest;
      assert s == "." + [group[0]] + group[1..];
    }
  }

  lemma FirstVersion(versions: seq<string>)
    requires Numbers(versions) && versions != []
    ensures versions[0] != "" && IsDigit(versions[0][0]) && (forall c :: c in versions[0][1..] ==> IsDigit(c))
    ensures Numbers(versions[1..])
  {
    var v := versions[0];
    assert v[0] in v && forall c :: c in v[1..] ==> c in v;
  }

  lemma {:induction false} SuffixIsTail(versions: seq<string>, digits: string)
    requires Numbers(versions) && (forall c :: c in digits ==> IsDigit(c))
    ensures VersionTail(digits + Suffix(versions), true)
    decreases |versions|, |digits|
  {
    var s := digits + Suffix(versions);
    if digits != "" {
      assert s[1..] == digits[1..] + Suffix(versions);
      assert forall c :: c in digits[1..] ==> c in digits;
      SuffixIsTail(versions, digits[1..]);
    } else if versions != [] {
      var v, rest := versions[0], versions[1..];
      FirstVersion(versions);
      SuffixIsTail(rest, v[1..]);
      assert v == [v[0]] + v[1..];
      assert s[1..] == v + Suffix(rest);
      assert s[1..][1..] == v[1..] + Suffix(rest);
    }
  }

  lemma LinkedInto(s: string, k: nat) returns (base: string, versions: seq<string>)
    requires LinkedName(s) && SoAt(s, k)
    ensures IsLinked(s, base, versions)
  {
    base := s[3..k];
    versions := VersionsAt(s[k + 3..]);
    FourParts(s, k);
  }

  /** What follows ".so": nothing, or versions. */
  lemma VersionsAt(tail: string) returns (versions: seq<string>)
    requires tail == "" || (tail[0] == '.' && VersionGroup(tail[1..]))
    ensures Numbers(versions) && tail == Suffix(versions)
  {
    versions := [];
    if tail != "" {
      var group := tail[1..];
      versions := TailIs(group[1..], [group[0]]);
      assert tail == "." + [group[0]] + group[1..];
    }
  }

  lemma FourParts(s: string, k: nat)
    requires 3 <= k && k + 3 <= |s| && s[0] == 'l' && s[1] == 'i' && s[2] == 'b'
    requires s[k] == '.' && s[k + 1] == 's' && s[k + 2] == 'o'
    ensures s == "lib" + s[3..k] + ".so" + s[k + 3..]
  {
    assert s[..3] == "lib" && s[k..k + 3] == ".so";
  }

  lemma VersionsGroup(versions: seq<string>)
    requires Numbers(versions) && versions != []
    ensures Suffix(versions)[0] == '.' && VersionGroup(Suffix(versions)[1..])
  {
    var v, rest, s := versions[0], versions[1..], Suffix(versions);
    FirstVersion(versions);
    assert s[1..] == v + Suffix(rest);
    assert s[1..][1..] == v[1..] + Suffix(rest);
    SuffixIsTail(rest, v[1..]);
  }

  lemma LinkedFrom(s: string, base: string, versions: seq<string>)
    requires IsLinked(s, base, versions)
    ensures LinkedName(s)
  {
    var k, tail := 3 + |base|, Suffix(versions);
    assert s == "lib" + base + ".so" + tail;
    assert s[3..k] == base && s[k + 3..] == tail;
    assert s[k] == '.' && s[k + 1] == 's' && s[k + 2] == 'o';
    if versions != [] {
      VersionsGroup(versions);
      assert s[k + 4..] == tail[1..];
    }
    assert SoAt(s, k);
  }

  /** The expression admits exactly the names that are put together like this: "lib", a base without separators, ".so",
      and any number of versions. */
  lemma LinkedNameExactly(s: string)
    ensures LinkedName(s) <==> exists base, versions :: IsLinked(s, base, versions)
  {
    if LinkedName(s) {
      var k :| 4 <= k <= |s| - 3 && SoAt(s, k);
      var base, versions := LinkedInto(s, k);
    }
    if base, versions :| IsLinked(s, base, versions) { LinkedFrom(s, base, versions); }
  }

  lemma IncludesExactly(s: string, part: string)
    ensures Includes(s, part) <==> exists a, b :: s == a + part + b
  {
    if Includes(s, part) {
      var i :| 0 <= i <= |s| && OccursAt(s, part, i);
      assert s == s[..i] + part + s[i + |part|..];
    }
    if a, b :| s == a + part + b {
      assert OccursAt(s, part, |a|);
    }
  }

  lemma StartsExactly(s: string, prefix: string)
    ensures StartsWith(s, prefix) <==> exists rest :: s == prefix + rest
  {
    if StartsWith(s, prefix) { assert s == prefix + s[|prefix|..]; }
  }

  lemma IsRlnExactly(name: string)
    ensures IsRln(name) <==> exists rest :: name == "libutexo__rgb-lightning-node-bare" + rest
  {
    StartsExactly(name, "lib" + NAME);
    assert "lib" + NAME == "libutexo__rgb-lightning-node-bare";
  }

  // ---------- planCopies ----------

  /** What the script demands of one linked file. */
  predicate Admitted(e: Entry, filename: string) {
    && e.regular && LinkedName(e.name)
    && if IsRln(e.name) then e.name == filename
       else
         && e.elf.matchesAbi
         && (e.elf.loadName.Some? ==> !Includes(e.elf.loadName.value, NAME))
         && forall n | n in e.elf.needed :: !Includes(n, NAME)
  }

  /** Which linked files those are, in terms of strings: regular files of such a name that are RLN's addon and have its
      file name, or are for the ABI and mention RLN neither as their own name nor as one they need. */
  lemma AdmittedExactly(e: Entry, filename: string)
    ensures Admitted(e, filename) <==>
      (&& e.regular && (exists base, versions :: IsLinked(e.name, base, versions))
       && (if exists rest :: e.name == "libutexo__rgb-lightning-node-bare" + rest then e.name == filename
           else
             && e.elf.matchesAbi
             && (e.elf.loadName.Some? ==>
                   forall a, b :: e.elf.loadName.value != a + "utexo__rgb-lightning-node-bare" + b)
             && (forall n, a, b :: n in e.elf.needed ==> n != a + "utexo__rgb-lightning-node-bare" + b)))
  {
    LinkedNameExactly(e.name);
    IsRlnExactly(e.name);
    if e.elf.loadName.Some? { IncludesExactly(e.elf.loadName.value, NAME); }
    forall n | n in e.elf.needed ensures Includes(n, NAME) <==> exists a, b :: n == a + NAME + b {
      IncludesExactly(n, NAME);
    }
    assert NAME == "utexo__rgb-lightning-node-bare";
  }

  /** The one copy a linked file gives rise to: RLN's own addon is taken from its original instead. */
  function CopyFor(o: Original, linked: string, e: Entry): Copy {
    if IsRln(e.name) then Copy(o.source, o.abi + "/" + e.name, o.sha256)
    else Copy(linked + "/" + o.abi + "/" + e.name, o.abi + "/" + e.name, Sha256(e.content))
  }

  function CopiesFor(o: Original, linked: string, entries: seq<Entry>): seq<Copy> {
    seq(|entries|, i requires 0 <= i < |entries| => CopyFor(o, linked, entries[i]))
  }

  /** Every file of the directory is admitted and exactly one is RLN's addon. */
  ghost predicate Plannable(entries: seq<Entry>, filename: string) {
    && (forall i :: 0 <= i < |entries| ==> Admitted(entries[i], filename))
    && (exists i :: 0 <= i < |entries| && IsRln(entries[i].name))
    && (forall i, j :: 0 <= i < j < |entries| && IsRln(entries[i].name) ==> !IsRln(entries[j].name))
  }

  function Plan(originals: seq<Original>, linked: string, listing: string -> seq<Entry>): seq<Copy> {
    if originals == [] then []
    else
      var n := |originals| - 1;
      Plan(originals[..n], linked, listing) + CopiesFor(originals[n], linked, listing(originals[n].abi))
  }

  /** The plan of an ABI is that of its directory, and the plans of several ABIs stand one after the other. */
  lemma {:induction false} PlanJoined(a: seq<Original>, b: seq<Original>, linked: string,
                                      listing: string -> seq<Entry>)
    ensures Plan(a + b, linked, listing) == Plan(a, linked, listing) + Plan(b, linked, listing)
    ensures |a| == 1 ==> Plan(a, linked, listing) == CopiesFor(a[0], linked, listing(a[0].abi))
    decreases |b|
  {
    if |a| == 1 { assert a[..0] == []; }
    if b == [] {
      assert a + b == a;
    } else {
      var n := |b| - 1;
      assert (a + b)[..|a| + n] == a + b[..n];
      PlanJoined(a, b[..n], linked, listing);
    }
  }

  /** The entries of the directories there are. */
  function Listing(directories: string -> Option<seq<Entry>>): string -> seq<Entry> {
    abi => if directories(abi).Some? then directories(abi).value else []
  }

  method PlanOne(o: Original, linked: string, filename: string, e: Entry, found: bool) returns (copy: Option<Copy>)
    ensures copy.Some? <==> Admitted(e, filename) && !(found && IsRln(e.name))
    ensures copy.Some? ==> copy.value == CopyFor(o, linked, e)
  {
    if !e.regular || !LinkedName(e.name) { return None; }
    if IsRln(e.name) {
      if found || e.name != filename { return None; }
      return Some(Copy(o.source, o.abi + "/" + e.name, o.sha256));
    }
    if !e.elf.matchesAbi { return None; }
    if e.elf.loadName.Some? && Includes(e.elf.loadName.value, NAME) { return None; }
    if exists n | n in e.elf.needed :: Includes(n, NAME) { return None; }
    return Some(Copy(linked + "/" + o.abi + "/" + e.name, o.abi + "/" + e.name, Sha256(e.content)));
  }

  /** One directory, or none where there is no directory of that name or it is a link. */
  method PlanDirectory(o: Original, linked: string, filename: string, directory: Option<seq<Entry>>)
    returns (copies: Option<seq<Copy>>)
    ensures copies.Some? <==> directory.Some? && Plannable(directory.value, filename)
    ensures copies.Some? ==> copies.value == CopiesFor(o, linked, directory.value)
    ensures copies.Some? ==> |copies.value| == |directory.value| && forall i :: 0 <= i < |copies.value| ==>
      var name := directory.value[i].name;
      && copies.value[i].relative == o.abi + "/" + name
      && (name == filename ==> copies.value[i].source == o.source && copies.value[i].sha256 == o.sha256)
      && (name != filename ==> copies.value[i].source == linked + "/" + o.abi + "/" + name
                               && copies.value[i].sha256 == Sha256(directory.value[i].content))
  {
    if directory.None? { return None; }
    var entries := directory.value;
    var result: seq<Copy> := [];
    var found := false;
    for i := 0 to |entries|
      invariant result == CopiesFor(o, linked, entries[..i])
      invariant SoFar(entries, filename, i) && (found <==> Found(entries, i))
    {
      var copy := PlanOne(o, linked, filename, entries[i], found);
      NextEntry(entries, filename, i);
      if copy.None? { return None; }
      found := found || IsRln(entries[i].name);
      result := result + [copy.value];
      OneMore(o, linked, entries, i);
    }
    assert entries[..|entries|] == entries;
    if !found { return None; }
    return Some(result);
  }

  ghost predicate Found(entries: seq<Entry>, i: nat)
    requires i <= |entries|
  {
    exists k :: 0 <= k < i && IsRln(entries[k].name)
  }

  ghost predicate SoFar(entries: seq<Entry>, filename: string, i: nat)
    requires i <= |entries|
  {
    && (forall k :: 0 <= k < i ==> Admitted(entries[k], filename))
    && (forall k, l :: 0 <= k < l < i && IsRln(entries[k].name) ==> !IsRln(entries[l].name))
  }

  lemma NextEntry(entries: seq<Entry>, filename: string, i: nat)
    requires i < |entries| && SoFar(entries, filename, i)
    ensures Found(entries, i + 1) <==> Found(entries, i) || IsRln(entries[i].name)
    ensures SoFar(entries, filename, i + 1) <==>
      Admitted(entries[i], filename) && !(Found(entries, i) && IsRln(entries[i].name))
    ensures Plannable(entries, filename) ==> SoFar(entries, filename, i + 1)
  {
    FoundMore(entries, i);
    if !Found(entries, i) {
      assert forall k :: 0 <= k < i ==> !IsRln(entries[k].name);
    }
  }

  lemma FoundMore(entries: seq<Entry>, i: nat)
    requires i < |entries|
    ensures Found(entries, i + 1) <==> Found(entries, i) || IsRln(entries[i].name)
  {
  }

  lemma OneMore(o: Original, linked: string, entries: seq<Entry>, i: nat)
    requires i < |entries|
    ensures CopiesFor(o, linked, entries[..i + 1]) ==
      CopiesFor(o, linked, entries[..i]) + [CopyFor(o, linked, entries[i])]
  {
  }

  ghost predicate CanPlan(abi: string, filename: string, directories: string -> Option<seq<Entry>>) {
    directories(abi).Some? && Plannable(directories(abi).value, filename)
  }

  lemma PlanMore(originals: seq<Original>, i: nat, linked: string, listing: string -> seq<Entry>)
    requires i < |originals|
    ensures Plan(originals[..i + 1], linked, listing) ==
      Plan(originals[..i], linked, listing) + CopiesFor(originals[i], linked, listing(originals[i].abi))
  {
    assert originals[..i + 1][..i] == originals[..i];
  }

  /** One ABI. */
  method PlanAbi(o: Original, linked: string, filename: string, directories: string -> Option<seq<Entry>>)
    returns (ok: bool, copies: seq<Copy>)
    ensures ok <==> CanPlan(o.abi, filename, directories)
    ensures ok ==> copies == CopiesFor(o, linked, Listing(directories)(o.abi))
  {
    var planned := PlanDirectory(o, linked, filename, directories(o.abi));
    if planned.None? { return false, []; }
    return true, planned.value;
  }

  ghost predicate AllPlanned(originals: seq<Original>, n: nat, filename: string,
                             directories: string -> Option<seq<Entry>>)
    requires n <= |originals|
  {
    forall i :: 0 <= i < n ==> CanPlan(originals[i].abi, filename, directories)
  }

  /** planCopies: one copy per linked file, in order, or an exception. */
  method PlanCopies(originals: seq<Original>, linked: string, filename: string,
                    directories: string -> Option<seq<Entry>>)
    returns (copies: Option<seq<Copy>>)
    ensures copies.Some? <==> AllPlanned(originals, |originals|, filename, directories)
    ensures copies.Some? ==> copies.value == Plan(originals, linked, Listing(directories))
  {
    var result: seq<Copy> := [];
    for i := 0 to |originals|
      invariant result == Plan(originals[..i], linked, Listing(directories))
      invariant AllPlanned(originals, i, filename, directories)
    {
      var ok, more := PlanAbi(originals[i], linked, filename, directories);
      if !ok { return None; }
      PlanMore(originals, i, linked, Listing(directories));
      result := result + more;
    }
    assert originals[..|originals|] == originals;
    return Some(result);
  }

  // ---------- ownedOutput ----------

  /** A relative path as path.relative writes it. */
  function Join(p: Path): string {
    if p == [] then "" else if |p| == 1 then p[0] else p[0] + "/" + Join(p[1..])
  }

  /** The position of the separator before the last part of a name, if there is one: trailing separators do not count,
      nor does one at the very beginning. */
  function LastSeparator(s: string, i: nat, part: bool): (r: Option<nat>)
    requires i <= |s|
    ensures r.Some? ==> 0 < r.value < i && s[r.value] == '/'
  {
    if i <= 1 then None
    else if s[i - 1] == '/' then if part then Some(i - 1) else LastSeparator(s, i - 1, false)
    else LastSeparator(s, i - 1, true)
  }

  /** path.dirname. */
  function DirName(s: string): string {
    var at := LastSeparator(s, |s|, false);
    if at.None? then if s != "" && s[0] == '/' then "/" else "."
    else if s[0] == '/' && at.value == 1 then "//"
    else s[..at.value]
  }

  lemma {:induction false} SeparatorAt(d: string, n: string, i: nat, part: bool)
    requires d != "" && n != "" && '/' !in n && |d| < i <= |d| + 1 + |n| && (part <==> i < |d| + 1 + |n|)
    ensures LastSeparator(d + "/" + n, i, part) == Some(|d|)
    decreases i
  {
    var s := d + "/" + n;
    if i > |d| + 1 {
      assert s[i - 1] == n[i - 2 - |d|];
      SeparatorAt(d, n, i - 1, true);
    } else {
      assert s[i - 1] == '/';
    }
  }

  /** The directory of a name is what stands before its last part. */
  lemma DirNameIs(d: string, n: string)
    requires d != "" && d[|d| - 1] != '/' && n != "" && '/' !in n
    ensures DirName(d + "/" + n) == d
  {
    var s := d + "/" + n;
    SeparatorAt(d, n, |s|, false);
    assert s[..|d|] == d && s[0] == d[0];
  }

  lemma {:induction false} NoSeparator(n: string, i: nat, part: bool)
    requires '/' !in n && i <= |n|
    ensures LastSeparator(n, i, part) == None
    decreases i
  {
    if i > 1 { NoSeparator(n, i - 1, true); }
  }

  lemma DirNameOfOne(n: string)
    requires '/' !in n
    ensures DirName(n) == "."
  {
    NoSeparator(n, |n|, false);
  }

  /** The parts of a relative path are read back from it. */
  lemma {:induction false} JoinSplits(p: Path)
    requires p != [] && forall i :: 0 <= i < |p| ==> '/' !in p[i]
    ensures Parts(Join(p), false) == p
  {
    if |p| == 1 {
      PartsOfWord(p[0]);
    } else {
      JoinSplits(p[1..]);
      PartsOfMore(p[0], Join(p[1..]));
    }
  }

  predicate Expected(report: Report, name: string) {
    || name == REPORT
    || (exists i | 0 <= i < |report.files| :: (name == report.files[i].path || name == DirName(report.files[i].path)))
  }

  /** A directory that a previous run of the script wrote and nothing was added to. */
  ghost predicate Owned(t: Tree) {
    && [REPORT] in t && t[[REPORT]].File? && t[[REPORT]].content.Json?
    && t[[REPORT]].content.report.schemaVersion == 1 && t[[REPORT]].content.report.package == PACKAGE
    && forall p :: p in t ==> Expected(t[[REPORT]].content.report, Join(p)) && !t[p].Link?
  }

  /** Every entry lies in a directory of the tree. */
  ghost predicate Closed(t: Tree) {
    forall p :: p in t ==> p != [] && forall q :: q in Parents(p) ==> q in t && t[q] == Dir
  }

  predicate Beneath(dir: Path, p: Path) {
    |dir| < |p| && p[..|dir|] == dir
  }

  function Inside(t: Tree, dir: Path): set<Path> {
    set p | p in t && Beneath(dir, p)
  }

  function Children(t: Tree, dir: Path): set<Path> {
    set p | p in t && Beneath(dir, p) && |p| == |dir| + 1
  }

  predicate Allowed(t: Tree, report: Report, p: Path)
    requires p in t
  {
    Expected(report, Join(p)) && !t[p].Link?
  }

  lemma ChildOf(t: Tree, dir: Path, p: Path)
    requires Closed(t) && p in t && Beneath(dir, p)
    ensures p[..|dir| + 1] in Children(t, dir)
    ensures p == p[..|dir| + 1] || Beneath(p[..|dir| + 1], p)
  {
    var q := p[..|dir| + 1];
    assert q[..|dir|] == dir;
    if q != p {
      assert q in Parents(p);
    } else {
      assert |p| == |dir| + 1;
    }
  }

  lemma Deeper(t: Tree, dir: Path, child: Path)
    requires child in Children(t, dir)
    ensures Inside(t, child) < Inside(t, dir) && |Inside(t, child)| < |Inside(t, dir)|
  {
    forall p | p in Inside(t, child) ensures p in Inside(t, dir) {
      assert p[..|dir|] == p[..|child|][..|dir|];
    }
    assert child in Inside(t, dir) && child !in Inside(t, child);
    assert Inside(t, dir) == Inside(t, child) + (Inside(t, dir) - Inside(t, child));
  }

  /** The recursive `walk` of ownedOutput. */
  method Walk(t: Tree, dir: Path, report: Report) returns (ok: bool)
    requires Closed(t)
    ensures ok <==> forall p :: p in Inside(t, dir) ==> Allowed(t, report, p)
    decreases |Inside(t, dir)|
  {
    var rest := Children(t, dir);
    while rest != {}
      invariant rest <= Children(t, dir)
      invariant forall c :: c in Children(t, dir) && c !in rest ==>
        Allowed(t, report, c) && forall p :: p in Inside(t, c) ==> Allowed(t, report, p)
    {
      var c :| c in rest;
      Deeper(t, dir, c);
      if !Allowed(t, report, c) { return false; }
      var inner := Walk(t, c, report);
      if !inner { return false; }
      rest := rest - {c};
    }
    forall p | p in Inside(t, dir) ensures Allowed(t, report, p) {
      ChildOf(t, dir, p);
    }
    return true;
  }

  datatype Existing = Absent | NotADirectory | Holds(tree: Tree)

  /** The second half of ownedOutput: an output that exists has to be one of its own, if fs.existsSync `sees` it: that
      also says no when it fails. */
  method CheckOwned(existing: Existing, sees: bool) returns (ok: bool)
    requires existing.Holds? ==> Closed(existing.tree)
    ensures ok <==> existing.Absent? || !sees || (existing.Holds? && Owned(existing.tree))
    ensures existing.Holds? && sees ==> (ok <==> WrittenByScript(existing.tree))
  {
    if existing.Absent? || !sees { return true; }
    if existing.NotADirectory? { return false; }
    var t := existing.tree;
    OwnedIsWritten(t);
    if [REPORT] !in t || !t[[REPORT]].File? || !t[[REPORT]].content.Json? { return false; }
    var report := t[[REPORT]].content.report;
    if report.schemaVersion != 1 || report.package != PACKAGE { return false; }
    ok := Walk(t, [], report);
    assert forall p :: p in t ==> p in Inside(t, []);
  }

  /** There is a report of the script, and every entry is the report, is listed, or is the directory of one listed; and
      none is a link. */
  ghost predicate WrittenByScript(t: Tree) {
    exists files: seq<Listed> :: Lists(t, files) && forall p :: p in t ==>
      && !t[p].Link?
      && (|| Join(p) == "utexo-android-staging.json"
          || exists i :: 0 <= i < |files| && (Join(p) == files[i].path || Join(p) == DirName(files[i].path)))
  }

  ghost predicate Lists(t: Tree, files: seq<Listed>) {
    ["utexo-android-staging.json"] in t && t[["utexo-android-staging.json"]] ==
      File(Json(Report(1, "@utexo/rgb-lightning-node-bare", files)))
  }

  lemma OwnedIsWritten(t: Tree)
    ensures Owned(t) <==> WrittenByScript(t)
  {
    if Owned(t) { assert Lists(t, t[[REPORT]].content.report.files); }
  }

  datatype Stat = Missing | Directory | Irregular | Unreadable

  /** How many leading parts of the output's path name something that exists. */
  ghost function Existent(stat: Path -> Stat, output: Path): (n: nat)
    ensures n <= |output|
    ensures forall k :: n < k <= |output| ==> stat(output[..k]) == Missing
    ensures n > 0 ==> stat(output[..n]) != Missing
    decreases |output|
  {
    if output == [] || stat(output) != Missing then assert output[..|output|] == output; |output|
    else
      var n := Existent(stat, output[..|output| - 1]);
      assert forall k :: 0 <= k < |output| ==> output[..|output| - 1][..k] == output[..k];
      assert output[..|output|] == output;
      n
  }

  /** Neither path is the other or an ancestor of it; as in the script, the filesystem root is above nothing. */
  predicate Overlaps(output: Path, root: Path) {
    output == root || (root != [] && root < output) || (output != [] && output < root)
  }

  /** One of the paths is the other, or lies below it, and the one above is not the filesystem root. */
  ghost predicate Nested(p: Path, c: Path) {
    || p == c
    || (c != [] && exists q: Path :: p == c + q)
    || (p != [] && exists q: Path :: c == p + q)
  }

  lemma OverlapsIsNested(p: Path, c: Path)
    ensures Overlaps(p, c) <==> Nested(p, c)
  {
    if Overlaps(p, c) {
      if c <= p { assert p == c + p[|c|..]; } else { assert c == p + c[|p|..]; }
    }
    if q: Path :| p == c + q { assert q == [] ==> p == c; assert c <= p; }
    if q: Path :| c == p + q { assert q == [] ==> p == c; assert p <= c; }
  }

  ghost predicate Usable(stat: Path -> Stat, resolve: Path -> Option<Path>, existing: Path -> Existing, sees: bool,
                         output: Path, roots: seq<Path>) {
    var n := Existent(stat, output);
    && stat(output[..n]) == Directory && resolve(output[..n]).Some?
    && var canonical := resolve(output[..n]).value + output[n..];
      && (forall i :: 0 <= i < |roots| ==> resolve(roots[i]).Some? && !Overlaps(canonical, resolve(roots[i]).value))
      && (existing(canonical).Absent? || !sees || (existing(canonical).Holds? && Owned(existing(canonical).tree)))
  }

  /** ownedOutput: the canonical output directory, when it may be created or replaced. */
  method OwnedOutput(stat: Path -> Stat, resolve: Path -> Option<Path>, existing: Path -> Existing, sees: bool,
                     output: Path, roots: seq<Path>)
    returns (r: Option<Path>)
    requires stat([]) != Missing
    requires forall p :: existing(p).Holds? ==> Closed(existing(p).tree)
    ensures r.Some? <==> Usable(stat, resolve, existing, sees, output, roots)
    ensures r.Some? ==> var n := Existent(stat, output); r.value == resolve(output[..n]).value + output[n..]
    ensures r.Some? ==> forall i :: 0 <= i < |roots| ==>
      resolve(roots[i]).Some? && !Nested(r.value, resolve(roots[i]).value)
    ensures var n := Existent(stat, output);
      resolve(output[..n]).Some? ==> forall i :: 0 <= i < |roots| && resolve(roots[i]).Some? ==>
        (Nested(resolve(output[..n]).value + output[n..], resolve(roots[i]).value) ==> r.None?)
  {
    var current, missing := output, [];
    ghost var n := Existent(stat, output);
    while stat(current) == Missing
      invariant current + missing == output && n <= |current|
      decreases |current|
    {
      assert output[..|current|] == current;
      missing := [current[|current| - 1]] + missing;
      current := current[..|current| - 1];
    }
    assert output[..|current|] == current && output[|current|..] == missing;
    assert n == |current|;
    if stat(current) != Directory || resolve(current).None? { return None; }
    var canonical := resolve(current).value + missing;
    forall c ensures Overlaps(canonical, c) <==> Nested(canonical, c) { OverlapsIsNested(canonical, c); }
    for i := 0 to |roots|
      invariant forall k :: 0 <= k < i ==> resolve(roots[k]).Some? && !Overlaps(canonical, resolve(roots[k]).value)
    {
      if resolve(roots[i]).None? || Overlaps(canonical, resolve(roots[i]).value) { return None; }
    }
    var ok := CheckOwned(existing(canonical), sees);
    return if ok then Some(canonical) else None;
  }
}
