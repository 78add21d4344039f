/** A staged tree can be staged over again; and what replacing an output deletes. */
module StagingRoundTrip {
  import opened Common
  import opened StagingTree
  import opened StageCopies
  import opened StagingPlan

  lemma {:induction false} PartsOfTwo(a: string, b: string, both: bool)
    requires '/' !in a && '\\' !in a && '/' !in b && '\\' !in b
    ensures Parts(a + "/" + b, both) == [a, b]
  {
    var s := a + "/" + b;
    if a == "" {
      assert s == "/" + b && s[1..] == b;
      PartsOfOne(b, both);
    } else {
      assert s[1..] == a[1..] + "/" + b;
      PartsOfTwo(a[1..], b, both);
      assert a == [a[0]] + a[1..];
    }
  }

  lemma {:induction false} SeparatorFound(a: string, b: string, i: nat, part: bool)
    requires Good(a) && Good(b) && |a| < i <= |a| + 1 + |b| && (i < |a| + 1 + |b| ==> part) && (i == |a| + 1 ==> part)
    ensures LastSeparator(a + "/" + b, i, part) == Some(|a|)
    decreases i
  {
    var s := a + "/" + b;
    if i > |a| + 1 {
      assert s[i - 1] == b[i - 2 - |a|];
      SeparatorFound(a, b, i - 1, true);
    } else {
      assert s[i - 1] == '/';
    }
  }

  /** A copy one directory below the output, as planCopies makes them. */
  ghost predicate TwoLevel(c: Copy, a: string, n: string) {
    Good(a) && Good(n) && c.relative == a + "/" + n
  }

  lemma TwoLevelName(c: Copy, a: string, n: string)
    requires TwoLevel(c, a, n)
    ensures Target(c.relative) == [a, n] && SafeName(c.relative)
    ensures Join([a, n]) == c.relative && Join([a]) == a && DirName(c.relative) == a
    ensures Parents([a, n]) == {[a]}
  {
    PartsOfTwo(a, n, false);
    PartsOfTwo(a, n, true);
    assert [a, n][1..] == [n];
    assert [n][1..] == [];
    assert Normal([n]) == [n] + [];
    assert Normal([a, n]) == [a] + [n];
    SeparatorFound(a, n, |c.relative|, false);
    assert c.relative[..|a|] == a;
    assert c.relative[0] == a[0];
    assert [a, n][..1] == [a];
    forall q | q in Parents([a, n]) ensures q == [a] {
      var k :| 0 < k < 2 && q == [a, n][..k];
    }
  }

  /** Where a list of copies comes from: each has a directory and a name. */
  ghost predicate Shaped(copies: seq<Copy>, abis: seq<string>, names: seq<string>) {
    && |abis| == |names| == |copies|
    && forall i :: 0 <= i < |copies| ==> TwoLevel(copies[i], abis[i], names[i])
  }

  lemma DirectoriesOf(copies: seq<Copy>, abis: seq<string>, names: seq<string>)
    requires Shaped(copies, abis, names)
    ensures forall q :: q in Directories(copies) ==> exists i :: 0 <= i < |copies| && q == [abis[i]]
    ensures forall i :: 0 <= i < |copies| ==> [abis[i]] in Directories(copies)
  {
    forall i | 0 <= i < |copies| ensures [abis[i]] in Directories(copies) {
      TwoLevelName(copies[i], abis[i], names[i]);
      assert [abis[i]] in Parents(Target(copies[i].relative));
    }
    forall q | q in Directories(copies) ensures exists i :: 0 <= i < |copies| && q == [abis[i]] {
      var i :| 0 <= i < |copies| && q in Parents(Target(copies[i].relative));
      TwoLevelName(copies[i], abis[i], names[i]);
    }
  }

  lemma ListedAs(copies: seq<Copy>, report: Report, i: nat)
    requires i < |copies|
    ensures var files := ReportOf(report, copies).report.files; i < |files| && files[i].path == copies[i].relative
  {
  }

  lemma CopyIsAllowed(t: Tree, copies: seq<Copy>, report: Report, i: nat, a: string, n: string)
    requires i < |copies| && TwoLevel(copies[i], a, n) && Complete(t, copies, report)
    ensures [a, n] in t && Allowed(t, ReportOf(report, copies).report, [a, n])
    ensures forall q :: q in Parents([a, n]) ==> q in t && t[q] == Dir
  {
    TwoLevelName(copies[i], a, n);
    ListedAs(copies, report, i);
    assert Target(copies[i].relative) in t;
    assert [a] in Parents(Target(copies[i].relative));
    assert [a] in Directories(copies);
  }

  lemma DirectoryIsAllowed(t: Tree, copies: seq<Copy>, report: Report, i: nat, a: string, n: string)
    requires i < |copies| && TwoLevel(copies[i], a, n) && [a] in Directories(copies) && Complete(t, copies, report)
    ensures [a] in t && Allowed(t, ReportOf(report, copies).report, [a])
  {
    TwoLevelName(copies[i], a, n);
    ListedAs(copies, report, i);
  }

  lemma EntryIsAllowed(t: Tree, p: Path, copies: seq<Copy>, report: Report, abis: seq<string>, names: seq<string>)
    requires Shaped(copies, abis, names) && Complete(t, copies, report) && p in t
    ensures Allowed(t, ReportOf(report, copies).report, p)
    ensures p != [] && forall q :: q in Parents(p) ==> q in t && t[q] == Dir
  {
    DirectoriesOf(copies, abis, names);
    if p == [REPORT] {
    } else if p in Targets(copies) {
      var i :| 0 <= i < |copies| && p == Target(copies[i].relative);
      TwoLevelName(copies[i], abis[i], names[i]);
      CopyIsAllowed(t, copies, report, i, abis[i], names[i]);
    } else {
      var i :| 0 <= i < |copies| && p == [abis[i]];
      DirectoryIsAllowed(t, copies, report, i, abis[i], names[i]);
    }
  }

  /** What stageCopies leaves behind for such copies is accepted by the next run's ownedOutput. */
  lemma StagedTreeIsOwned(t: Tree, copies: seq<Copy>, report: Report, abis: seq<string>, names: seq<string>)
    requires Shaped(copies, abis, names) && Complete(t, copies, report)
    requires report.schemaVersion == 1 && report.package == PACKAGE
    ensures Owned(t) && Closed(t)
  {
    forall p | p in t ensures Allowed(t, ReportOf(report, copies).report, p)
      && p != [] && forall q :: q in Parents(p) ==> q in t && t[q] == Dir
    {
      EntryIsAllowed(t, p, copies, report, abis, names);
    }
  }

  // ---------- What replacing an output deletes ----------

  ghost predicate IsListed(report: Report, name: string) {
    exists i :: 0 <= i < |report.files| && name == report.files[i].path
  }

  ghost predicate IsParent(report: Report, name: string) {
    exists i :: 0 <= i < |report.files| && name == DirName(report.files[i].path)
  }

  /** A file that the report of the directory does not account for. */
  ghost predicate Unlisted(t: Tree, p: Path)
    requires Owned(t)
  {
    p in t && t[p].File? && Join(p) != REPORT && !IsListed(t[[REPORT]].content.report, Join(p))
  }

  /** Replacing an output that ownedOutput accepts deletes at most one kind of unlisted file: one that has the place of
      the directory of a listed path.  Nothing lies beneath it, so the listed file is not there. */
  lemma UnlistedIsInPlaceOfDirectory(t: Tree, p: Path)
    requires Owned(t) && Closed(t) && Unlisted(t, p)
    ensures IsParent(t[[REPORT]].content.report, Join(p))
    ensures forall q :: q in t ==> !Beneath(p, q)
  {
    var files := t[[REPORT]].content.report.files;
    var i :| 0 <= i < |files| && (Join(p) == files[i].path || Join(p) == DirName(files[i].path));
    assert IsParent(t[[REPORT]].content.report, Join(p));
    forall q | q in t ensures !Beneath(p, q) {
      assert forall k :: 0 < k < |q| ==> q[..k] in Parents(q);
    }
  }

  /** Replacement deletes no unlisted file exactly when no file sits at a path that is only the directory of a listed
      one. */
  lemma ReplacementIsExact(t: Tree)
    requires Owned(t) && Closed(t)
    ensures (forall p :: !Unlisted(t, p)) <==>
      (forall p :: p in t && t[p].File? && Join(p) != REPORT && IsParent(t[[REPORT]].content.report, Join(p)) ==>
         IsListed(t[[REPORT]].content.report, Join(p)))
  {
    var report := t[[REPORT]].content.report;
    forall p ensures Unlisted(t, p) <==>
      (p in t && t[p].File? && Join(p) != REPORT && IsParent(report, Join(p)) && !IsListed(report, Join(p)))
    {
      if Unlisted(t, p) { UnlistedIsInPlaceOfDirectory(t, p); }
    }
  }

  /** Such a directory: the report lists "a/b", and "a" is a file. */
  lemma UnlistedFileIsAccepted(data: string, sha256: Digest<Content>)
    ensures var t: Tree := map[[REPORT] := File(Json(Report(1, PACKAGE, [Listed("a/b", sha256)]))),
                               ["a"] := File(Bytes(data))];
      Owned(t) && Closed(t) && Unlisted(t, ["a"])
  {
    var report := Report(1, PACKAGE, [Listed("a/b", sha256)]);
    var t: Tree := map[[REPORT] := File(Json(report)), ["a"] := File(Bytes(data))];
    var c := Copy("", "a/b", sha256);
    assert "a" + "/" + "b" == "a/b";
    TwoLevelName(c, "a", "b");
    assert report.files[0].path == "a/b" && Expected(report, "a");
    OneComponent(REPORT);
    OneComponent("a");
    assert !IsListed(report, "a");
  }

  lemma OneComponent(s: string)
    ensures Join([s]) == s && Parents([s]) == {}
  {
  }

  // ---------- The plan ----------

  lemma {:induction false} TailChars(s: string, seen: bool)
    requires VersionTail(s, seen)
    ensures forall c :: c in s ==> IsDigit(c) || c == '.'
  {
    if s != "" {
      if IsDigit(s[0]) { TailChars(s[1..], true); }
      else { TailChars(s[1..][1..], true); assert s[1..] == [s[1]] + s[1..][1..]; }
      assert s == [s[0]] + s[1..];
    }
  }

  lemma NameChar(s: string, k: nat, i: nat)
    requires SoAt(s, k) && 3 <= i < |s|
    ensures s[i] != '/' && s[i] != '\\'
  {
    if i < k {
      assert s[3..k][i - 3] == s[i];
    } else if i >= k + 4 {
      var group := s[k + 4..];
      TailChars(group[1..], true);
      assert i == k + 4 ==> s[i] == group[0];
      assert i > k + 4 ==> s[i] == group[1..][i - k - 5] && group[1..][i - k - 5] in group[1..];
    }
  }

  lemma LinkedNameIsGood(s: string)
    requires LinkedName(s)
    ensures Good(s)
  {
    var k :| 4 <= k <= |s| - 3 && SoAt(s, k);
    forall i | 3 <= i < |s| ensures s[i] != '/' && s[i] != '\\' {
      NameChar(s, k, i);
    }
  }

  ghost predicate DistinctAbis(originals: seq<Original>) {
    && (forall i :: 0 <= i < |originals| ==> Good(originals[i].abi) && originals[i].abi != REPORT)
    && (forall i, j :: 0 <= i < j < |originals| ==> originals[i].abi != originals[j].abi)
  }

  ghost predicate DistinctNames(entries: seq<Entry>) {
    forall i, j :: 0 <= i < j < |entries| ==> entries[i].name != entries[j].name
  }

  ghost function NamesOf(entries: seq<Entry>): seq<string> {
    seq(|entries|, i requires 0 <= i < |entries| => entries[i].name)
  }

  ghost function Repeated(s: string, n: nat): seq<string> {
    seq(n, i => s)
  }

  ghost function PlanAbis(originals: seq<Original>, listing: string -> seq<Entry>): seq<string> {
    if originals == [] then []
    else
      var n := |originals| - 1;
      PlanAbis(originals[..n], listing) + Repeated(originals[n].abi, |listing(originals[n].abi)|)
  }

  ghost function PlanNames(originals: seq<Original>, listing: string -> seq<Entry>): seq<string> {
    if originals == [] then []
    else
      var n := |originals| - 1;
      PlanNames(originals[..n], listing) + NamesOf(listing(originals[n].abi))
  }

  /** No two copies are for the same file. */
  ghost predicate Apart(abis: seq<string>, names: seq<string>) {
    |abis| == |names| && forall i, j :: 0 <= i < j < |abis| ==> abis[i] != abis[j] || names[i] != names[j]
  }

  ghost predicate AbisFrom(abis: seq<string>, originals: seq<Original>) {
    forall i :: 0 <= i < |abis| ==> IsAbi(abis[i], originals)
  }

  ghost predicate IsAbi(abi: string, originals: seq<Original>) {
    exists k :: 0 <= k < |originals| && abi == originals[k].abi
  }

  /** The copies of a plan are the linked files, one for each, one directory deep and all different. */
  lemma {:induction false} PlanShape(originals: seq<Original>, linked: string, filename: string,
                                     listing: string -> seq<Entry>)
    requires DistinctAbis(originals)
    requires forall i :: 0 <= i < |originals| ==>
      Plannable(listing(originals[i].abi), filename) && DistinctNames(listing(originals[i].abi))
    ensures var abis, names := PlanAbis(originals, listing), PlanNames(originals, listing);
      Shaped(Plan(originals, linked, listing), abis, names) && AbisFrom(abis, originals) && Apart(abis, names)
    decreases |originals|
  {
    if originals != [] {
      var n := |originals| - 1;
      var before, o := originals[..n], originals[n];
      PlanShape(before, linked, filename, listing);
      var abis, names, entries := PlanAbis(before, listing), PlanNames(before, listing), listing(o.abi);
      DirectoryShape(o, linked, filename, entries);
      ShapedMore(Plan(before, linked, listing), abis, names, CopiesFor(o, linked, entries), Repeated(o.abi, |entries|),
                 NamesOf(entries));
      AbisMore(abis, originals, |entries|);
      ApartMore(abis, names, o.abi, entries);
    }
  }

  lemma DirectoryShape(o: Original, linked: string, filename: string, entries: seq<Entry>)
    requires Good(o.abi) && Plannable(entries, filename)
    ensures Shaped(CopiesFor(o, linked, entries), Repeated(o.abi, |entries|), NamesOf(entries))
  {
    forall i | 0 <= i < |entries| ensures TwoLevel(CopyFor(o, linked, entries[i]), o.abi, entries[i].name) {
      LinkedNameIsGood(entries[i].name);
    }
  }

  lemma ShapedMore(copies: seq<Copy>, abis: seq<string>, names: seq<string>, more: seq<Copy>, abis': seq<string>,
                   names': seq<string>)
    requires Shaped(copies, abis, names) && Shaped(more, abis', names')
    ensures Shaped(copies + more, abis + abis', names + names')
  {
  }

  lemma AbisMore(abis: seq<string>, originals: seq<Original>, n: nat)
    requires originals != [] && AbisFrom(abis, originals[..|originals| - 1])
    requires DistinctAbis(originals)
    ensures AbisFrom(abis + Repeated(originals[|originals| - 1].abi, n), originals)
    ensures originals[|originals| - 1].abi !in abis
  {
    var last := |originals| - 1;
    forall i | 0 <= i < |abis| ensures IsAbi(abis[i], originals) && abis[i] != originals[last].abi {
      var k :| 0 <= k < last && abis[i] == originals[..last][k].abi;
      assert originals[k] == originals[..last][k];
    }
    assert IsAbi(originals[last].abi, originals);
  }

  lemma ApartMore(abis: seq<string>, names: seq<string>, abi: string, entries: seq<Entry>)
    requires Apart(abis, names) && abi !in abis && DistinctNames(entries)
    ensures Apart(abis + Repeated(abi, |entries|), names + NamesOf(entries))
  {
  }

  lemma ShapedIsStageable(copies: seq<Copy>, abis: seq<string>, names: seq<string>)
    requires Shaped(copies, abis, names) && Apart(abis, names)
    requires forall i :: 0 <= i < |abis| ==> abis[i] != REPORT
    ensures Stageable(copies)
  {
    DirectoriesOf(copies, abis, names);
    forall i | 0 <= i < |copies|
      ensures SafeName(copies[i].relative) && Target(copies[i].relative) == [abis[i], names[i]]
    {
      TwoLevelName(copies[i], abis[i], names[i]);
    }
    forall i, j | 0 <= i < |copies| && 0 <= j < |copies|
      ensures Target(copies[i].relative) !in Parents(Target(copies[j].relative))
    {
      TwoLevelName(copies[j], abis[j], names[j]);
    }
  }

  /** The plan of a run stages without conflict, and the tree it leaves, with the report of that run, is accepted by the
      next run on the same output. */
  lemma PlannedTreeIsOwned(originals: seq<Original>, linked: string, filename: string, listing: string -> seq<Entry>,
                           t: Tree, report: Report)
    requires DistinctAbis(originals)
    requires forall i :: 0 <= i < |originals| ==>
      Plannable(listing(originals[i].abi), filename) && DistinctNames(listing(originals[i].abi))
    requires Complete(t, Plan(originals, linked, listing), report)
    requires report.schemaVersion == 1 && report.package == PACKAGE
    ensures Stageable(Plan(originals, linked, listing)) && Owned(t) && Closed(t)
  {
    PlanShape(originals, linked, filename, listing);
    var copies := Plan(originals, linked, listing);
    var abis, names := PlanAbis(originals, listing), PlanNames(originals, listing);
    forall i | 0 <= i < |abis| ensures abis[i] != REPORT {
      assert IsAbi(abis[i], originals);
    }
    ShapedIsStageable(copies, abis, names);
    StagedTreeIsOwned(t, copies, report, abis, names);
  }

  /** Replacing what a run wrote deletes listed files only, and every digest it lists is the one of its file. */
  lemma PlannedTreeIsListed(originals: seq<Original>, linked: string, filename: string, listing: string -> seq<Entry>,
                            t: Tree, report: Report)
    requires DistinctAbis(originals)
    requires forall i :: 0 <= i < |originals| ==>
      Plannable(listing(originals[i].abi), filename) && DistinctNames(listing(originals[i].abi))
    requires Complete(t, Plan(originals, linked, listing), report)
    requires report.schemaVersion == 1 && report.package == PACKAGE
    ensures Owned(t) && (forall p :: !Unlisted(t, p)) && DigestsMatch(t)
  {
    PlannedTreeIsOwned(originals, linked, filename, listing, t, report);
    PlanShape(originals, linked, filename, listing);
    ShapedIsListed(t, Plan(originals, linked, listing), report, PlanAbis(originals, listing),
                   PlanNames(originals, listing));
  }

  lemma ShapedIsListed(t: Tree, copies: seq<Copy>, report: Report, abis: seq<string>, names: seq<string>)
    requires Shaped(copies, abis, names) && Complete(t, copies, report) && Owned(t)
    ensures forall p :: !Unlisted(t, p)
    ensures DigestsMatch(t)
  {
    forall p | p in t && t[p].File? && p != [REPORT] ensures IsListed(ReportOf(report, copies).report, Join(p)) {
      var i :| 0 <= i < |copies| && p == Target(copies[i].relative);
      TwoLevelName(copies[i], abis[i], names[i]);
      ListedAs(copies, report, i);
    }
    OneComponent(REPORT);
    forall i | 0 <= i < |copies| ensures Target(copies[i].relative) != [REPORT] {
      TwoLevelName(copies[i], abis[i], names[i]);
    }
    DigestsMatchExactly(t, copies, report);
  }

  ghost predicate Redirected(o: Original, linked: string, filename: string, entries: seq<Entry>, i: nat)
    requires i < |entries|
  {
    && entries[i].name == filename
    && CopyFor(o, linked, entries[i]) == Copy(o.source, o.abi + "/" + filename, o.sha256)
    && forall j :: 0 <= j < |entries| && j != i ==>
         CopyFor(o, linked, entries[j]) ==
           Copy(linked + "/" + o.abi + "/" + entries[j].name, o.abi + "/" + entries[j].name, Sha256(entries[j].content))
  }

  /** Only RLN's own addon is redirected: one file of each directory is taken from the verified original, every other
      from the linked directory with the digest of what was found there. */
  lemma OnlyRlnIsRedirected(o: Original, linked: string, filename: string, entries: seq<Entry>)
    requires Plannable(entries, filename)
    ensures exists i :: 0 <= i < |entries| && Redirected(o, linked, filename, entries, i)
  {
    var i :| 0 <= i < |entries| && IsRln(entries[i].name);
    assert Admitted(entries[i], filename);
    assert forall j :: 0 <= j < |entries| && j != i ==> !IsRln(entries[j].name);
    assert Redirected(o, linked, filename, entries, i);
  }
}
