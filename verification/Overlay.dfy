/** The provenance manifest of scripts/native-overlay.js: which artifacts it vouches for, and for how long. */
module Overlay {
  import opened Common

  type Content = string

  // The fields of overlayIdentity, each with the JSON text of its value.
  type Identity = map<string, string>

  datatype Record = Record(library: Digest<Content>, prebuild: Digest<Content>)
  datatype Manifest = Manifest(fields: Identity, artifacts: map<string, Record>)

  /** The manifest file: absent, not JSON, or JSON. */
  datatype ManifestFile = Absent | Garbage | Stored(manifest: Manifest)

  /** The two files of a target that the manifest is about. */
  datatype Files = Files(library: Option<Content>, prebuild: Option<Content>)

  /** manifestMatchesIdentity. */
  predicate Matches(m: Manifest, identity: Identity) {
    forall key | key in identity :: key in m.fields && m.fields[key] == identity[key]
  }

  /** Every field of the identity is in the manifest with the same value. */
  lemma MatchesExactly(m: Manifest, identity: Identity)
    ensures Matches(m, identity) <==> identity.Items <= m.fields.Items
  {
    if identity.Items <= m.fields.Items {
      forall key | key in identity ensures key in m.fields && m.fields[key] == identity[key] {
        assert (key, identity[key]) in identity.Items;
      }
    }
  }

  function RecordOf(f: Files): Record
    requires f.library.Some? && f.prebuild.Some?
  {
    Record(Sha256(f.library.value), Sha256(f.prebuild.value))
  }

  // ---------- Writing ----------

  ghost predicate Readable(targets: seq<string>, files: string -> Files) {
    forall i :: 0 <= i < |targets| ==> files(targets[i]).library.Some? && files(targets[i]).prebuild.Some?
  }

  ghost function Records(targets: seq<string>, files: string -> Files): map<string, Record>
    requires Readable(targets, files)
  {
    map t | t in targets :: RecordOf(files(t))
  }

  /** What a write makes of the file that is there. */
  ghost function Rewritten(current: ManifestFile, identity: Identity, entries: map<string, Record>): Manifest {
    Manifest(identity,
             if current.Stored? && Matches(current.manifest, identity) then current.manifest.artifacts + entries
             else entries)
  }

  /** writeArtifactManifest: nothing is written when the manifest cannot be parsed or a file cannot be read. */
  method WriteArtifactManifest(current: ManifestFile, identity: Identity, targets: seq<string>, files: string -> Files)
    returns (written: Option<Manifest>)
    ensures written.Some? <==> !current.Garbage? && Readable(targets, files)
    ensures written.Some? ==> written.value == Rewritten(current, identity, Records(targets, files))
  {
    if current.Garbage? { return None; }
    var artifacts: map<string, Record> :=
      if current.Stored? && Matches(current.manifest, identity) then current.manifest.artifacts else map[];
    ghost var base := artifacts;
    for i := 0 to |targets|
      invariant Readable(targets[..i], files)
      invariant artifacts == base + Records(targets[..i], files)
    {
      var f := files(targets[i]);
      if f.library.None? || f.prebuild.None? {
        assert !Readable(targets, files);
        return None;
      }
      artifacts := artifacts[targets[i] := RecordOf(f)];
      OneMoreRecord(targets, i, files);
    }
    assert targets[..|targets|] == targets;
    return Some(Manifest(identity, artifacts));
  }

  lemma OneMoreRecord(targets: seq<string>, i: nat, files: string -> Files)
    requires i < |targets| && Readable(targets[..i], files)
    requires files(targets[i]).library.Some? && files(targets[i]).prebuild.Some?
    ensures Readable(targets[..i + 1], files)
    ensures Records(targets[..i + 1], files) == Records(targets[..i], files)[targets[i] := RecordOf(files(targets[i]))]
  {
    assert targets[..i + 1] == targets[..i] + [targets[i]];
  }

  // ---------- A history of writes ----------

  datatype Write = Write(identity: Identity, entries: map<string, Record>)

  /** The identities a package can have all consist of the same fields. */
  ghost predicate SameFields(history: seq<Write>) {
    forall i, j :: 0 <= i < |history| && 0 <= j < |history| ==> history[i].identity.Keys == history[j].identity.Keys
  }

  ghost function After(history: seq<Write>): ManifestFile {
    if history == [] then Absent
    else
      var n := |history| - 1;
      Stored(Rewritten(After(history[..n]), history[n].identity, history[n].entries))
  }

  /** Write `i` recorded the target, and every write since was of the same identity and left the target alone. */
  ghost predicate LastRecordedAt(history: seq<Write>, target: string, i: nat) {
    && i < |history| && target in history[i].entries
    && forall j :: i < j < |history| ==> history[j].identity == history[i].identity && target !in history[j].entries
  }

  lemma {:induction false} CurrentIdentity(history: seq<Write>)
    requires history != []
    ensures After(history).Stored? && After(history).manifest.fields == history[|history| - 1].identity
  {
  }

  lemma MatchingIsEqual(m: Manifest, identity: Identity)
    requires m.fields.Keys == identity.Keys
    ensures Matches(m, identity) <==> m.fields == identity
  {
  }

  /** Whatever configurations and target subsets were written: the manifest records a target exactly when some write
      recorded it and no write of another identity came after; and the record is the one of the last such write. */
  lemma {:induction false} RecordsAreCurrent(history: seq<Write>, target: string)
    requires SameFields(history) && history != []
    ensures target in After(history).manifest.artifacts <==> (exists i: nat :: LastRecordedAt(history, target, i))
    ensures forall i: nat :: LastRecordedAt(history, target, i) ==>
      target in After(history).manifest.artifacts
      && After(history).manifest.artifacts[target] == history[i].entries[target]
      && history[i].identity == After(history).manifest.fields
    decreases |history|
  {
    var n := |history| - 1;
    var before := history[..n];
    if target in history[n].entries {
      assert LastRecordedAt(history, target, n);
    } else if before != [] {
      RecordsAreCurrent(before, target);
      CurrentIdentity(before);
      MatchingIsEqual(After(before).manifest, history[n].identity);
      assert before[n - 1] == history[n - 1];
      if Matches(After(before).manifest, history[n].identity) {
        ContinuedHistory(history, target);
        assert target in After(history).manifest.artifacts <==> target in After(before).manifest.artifacts;
        if i: nat :| LastRecordedAt(before, target, i) {
          assert LastRecordedAt(history, target, i) && before[i] == history[i];
        }
      } else {
        BrokenHistory(history, target);
      }
    }
  }

  lemma ContinuedHistory(history: seq<Write>, target: string)
    requires |history| > 1 && target !in history[|history| - 1].entries
    requires history[|history| - 1].identity == history[|history| - 2].identity
    ensures forall i: nat :: LastRecordedAt(history, target, i) <==> LastRecordedAt(history[..|history| - 1], target, i)
  {
    var n := |history| - 1;
    forall i: nat ensures LastRecordedAt(history, target, i) <==> LastRecordedAt(history[..n], target, i) {
      if LastRecordedAt(history[..n], target, i) {
        assert history[..n][i] == history[i];
        assert i < n - 1 ==> history[..n][n - 1].identity == history[i].identity;
        assert forall j :: i < j < n ==> history[..n][j] == history[j];
      }
      if LastRecordedAt(history, target, i) {
        assert i < n;
      }
    }
  }

  lemma SinceThen(history: seq<Write>, target: string, i: nat)
    requires LastRecordedAt(history, target, i)
    ensures forall j :: i <= j < |history| ==> history[j].identity == history[i].identity
  {
  }

  lemma BrokenHistory(history: seq<Write>, target: string)
    requires |history| > 1 && target !in history[|history| - 1].entries
    requires history[|history| - 1].identity != history[|history| - 2].identity
    ensures forall i :: !LastRecordedAt(history, target, i)
  {
    var n := |history| - 1;
    forall i: nat | LastRecordedAt(history, target, i) ensures false {
      SinceThen(history, target, i);
    }
  }

  // ---------- Verifying ----------

  ghost predicate Vouched(m: Manifest, target: string, f: Files) {
    && target in m.artifacts && f.library.Some? && f.prebuild.Some?
    && m.artifacts[target].library == Sha256(f.library.value)
    && m.artifacts[target].prebuild == Sha256(f.prebuild.value)
  }

  ghost predicate AllVouched(m: Manifest, targets: seq<string>, files: string -> Files) {
    forall i :: 0 <= i < |targets| ==> Vouched(m, targets[i], files(targets[i]))
  }

  /** verifyArtifactManifest. */
  method VerifyArtifactManifest(file: ManifestFile, identity: Identity, targets: seq<string>, files: string -> Files)
    returns (ok: bool)
    ensures ok <==> file.Stored? && Matches(file.manifest, identity) && AllVouched(file.manifest, targets, files)
    ensures ok <==> file.Stored? && identity.Items <= file.manifest.fields.Items && forall i :: 0 <= i < |targets| ==>
      && targets[i] in file.manifest.artifacts
      && var record, f := file.manifest.artifacts[targets[i]], files(targets[i]);
      && f.library.Some? && record.library == Of(f.library.value)
      && f.prebuild.Some? && record.prebuild == Of(f.prebuild.value)
  {
    if file.Stored? { MatchesExactly(file.manifest, identity); }
    if !file.Stored? || !Matches(file.manifest, identity) { return false; }
    for i := 0 to |targets|
      invariant forall k :: 0 <= k < i ==> Vouched(file.manifest, targets[k], files(targets[k]))
    {
      var f := files(targets[i]);
      if targets[i] !in file.manifest.artifacts || f.library.None? || f.prebuild.None? { return false; }
      var recorded := file.manifest.artifacts[targets[i]];
      if recorded.library != Sha256(f.library.value) || recorded.prebuild != Sha256(f.prebuild.value) { return false; }
    }
    return true;
  }

  /** After a write, verification of a target it covered succeeds exactly while the identity and the contents of both
      files are what they were. */
  lemma VerifiesWhileUnchanged(current: ManifestFile, identity: Identity, targets: seq<string>, files: string -> Files,
                               target: string, identity': Identity, now: Files)
    requires Readable(targets, files) && target in targets && identity'.Keys == identity.Keys
    ensures var m := Rewritten(current, identity, Records(targets, files));
      (Matches(m, identity') && Vouched(m, target, now) <==> identity' == identity && now == files(target))
  {
    var i :| 0 <= i < |targets| && targets[i] == target;
    MatchingIsEqual(Rewritten(current, identity, Records(targets, files)), identity');
  }

  /** A run of writeArtifactManifest: the configuration, the targets it was for, and the files at that time. */
  datatype Run = Run(identity: Identity, targets: seq<string>, files: string -> Files)

  ghost predicate AllReadable(runs: seq<Run>) {
    forall i :: 0 <= i < |runs| ==> Readable(runs[i].targets, runs[i].files)
  }

  ghost function WritesOf(runs: seq<Run>): seq<Write>
    requires AllReadable(runs)
  {
    seq(|runs|, i requires 0 <= i < |runs| => Write(runs[i].identity, Records(runs[i].targets, runs[i].files)))
  }

  /** Run `i` is the last one for this target, and no run for another identity came after. */
  ghost predicate LastRunFor(runs: seq<Run>, target: string, i: nat) {
    && i < |runs| && target in runs[i].targets
    && forall j :: i < j < |runs| ==> runs[j].identity == runs[i].identity && target !in runs[j].targets
  }

  /** Over any history of runs: verification of a target succeeds exactly when the last run for it was under the
      identity that is asked for, with no other identity since, and both files are what they were then. */
  lemma VerifiesOverHistory(runs: seq<Run>, target: string, identity: Identity, now: Files)
    requires AllReadable(runs) && runs != [] && SameFields(WritesOf(runs))
    requires identity.Keys == runs[0].identity.Keys
    ensures var m := After(WritesOf(runs)).manifest;
      (Matches(m, identity) && Vouched(m, target, now) <==>
         exists i: nat :: LastRunFor(runs, target, i) && runs[i].identity == identity && now == runs[i].files(target))
  {
    var writes := WritesOf(runs);
    var m := After(writes).manifest;
    CurrentIdentity(writes);
    RecordsAreCurrent(writes, target);
    assert writes[0].identity == runs[0].identity;
    MatchingIsEqual(m, identity);
    forall i: nat ensures LastRunFor(runs, target, i) <==> LastRecordedAt(writes, target, i) {
      assert forall j :: 0 <= j < |runs| ==> writes[j].identity == runs[j].identity;
      assert forall j :: 0 <= j < |runs| ==> (target in writes[j].entries <==> target in runs[j].targets);
    }
    if i: nat :| LastRunFor(runs, target, i) {
      RunIsVouchedFor(runs, target, i, now);
      assert forall k: nat :: LastRunFor(runs, target, k) ==> k == i;
    }
  }

  lemma RunIsVouchedFor(runs: seq<Run>, target: string, i: nat, now: Files)
    requires AllReadable(runs) && runs != [] && SameFields(WritesOf(runs)) && LastRunFor(runs, target, i)
    requires LastRecordedAt(WritesOf(runs), target, i)
    ensures var m := After(WritesOf(runs)).manifest;
      m.fields == runs[i].identity && (Vouched(m, target, now) <==> now == runs[i].files(target))
  {
    RecordsAreCurrent(WritesOf(runs), target);
    var k :| 0 <= k < |runs[i].targets| && runs[i].targets[k] == target;
    VouchedFor(After(WritesOf(runs)).manifest, target, runs[i].files(target), now);
  }

  ghost predicate Packed(m: Manifest, target: string, prebuild: Option<Content>) {
    && prebuild.Some? && prebuild.value != ""
    && target in m.artifacts && m.artifacts[target].prebuild == Sha256(prebuild.value)
  }

  ghost predicate AllPacked(m: Manifest, targets: seq<string>, prebuilds: string -> Option<Content>) {
    forall i :: 0 <= i < |targets| ==> Packed(m, targets[i], prebuilds(targets[i]))
  }

  /** verifyPackedPrebuilds. */
  method VerifyPackedPrebuilds(file: ManifestFile, identity: Identity, targets: seq<string>,
                               prebuilds: string -> Option<Content>)
    returns (ok: bool)
    ensures ok <==> file.Stored? && Matches(file.manifest, identity) && AllPacked(file.manifest, targets, prebuilds)
    ensures ok <==> file.Stored? && identity.Items <= file.manifest.fields.Items && forall i :: 0 <= i < |targets| ==>
      && prebuilds(targets[i]).Some? && prebuilds(targets[i]).value != ""
      && targets[i] in file.manifest.artifacts
      && file.manifest.artifacts[targets[i]].prebuild == Of(prebuilds(targets[i]).value)
  {
    if file.Stored? { MatchesExactly(file.manifest, identity); }
    if !file.Stored? || !Matches(file.manifest, identity) { return false; }
    for i := 0 to |targets|
      invariant forall k :: 0 <= k < i ==> Packed(file.manifest, targets[k], prebuilds(targets[k]))
    {
      var prebuild := prebuilds(targets[i]);
      if prebuild.None? || prebuild.value == "" { return false; }
      if targets[i] !in file.manifest.artifacts { return false; }
      if file.manifest.artifacts[targets[i]].prebuild != Sha256(prebuild.value) { return false; }
    }
    return true;
  }

  // ---------- Copying artifacts into a package ----------

  // A copy, or the write of the manifest, may fail and leave anything; a copy may also succeed with wrong bytes.
  datatype Fault = Works | Corrupts(content: Content) | Fails(left: Option<Content>)
  datatype WriteFault = Written | Lost(left: ManifestFile)

  function FilesAt(files: map<string, Files>, target: string): Files {
    if target in files then files[target] else Files(None, None)
  }

  /** What a copy that does not fail leaves. */
  function Arrived(from: Option<Content>, fault: Fault): Option<Content> {
    if fault.Corrupts? then Some(fault.content) else from
  }

  function ArrivedFiles(from: Files, library: Fault, prebuild: Fault): Files {
    Files(Arrived(from.library, library), Arrived(from.prebuild, prebuild))
  }

  /** What the copies leave for each target. */
  function Delivered(source: string -> Files, faults: (string, bool) -> Fault): string -> Files {
    t => ArrivedFiles(source(t), faults(t, true), faults(t, false))
  }

  ghost predicate AllCopied(targets: seq<string>, faults: (string, bool) -> Fault) {
    forall t :: t in targets ==> !faults(t, true).Fails? && !faults(t, false).Fails?
  }

  /** A package directory with its artifacts and its manifest. */
  class ArtifactStore {
    var files: map<string, Files>
    var manifest: ManifestFile

    constructor (files: map<string, Files>, manifest: ManifestFile)
      ensures this.files == files && this.manifest == manifest
    {
      this.files, this.manifest := files, manifest;
    }

    /** One iteration of the copying loop: the archive, then the prebuild. */
    method CopyTarget(target: string, from: Files, library: Fault, prebuild: Fault) returns (ok: bool)
      modifies this`files
      ensures ok <==> !library.Fails? && !prebuild.Fails?
      ensures ok ==> FilesAt(files, target) == ArrivedFiles(from, library, prebuild)
      ensures forall t :: t != target ==> FilesAt(files, t) == FilesAt(old(files), t)
    {
      var before := FilesAt(files, target);
      var copied := if library.Fails? then library.left else Arrived(from.library, library);
      files := files[target := before.(library := copied)];
      if library.Fails? { return false; }
      before := FilesAt(files, target);
      copied := if prebuild.Fails? then prebuild.left else Arrived(from.prebuild, prebuild);
      files := files[target := before.(prebuild := copied)];
      return !prebuild.Fails?;
    }

    /** The copying loop. */
    method CopyAll(source: string -> Files, targets: seq<string>, faults: (string, bool) -> Fault) returns (ok: bool)
      modifies this`files
      ensures ok <==> AllCopied(targets, faults)
      ensures ok ==> forall t :: t in targets ==> FilesAt(files, t) == Delivered(source, faults)(t)
      ensures forall t :: t !in targets ==> FilesAt(files, t) == FilesAt(old(files), t)
    {
      for i := 0 to |targets|
        invariant forall k :: 0 <= k < i ==> FilesAt(files, targets[k]) == Delivered(source, faults)(targets[k])
        invariant AllCopied(targets[..i], faults)
        invariant forall t :: t !in targets ==> FilesAt(files, t) == FilesAt(old(files), t)
      {
        var t := targets[i];
        ok := CopyTarget(t, source(t), faults(t, true), faults(t, false));
        if !ok {
          assert t in targets;
          return;
        }
        assert targets[..i + 1] == targets[..i] + [t];
      }
      assert targets[..|targets|] == targets;
      assert forall t :: t in targets ==> exists i :: 0 <= i < |targets| && targets[i] == t;
      return true;
    }

    /** copyArtifacts, from a source whose artifacts have been admitted. The manifest is not touched unless every copy
        went through and the old one can be read; if its write fails then anything may be left of it; otherwise it
        vouches for what arrived, and so for the source exactly when every copy was right. */
    method CopyArtifacts(source: string -> Files, identity: Identity, targets: seq<string>,
                         faults: (string, bool) -> Fault,
                         fate: WriteFault)
      returns (ok: bool)
      requires Readable(targets, source)
      modifies this
      ensures ok <==> AllCopied(targets, faults) && !old(manifest).Garbage? && fate.Written?
      ensures !AllCopied(targets, faults) || old(manifest).Garbage? ==> manifest == old(manifest)
      ensures AllCopied(targets, faults) && !old(manifest).Garbage? && fate.Lost? ==> manifest == fate.left
      ensures ok ==>
        && Readable(targets, Delivered(source, faults))
        && manifest == Stored(Rewritten(old(manifest), identity, Records(targets, Delivered(source, faults))))
      ensures ok ==> AllVouched(manifest.manifest, targets, Delivered(source, faults))
      ensures ok ==> (AllVouched(manifest.manifest, targets, source) <==> Faithful(source, targets, faults))
      ensures ok ==> forall t :: t in targets ==> FilesAt(files, t) == Delivered(source, faults)(t)
      ensures ok ==> forall t :: t in targets ==>
        && t in files
        && files[t].library == (if faults(t, true).Works? then source(t).library else Some(faults(t, true).content))
        && files[t].prebuild == (if faults(t, false).Works? then source(t).prebuild else Some(faults(t, false).content))
      ensures forall t :: t !in targets ==> FilesAt(files, t) == FilesAt(old(files), t)
    {
      ok := CopyAll(source, targets, faults);
      if !ok { return; }
      ghost var delivered := Delivered(source, faults);
      var copied := files;
      var present := t => FilesAt(copied, t);
      StillReadable(source, targets, faults);
      SameRecords(targets, delivered, present);
      var written := WriteArtifactManifest(manifest, identity, targets, present);
      if written.None? { return false; }
      if fate.Lost? {
        manifest := fate.left;
        return false;
      }
      manifest := Stored(written.value);
      VouchesForSource(old(manifest), identity, source, targets, faults);
      return true;
    }
  }

  /** No copy delivered anything but its source. */
  ghost predicate Faithful(source: string -> Files, targets: seq<string>, faults: (string, bool) -> Fault) {
    forall t :: t in targets ==> Delivered(source, faults)(t) == source(t)
  }

  lemma StillReadable(source: string -> Files, targets: seq<string>, faults: (string, bool) -> Fault)
    requires Readable(targets, source)
    ensures Readable(targets, Delivered(source, faults))
  {
  }

  lemma VouchesForSource(current: ManifestFile, identity: Identity, source: string -> Files, targets: seq<string>,
                         faults: (string, bool) -> Fault)
    requires Readable(targets, source) && Readable(targets, Delivered(source, faults))
    ensures var m := Rewritten(current, identity, Records(targets, Delivered(source, faults)));
      && AllVouched(m, targets, Delivered(source, faults))
      && (AllVouched(m, targets, source) <==> Faithful(source, targets, faults))
  {
    var delivered := Delivered(source, faults);
    var m := Rewritten(current, identity, Records(targets, delivered));
    RewrittenVouches(current, identity, targets, delivered);
    forall i | 0 <= i < |targets|
      ensures Vouched(m, targets[i], source(targets[i])) <==> delivered(targets[i]) == source(targets[i]) {
      VouchedFor(m, targets[i], delivered(targets[i]), source(targets[i]));
    }
    assert forall t :: t in targets ==> exists i :: 0 <= i < |targets| && targets[i] == t;
  }

  /** A manifest vouches for one pair of files of a target only. */
  lemma VouchedFor(m: Manifest, target: string, f: Files, g: Files)
    requires Vouched(m, target, f)
    ensures Vouched(m, target, g) <==> f == g
  {
  }

  lemma RewrittenVouches(current: ManifestFile, identity: Identity, targets: seq<string>, files: string -> Files)
    requires Readable(targets, files)
    ensures AllVouched(Rewritten(current, identity, Records(targets, files)), targets, files)
  {
  }

  lemma SameRecords(targets: seq<string>, files: string -> Files, files': string -> Files)
    requires Readable(targets, files) && forall i :: 0 <= i < |targets| ==> files'(targets[i]) == files(targets[i])
    ensures Readable(targets, files') && Records(targets, files') == Records(targets, files)
  {
    assert forall t :: t in targets ==> exists i :: 0 <= i < |targets| && targets[i] == t;
  }
}
