/** hydrateDistribution of scripts/native-distribution.js: an installation that can be interrupted anywhere and run
    again. */
module Hydrate {
  import opened Common
  import opened Overlay

  const IOS: seq<string> := ["ios-arm64", "ios-arm64-simulator", "ios-x64-simulator"]
  const ANDROID_ARM: seq<string> := ["android-arm", "android-arm64"]
  const ANDROID_X64: seq<string> := ["android-x64"]
  const PAYLOAD_TARGETS: seq<string> := IOS + ANDROID_ARM + ANDROID_X64
  const WRAPPER_TARGETS: seq<string> := ["darwin-arm64"]

  /** What is found at the path of a prebuild: nothing, a regular file, or something else there or on the way. */
  datatype Entry = Missing | Regular(content: Content) | Irregular

  /** A payload package: the prebuilds it is there for, whether its package.json is the expected one, and its copies of
      the manifest and of the runtime contract. */
  datatype Payload = Payload(targets: seq<string>, metadata: bool, manifest: ManifestFile, contract: Content)

  /** The wrapper package: the payload packages it resolves (none when one is missing), its own manifest and contract,
      and what its configuration asks for. */
  datatype Package = Package(metadata: bool, payloads: Option<seq<Payload>>, manifest: ManifestFile, contract: Content,
                             identity: Identity, targets: seq<string>)

  datatype Fault = Works | Corrupts(content: Content) | Fails(partial: Option<Content>) | Dies(partial: Option<Content>)

  datatype Status = Done | Threw | Died

  type Installed = map<string, Entry>

  function At(m: Installed, target: string): Entry {
    if target in m then m[target] else Missing
  }

  function Bytes(e: Entry): Option<Content> {
    if e.Regular? then Some(e.content) else None
  }

  // ---------- What an installation amounts to ----------

  /** The manifest knows the content of every payload target. */
  ghost predicate Known(m: Manifest) {
    forall t :: t in PAYLOAD_TARGETS ==>
      t in m.artifacts && m.artifacts[t].prebuild.Of? && m.artifacts[t].prebuild.content != ""
  }

  /** The destinations once the first `k` payload targets are installed; all others are as they were. */
  ghost function Installing(m: Manifest, old': Installed, k: nat): Installed
    requires Known(m) && k <= |PAYLOAD_TARGETS|
  {
    old' + Slices(m, k)
  }

  ghost function Slices(m: Manifest, k: nat): Installed
    requires Known(m) && k <= |PAYLOAD_TARGETS|
  {
    map t | t in PAYLOAD_TARGETS[..k] :: Regular(m.artifacts[t].prebuild.content)
  }

  /** The history of the destinations: the payload targets one after the other, from the state before to the `k`-th. */
  ghost predicate Trail(m: Manifest, seen: seq<Installed>, k: nat) {
    && Known(m) && k <= |PAYLOAD_TARGETS| && |seen| == k + 1
    && forall j :: 0 <= j <= k ==> seen[j] == Installing(m, seen[0], j)
  }

  ghost predicate InOrder(m: ManifestFile, seen: seq<Installed>, k: nat) {
    (k == 0 && |seen| == 1) || (m.Stored? && Trail(m.manifest, seen, k))
  }

  ghost predicate Identified(package: Package) {
    package.manifest.Stored? && Matches(package.manifest.manifest, package.identity)
  }

  /** Payload packages that belong to the wrapper. */
  ghost predicate Admitted(package: Package) {
    && package.metadata && package.payloads.Some? && Identified(package)
    && forall i :: 0 <= i < |package.payloads.value| ==> Belongs(package, package.payloads.value[i])
  }

  ghost predicate Belongs(package: Package, payload: Payload) {
    payload.metadata && payload.manifest == package.manifest && payload.contract == package.contract
  }

  /** Destinations into which an installation can be made. */
  ghost predicate Open(package: Package, installed: Installed)
    requires package.manifest.Stored?
  {
    && (forall t :: t in WRAPPER_TARGETS ==> Packed(package.manifest.manifest, t, Bytes(At(installed, t))))
    && (forall t :: t in PAYLOAD_TARGETS ==> !At(installed, t).Irregular?)
    && (forall t :: t in package.targets && t !in PAYLOAD_TARGETS ==>
          Packed(package.manifest.manifest, t, Bytes(At(installed, t))))
  }

  ghost predicate WellFormed(package: Package) {
    package.payloads.Some? ==>
      |package.payloads.value| == 3 && package.payloads.value[0].targets == IOS
      && package.payloads.value[1].targets == ANDROID_ARM && package.payloads.value[2].targets == ANDROID_X64
  }

  // ---------- Lemmas ----------

  lemma TargetsAre()
    ensures PAYLOAD_TARGETS ==
      ["ios-arm64", "ios-arm64-simulator", "ios-x64-simulator", "android-arm", "android-arm64", "android-x64"]
    ensures WRAPPER_TARGETS == ["darwin-arm64"]
  {
  }

  /** The packages that are admitted: all of this release, with the wrapper's manifest and contract; and the manifest
      has the fields of the configuration. */
  lemma AdmittedExactly(package: Package)
    ensures Admitted(package) <==>
      (&& package.metadata && package.payloads.Some? && package.manifest.Stored?
       && package.identity.Items <= package.manifest.manifest.fields.Items
       && forall p :: p in package.payloads.value ==>
            p.metadata && p.manifest == package.manifest && p.contract == package.contract)
  {
    if package.manifest.Stored? { MatchesExactly(package.manifest.manifest, package.identity); }
    if package.payloads.Some? {
      var payloads := package.payloads.value;
      if forall i :: 0 <= i < |payloads| ==> Belongs(package, payloads[i]) {
        assert forall p :: p in payloads ==> Belongs(package, p);
      }
    }
  }

  /** A target is there with content that is not empty and has the digest of the manifest. */
  ghost predicate InPlace(m: Manifest, installed: Installed, t: string) {
    && t in installed && installed[t].Regular? && installed[t].content != ""
    && t in m.artifacts && m.artifacts[t].prebuild == Of(installed[t].content)
  }

  /** The destinations there have to be: the wrapper's own and those of no payload in place, and nothing irregular in
      the way of the others. */
  lemma OpenExactly(package: Package, installed: Installed)
    requires package.manifest.Stored?
    ensures Open(package, installed) <==>
      (&& InPlace(package.manifest.manifest, installed, "darwin-arm64")
       && (forall t :: t in PAYLOAD_TARGETS && t in installed ==> !installed[t].Irregular?)
       && (forall t :: t in package.targets && t !in PAYLOAD_TARGETS ==>
             InPlace(package.manifest.manifest, installed, t)))
  {
    var m := package.manifest.manifest;
    assert WRAPPER_TARGETS == ["darwin-arm64"];
    assert forall t :: t in WRAPPER_TARGETS <==> t == "darwin-arm64";
    forall t ensures Packed(m, t, Bytes(At(installed, t))) <==> InPlace(m, installed, t) {
      PackedExactly(m, installed, t);
    }
    forall t ensures At(installed, t).Irregular? <==> t in installed && installed[t].Irregular? { }
  }

  lemma PackedExactly(m: Manifest, installed: Installed, t: string)
    ensures Packed(m, t, Bytes(At(installed, t))) <==> InPlace(m, installed, t)
  {
  }

  lemma InstallingMore(m: Manifest, old': Installed, k: nat)
    requires Known(m) && k < |PAYLOAD_TARGETS|
    ensures var t := PAYLOAD_TARGETS[k];
      Installing(m, old', k + 1) == Installing(m, old', k)[t := Regular(m.artifacts[t].prebuild.content)]
  {
    assert PAYLOAD_TARGETS[..k + 1] == PAYLOAD_TARGETS[..k] + [PAYLOAD_TARGETS[k]];
  }

  /** At any moment of an installation each destination is as it was before, or is what the manifest vouches for; and
      destinations of no payload are as they were. */
  lemma EachOldOrVerified(m: Manifest, old': Installed, k: nat, t: string)
    requires Known(m) && k <= |PAYLOAD_TARGETS|
    ensures var e := At(Installing(m, old', k), t);
      e == At(old', t) || (t in PAYLOAD_TARGETS && Packed(m, t, Bytes(e)))
    ensures t in PAYLOAD_TARGETS[..k] ==> Packed(m, t, Bytes(At(Installing(m, old', k), t)))
    ensures t !in PAYLOAD_TARGETS[..k] ==> At(Installing(m, old', k), t) == At(old', t)
  {
  }

  lemma WrapperIsNoPayload()
    ensures forall t :: t in WRAPPER_TARGETS ==> t !in PAYLOAD_TARGETS
  {
    assert forall t :: t in IOS || t in ANDROID_ARM || t in ANDROID_X64 ==> t[0] != 'd';
    assert forall t :: t in PAYLOAD_TARGETS ==> t in IOS || t in ANDROID_ARM || t in ANDROID_X64;
    assert WRAPPER_TARGETS[0][0] == 'd';
  }

  lemma InstallingTwice(m: Manifest, old': Installed, k: nat)
    requires Known(m) && k <= |PAYLOAD_TARGETS|
    ensures Installing(m, Installing(m, old', k), |PAYLOAD_TARGETS|) == Installing(m, old', |PAYLOAD_TARGETS|)
  {
    Overwritten(old', Slices(m, k), Slices(m, |PAYLOAD_TARGETS|));
  }

  lemma Overwritten(old': Installed, a: Installed, b: Installed)
    requires a.Keys <= b.Keys
    ensures old' + a + b == old' + b
  {
  }

  lemma StillOpen(package: Package, old': Installed, now: Installed)
    requires package.manifest.Stored? && Open(package, old')
    requires forall t :: t !in PAYLOAD_TARGETS ==> At(now, t) == At(old', t)
    requires forall t :: t in PAYLOAD_TARGETS ==> !At(now, t).Irregular?
    ensures Open(package, now)
  {
    WrapperIsNoPayload();
  }

  /** Whatever an interrupted installation leaves behind can be installed into just as well, and then ends up with the
      destinations an uninterrupted installation would have had. */
  lemma {:induction false} RerunReachesTheSame(package: Package, old': Installed, k: nat)
    requires package.manifest.Stored? && Known(package.manifest.manifest) && k <= |PAYLOAD_TARGETS|
    ensures var m := package.manifest.manifest;
      && Installing(m, Installing(m, old', k), |PAYLOAD_TARGETS|) == Installing(m, old', |PAYLOAD_TARGETS|)
      && (Open(package, old') ==> Open(package, Installing(m, old', k)))
  {
    var m := package.manifest.manifest;
    InstallingTwice(m, old', k);
    if Open(package, old') {
      forall t ensures t !in PAYLOAD_TARGETS ==> At(Installing(m, old', k), t) == At(old', t)
               ensures t in PAYLOAD_TARGETS ==> !At(Installing(m, old', k), t).Irregular? {
        EachOldOrVerified(m, old', k, t);
      }
      StillOpen(package, old', Installing(m, old', k));
    }
  }

  lemma InstalledExactly(m: Manifest, targets: seq<string>, installed: Installed)
    ensures AllInstalled(m, targets, installed) <==> forall t :: t in targets ==> InPlace(m, installed, t)
  {
    forall t ensures Packed(m, t, Bytes(At(installed, t))) <==> InPlace(m, installed, t) {
      PackedExactly(m, installed, t);
    }
  }

  // ---------- The installer ----------

  ghost predicate AllInstalled(m: Manifest, targets: seq<string>, installed: Installed) {
    forall t :: t in targets ==> Packed(m, t, Bytes(At(installed, t)))
  }

  /** The staged prebuilds are the ones the manifest vouches for. */
  ghost predicate Verified(m: ManifestFile, staged: map<string, Content>) {
    && m.Stored? && Known(m.manifest)
    && forall t :: t in PAYLOAD_TARGETS ==> t in staged && staged[t] == m.manifest.artifacts[t].prebuild.content
  }

  /** Reading, copying and renaming files.  `faults` says how each operation goes, in the order they are made; `source`
      what the payload packages hold for a target at the time of an operation. */
  class Installer {
    const package: Package
    const faults: nat -> Fault
    const source: (string, nat) -> Entry
    var clock: nat
    var installed: Installed
    var staging: Option<map<string, Content>>
    ghost var seen: seq<Installed>      // every state the destinations have been in
    ghost var removals: seq<nat>        // when the removal of the staging directory was attempted

    constructor (package: Package, faults: nat -> Fault, source: (string, nat) -> Entry, installed: Installed)
      ensures this.package == package && this.faults == faults && this.source == source
      ensures this.installed == installed && staging == None && seen == [installed] && removals == []
    {
      this.package, this.faults, this.source, this.installed := package, faults, source, installed;
      clock, staging, seen, removals := 0, None, [installed], [];
    }

    /** Nothing fails, and the payload packages keep holding what the manifest vouches for. */
    ghost predicate Steady() {
      && (forall n :: faults(n).Works?)
      && (package.manifest.Stored? ==>
            forall t, n :: t in PAYLOAD_TARGETS ==> Packed(package.manifest.manifest, t, Bytes(source(t, n))))
    }

    /** One operation that changes nothing a reader of the destinations can see. */
    method Attempt() returns (status: Status)
      modifies this`clock
      ensures clock == old(clock) + 1
      ensures status == (if faults(old(clock)).Dies? then Died else if faults(old(clock)).Fails? then Threw else Done)
    {
      var fault := faults(clock);
      clock := clock + 1;
      return if fault.Dies? then Died else if fault.Fails? then Threw else Done;
    }

    /** The prebuilds that the payload packages hold at a moment are the ones the manifest vouches for. */
    ghost predicate Vouched(targets: seq<string>, n: nat)
    {
      package.manifest.Stored? && forall t :: t in targets ==> Packed(package.manifest.manifest, t, Bytes(source(t, n)))
    }

    /** validatePayload. */
    method ValidatePayload(payload: Payload) returns (status: Status)
      modifies this`clock
      ensures clock == old(clock) + 1
      ensures status.Done? <==>
        !faults(old(clock)).Dies? && !faults(old(clock)).Fails?
        && Belongs(package, payload) && Identified(package) && Vouched(payload.targets, clock)
      ensures status.Done? ==>
        && payload.metadata && payload.manifest == package.manifest && payload.contract == package.contract
        && package.manifest.Stored? && package.identity.Items <= package.manifest.manifest.fields.Items
        && forall t :: t in payload.targets ==>
             && source(t, clock).Regular? && source(t, clock).content != ""
             && t in package.manifest.manifest.artifacts
             && package.manifest.manifest.artifacts[t].prebuild == Of(source(t, clock).content)
    {
      if package.manifest.Stored? { MatchesExactly(package.manifest.manifest, package.identity); }
      status := Attempt();
      if !status.Done? { return; }
      if !payload.metadata || payload.manifest != package.manifest || payload.contract != package.contract {
        return Threw;
      }
      var now := clock;
      for i := 0 to |payload.targets|
        invariant clock == now
      {
        if !source(payload.targets[i], now).Regular? {
          assert payload.targets[i] in payload.targets;
          return Threw;
        }
      }
      var ok := VerifyPackedPrebuilds(payload.manifest, package.identity, payload.targets, t => Bytes(source(t, now)));
      assert forall t :: t in payload.targets <==> exists i :: 0 <= i < |payload.targets| && payload.targets[i] == t;
      status := if ok then Done else Threw;
    }

    /** Everything that is checked before the first write. */
    method Admit() returns (status: Status)
      requires WellFormed(package)
      modifies this`clock
      ensures status.Done? ==>
        && Admitted(package)
        && (forall i :: 0 <= i < |package.payloads.value| ==> exists n :: Vouched(package.payloads.value[i].targets, n))
        && AllInstalled(package.manifest.manifest, WRAPPER_TARGETS, installed)
        && forall t :: t in PAYLOAD_TARGETS ==> !At(installed, t).Irregular?
      ensures Steady() && Admitted(package) && Open(package, installed) ==> status.Done?
    {
      status := Attempt();
      if !status.Done? { return; }
      if !package.metadata || package.payloads.None? { return Threw; }
      var payloads := package.payloads.value;
      for i := 0 to |payloads|
        invariant forall k ::
          0 <= k < i ==> Belongs(package, payloads[k]) && exists n :: Vouched(payloads[k].targets, n)
        invariant i > 0 ==> Identified(package)
      {
        PayloadTargets(package, i);
        status := ValidatePayload(payloads[i]);
        if !status.Done? { return; }
      }
      status := CheckDestinations();
    }

    method CheckDestinations() returns (status: Status)
      requires Identified(package)
      modifies this`clock
      ensures status.Done? ==>
        && AllInstalled(package.manifest.manifest, WRAPPER_TARGETS, installed)
        && forall t :: t in PAYLOAD_TARGETS ==> !At(installed, t).Irregular?
      ensures Steady() && Open(package, installed) ==> status.Done?
    {
      status := VerifyInstalled(WRAPPER_TARGETS);
      if !status.Done? { return; }
      for i := 0 to |PAYLOAD_TARGETS|
        invariant forall k :: 0 <= k < i ==> !At(installed, PAYLOAD_TARGETS[k]).Irregular?
      {
        if At(installed, PAYLOAD_TARGETS[i]).Irregular? { return Threw; }
      }
    }

    /** verifyPackedPrebuilds on the package itself. */
    method VerifyInstalled(targets: seq<string>) returns (status: Status)
      modifies this`clock
      ensures clock == old(clock) + 1
      ensures status.Done? ==> package.manifest.Stored? && AllInstalled(package.manifest.manifest, targets, installed)
      ensures Steady() && Identified(package) && AllInstalled(package.manifest.manifest, targets, installed) ==>
        status.Done?
    {
      status := Attempt();
      if !status.Done? { return; }
      var now := installed;
      var ok := VerifyPackedPrebuilds(package.manifest, package.identity, targets, t => Bytes(At(now, t)));
      if !ok { return Threw; }
      assert forall t :: t in targets ==> exists i :: 0 <= i < |targets| && targets[i] == t;
    }

    /** Copying one payload prebuild into the staging directory. */
    method CopyFile(target: string) returns (status: Status)
      requires staging.Some?
      modifies this`clock, this`staging
      ensures staging.Some?
      ensures status.Done? ==> staging.value.Keys == old(staging).value.Keys + {target}
      ensures Steady() && source(target, old(clock)).Regular? ==>
        status.Done? && staging.value == old(staging).value[target := source(target, old(clock)).content]
    {
      var fault, found := faults(clock), source(target, clock);
      clock := clock + 1;
      if !found.Regular? { return if fault.Dies? then Died else Threw; }
      if fault.Works? || fault.Corrupts? {
        var copied := if fault.Corrupts? then fault.content else found.content;
        staging := Some(staging.value[target := copied]);
        return Done;
      }
      if fault.partial.Some? { staging := Some(staging.value[target := fault.partial.value]); }
      return if fault.Dies? then Died else Threw;
    }

    /** Filling the staging directory and checking all of it. */
    method FillStaging() returns (status: Status)
      requires Admitted(package) && staging == Some(map[])
      modifies this`clock, this`staging
      ensures staging.Some?
      ensures status.Done? ==> Verified(package.manifest, staging.value)
      ensures Steady() ==> status.Done?
    {
      var m := package.manifest.manifest;
      status := Attempt();
      if !status.Done? { return; }
      for i := 0 to |PAYLOAD_TARGETS|
        invariant staging.Some?
        invariant Steady() ==> forall k :: 0 <= k < i ==>
          PAYLOAD_TARGETS[k] in staging.value && Packed(m, PAYLOAD_TARGETS[k], Some(staging.value[PAYLOAD_TARGETS[k]]))
      {
        assert PAYLOAD_TARGETS[i] in PAYLOAD_TARGETS;
        status := CopyFile(PAYLOAD_TARGETS[i]);
        if !status.Done? { return; }
      }
      status := Attempt();
      if !status.Done? { return; }
      var staged := staging.value;
      var ok := VerifyPackedPrebuilds(package.manifest, package.identity, PAYLOAD_TARGETS,
                                      t => if t in staged then Some(staged[t]) else None);
      if !ok { return Threw; }
      assert forall t :: t in PAYLOAD_TARGETS ==> exists i :: 0 <= i < |PAYLOAD_TARGETS| && PAYLOAD_TARGETS[i] == t;
    }

    /** fs.renameSync from the staging directory onto a destination. */
    method Rename(target: string) returns (status: Status)
      requires staging.Some? && target in staging.value && !At(installed, target).Irregular?
      modifies this`clock, this`staging, this`installed, this`seen
      ensures status.Done? ==>
        installed == old(installed)[target := Regular(old(staging).value[target])] && seen == old(seen) + [installed]
      ensures !status.Done? ==> installed == old(installed) && seen == old(seen) && staging == old(staging)
      ensures staging.Some? && forall t :: t in old(staging).value && t != target ==>
        t in staging.value && staging.value[t] == old(staging).value[t]
      ensures Steady() ==> status.Done?
    {
      status := Attempt();
      if !status.Done? { return; }
      installed := installed[target := Regular(staging.value[target])];
      staging := Some(staging.value - {target});
      seen := seen + [installed];
    }

    /** The renaming loop, with the first `i` payload targets in place. */
    ghost predicate Moving(m: Manifest, old': Installed, i: nat)
      reads this
    {
      && package.manifest == Stored(m) && Known(m) && i <= |PAYLOAD_TARGETS|
      && staging.Some? && StagedFrom(m, staging.value, i)
      && installed == Installing(m, old', i)
    }

    /** One iteration. */
    method InstallOne(ghost m: Manifest, ghost old': Installed, i: nat) returns (status: Status)
      requires i < |PAYLOAD_TARGETS| && Moving(m, old', i) && !At(old', PAYLOAD_TARGETS[i]).Irregular?
      modifies this`clock, this`staging, this`installed, this`seen
      ensures staging.Some?
      ensures status.Done? ==> Moving(m, old', i + 1) && seen == old(seen) + [installed]
      ensures !status.Done? ==> installed == old(installed) && seen == old(seen)
      ensures Steady() ==> status.Done?
    {
      var target := PAYLOAD_TARGETS[i];
      InstallingMore(m, old', i);
      EachOldOrVerified(m, old', i, target);
      StagedNext(m, staging.value, i);
      status := Attempt();
      if !status.Done? { return; }
      status := Rename(target);
      if status.Done? { StagedRest(m, old(staging).value, staging.value, i); }
    }

    method InstallAll() returns (status: Status, ghost k: nat)
      requires staging.Some? && Verified(package.manifest, staging.value) && seen == [installed]
      requires forall t :: t in PAYLOAD_TARGETS ==> !At(installed, t).Irregular?
      modifies this`clock, this`staging, this`installed, this`seen
      ensures staging.Some?
      ensures InOrder(package.manifest, seen, k) && seen[0] == old(installed) && installed == seen[k]
      ensures status.Done? ==> k == |PAYLOAD_TARGETS|
      ensures Steady() ==> status.Done?
    {
      ghost var m, old' := package.manifest.manifest, installed;
      k, status := 0, Done;
      StagedAll(m, staging.value);
      for i := 0 to |PAYLOAD_TARGETS|
        invariant Trail(m, seen, i) && Moving(m, old', i)
        invariant k == i && status.Done? && seen[0] == old' && installed == seen[i]
      {
        ghost var before := seen;
        status := InstallOne(m, old', i);
        if !status.Done? { return; }
        Onwards(m, before, i, installed);
        k := i + 1;
      }
    }

    /** fs.rmSync of the staging directory. */
    method RemoveStaging() returns (status: Status)
      modifies this`clock, this`staging, this`removals
      ensures clock == old(clock) + 1 && removals == old(removals) + [old(clock)]
      ensures status == (if faults(old(clock)).Dies? then Died else if faults(old(clock)).Fails? then Threw else Done)
      ensures staging == if status.Done? then None else old(staging)
    {
      removals := removals + [clock];
      status := Attempt();
      if status.Done? { staging := None; }
    }

    /** The `try` block and its `finally`. */
    method FillAndInstall() returns (status: Status, ghost k: nat)
      requires Admitted(package) && staging == Some(map[]) && seen == [installed]
      requires forall t :: t in PAYLOAD_TARGETS ==> !At(installed, t).Irregular?
      modifies this
      ensures InOrder(package.manifest, seen, k) && seen[0] == old(installed) && installed == seen[k]
      ensures status.Done? ==> k == |PAYLOAD_TARGETS| && staging.None?
      ensures !status.Died? ==> clock > 0 && CleanedUp(old(removals), clock - 1)
      ensures Steady() ==> status.Done?
    {
      k := 0;
      status := FillStaging();
      if status.Done? { status, k := InstallAll(); }
      if status.Died? { return; }
      var cleanup := RemoveStaging();
      if !cleanup.Done? { status := cleanup; }
    }

    /** The removal of the staging directory has been attempted, at this time, and it is gone unless that failed. */
    ghost predicate CleanedUp(before: seq<nat>, at: nat)
      reads this
    {
      removals == before + [at] && (staging.None? <==> !faults(at).Fails?)
    }

    /** hydrateDistribution.  Once the staging directory has been made, every way out attempts to remove it, unless the
        process dies: as the last operation, or as the one before the last check. */
    method Hydrate() returns (status: Status, ghost k: nat)
      requires WellFormed(package) && seen == [installed]
      modifies this
      ensures InOrder(package.manifest, seen, k) && seen[0] == old(installed) && installed == seen[k]
      ensures k > 0 ==>
        && Admitted(package) && AllInstalled(package.manifest.manifest, WRAPPER_TARGETS, old(installed))
        && forall i :: 0 <= i < |package.payloads.value| ==> exists n :: Vouched(package.payloads.value[i].targets, n)
      ensures status.Done? ==>
        k == |PAYLOAD_TARGETS| && staging.None? && AllInstalled(package.manifest.manifest, package.targets, installed)
      ensures status.Done? ==> forall t :: t in package.targets ==> InPlace(package.manifest.manifest, installed, t)
      ensures !status.Died? ==>
        || (k == 0 && !status.Done? && removals == old(removals) && staging == old(staging))
        || (clock > 0 && CleanedUp(old(removals), clock - 1))
        || (clock > 1 && CleanedUp(old(removals), clock - 2) && k == |PAYLOAD_TARGETS| && staging.None?)
      ensures Steady() && Admitted(package) && Open(package, old(installed)) ==> status.Done?
    {
      k := 0;
      status := Admit();
      if !status.Done? { return; }
      status := Attempt();
      if !status.Done? { return; }
      staging := Some(map[]);
      status, k := FillAndInstall();
      if !status.Done? { return; }
      if Open(package, old(installed)) { EndsInstalled(package, old(installed)); }
      status := VerifyInstalled(package.targets);
      if status.Done? { InstalledExactly(package.manifest.manifest, package.targets, installed); }
    }
  }

  lemma Onwards(m: Manifest, seen: seq<Installed>, k: nat, next: Installed)
    requires Trail(m, seen, k) && k < |PAYLOAD_TARGETS| && next == Installing(m, seen[0], k + 1)
    ensures Trail(m, seen + [next], k + 1)
  {
  }

  lemma PayloadTargets(package: Package, i: nat)
    requires WellFormed(package) && package.payloads.Some? && i < |package.payloads.value|
    ensures forall t :: t in package.payloads.value[i].targets ==> t in PAYLOAD_TARGETS
  {
  }

  ghost predicate StagedFrom(m: Manifest, staged: map<string, Content>, i: nat)
    requires Known(m)
  {
    forall j :: i <= j < |PAYLOAD_TARGETS| ==> StagedAt(m, staged, PAYLOAD_TARGETS[j])
  }

  ghost predicate StagedAt(m: Manifest, staged: map<string, Content>, t: string) {
    t in staged && t in m.artifacts && Sha256(staged[t]) == m.artifacts[t].prebuild
  }

  lemma StagedAll(m: Manifest, staged: map<string, Content>)
    requires Verified(Stored(m), staged)
    ensures StagedFrom(m, staged, 0)
  {
    assert forall j :: 0 <= j < |PAYLOAD_TARGETS| ==> PAYLOAD_TARGETS[j] in PAYLOAD_TARGETS;
  }

  lemma StagedNext(m: Manifest, staged: map<string, Content>, i: nat)
    requires Known(m) && i < |PAYLOAD_TARGETS| && StagedFrom(m, staged, i)
    ensures StagedAt(m, staged, PAYLOAD_TARGETS[i])
  {
  }

  lemma StagedRest(m: Manifest, before: map<string, Content>, staged: map<string, Content>, i: nat)
    requires Known(m) && i < |PAYLOAD_TARGETS| && StagedFrom(m, before, i)
    requires forall t :: t in before && t != PAYLOAD_TARGETS[i] ==> t in staged && staged[t] == before[t]
    ensures StagedFrom(m, staged, i + 1)
  {
    Distinct(i);
  }

  lemma Distinct(i: nat)
    requires i < |PAYLOAD_TARGETS|
    ensures forall j :: i < j < |PAYLOAD_TARGETS| ==> PAYLOAD_TARGETS[j] != PAYLOAD_TARGETS[i]
  {
  }

  lemma EndsInstalled(package: Package, old': Installed)
    requires package.manifest.Stored? && Known(package.manifest.manifest) && Open(package, old')
    ensures var m := package.manifest.manifest; AllInstalled(m, package.targets, Installing(m, old', |PAYLOAD_TARGETS|))
  {
    var m := package.manifest.manifest;
    assert PAYLOAD_TARGETS[..|PAYLOAD_TARGETS|] == PAYLOAD_TARGETS;
    forall t | t in package.targets ensures Packed(m, t, Bytes(At(Installing(m, old', |PAYLOAD_TARGETS|), t))) {
      EachOldOrVerified(m, old', |PAYLOAD_TARGETS|, t);
    }
  }
}
