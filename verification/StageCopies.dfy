/** stageCopies of scripts/stage-android-addons.js as a transaction: every filesystem operation may fail, leave work
    half done, write wrong bytes, or be the last one before the process dies. */
module StageCopies {
  import opened Common
  import opened StagingTree

  datatype Copy = Copy(source: string, relative: string, sha256: Digest<Content>)

  /** What an interrupted write leaves at its target, and which entries an interrupted removal keeps. */
  datatype Residue = Residue(content: Option<Content>, kept: set<Path>)

  datatype Fault = Works | Corrupts(content: Content) | Fails(residue: Residue) | Dies(residue: Residue)

  datatype Status = Done | Threw | Died

  datatype Place = Output | Temporary | Backup

  /** The three directories the transaction moves between. */
  datatype Disk = Disk(output: Option<Tree>, temporary: Option<Tree>, backup: Option<Tree>) {
    function Get(p: Place): Option<Tree> {
      match p
      case Output => output
      case Temporary => temporary
      case Backup => backup
    }

    function Put(p: Place, t: Option<Tree>): Disk {
      match p
      case Output => this.(output := t)
      case Temporary => this.(temporary := t)
      case Backup => this.(backup := t)
    }
  }

  // ---------- The tree that is being built ----------

  ghost function ReportOf(report: Report, copies: seq<Copy>): Content {
    Json(report.(files := seq(|copies|, i requires 0 <= i < |copies| => Listed(copies[i].relative, copies[i].sha256))))
  }

  ghost function Targets(copies: seq<Copy>): set<Path> {
    set i | 0 <= i < |copies| :: Target(copies[i].relative)
  }

  ghost function Directories(copies: seq<Copy>): set<Path> {
    set i, q | 0 <= i < |copies| && q in Parents(Target(copies[i].relative)) :: q
  }

  /** The tree holds exactly the copies, each a file with the digest that was asked for, and their directories. */
  ghost predicate Built(t: Tree, copies: seq<Copy>) {
    && t.Keys == Targets(copies) + Directories(copies)
    && (forall i :: 0 <= i < |copies| ==>
          var p := Target(copies[i].relative);
          p in t && t[p].File? && Sha256(t[p].content) == copies[i].sha256)
    && (forall q :: q in Directories(copies) ==> q in t && t[q] == Dir)
  }

  /** The whole new tree: the copies and the report that lists them. */
  ghost predicate Complete(t: Tree, copies: seq<Copy>, report: Report) {
    && t.Keys == Targets(copies) + Directories(copies) + {[REPORT]}
    && [REPORT] in t && t[[REPORT]] == File(ReportOf(report, copies))
    && (forall i :: 0 <= i < |copies| ==>
          var p := Target(copies[i].relative);
          p in t && t[p].File? && (p != [REPORT] ==> Sha256(t[p].content) == copies[i].sha256))
    && (forall q :: q in Directories(copies) ==> q in t && t[q] == Dir)
  }

  /** The report in the tree has the fields it was given and lists the copies in order, each with the digest of the file
      that the tree holds for it. */
  ghost predicate Reports(t: Tree, copies: seq<Copy>, report: Report) {
    && [REPORT] in t && t[[REPORT]].File? && t[[REPORT]].content.Json?
    && var found := t[[REPORT]].content.report;
    && found.schemaVersion == report.schemaVersion && found.package == report.package
    && |found.files| == |copies|
    && forall i :: 0 <= i < |copies| ==>
         var p := Target(found.files[i].path);
         && found.files[i].path == copies[i].relative
         && p in t && t[p].File? && (p != [REPORT] ==> found.files[i].sha256 == Sha256(t[p].content))
  }

  /** The old tree is in place or set aside whole, or the new one is in place whole. */
  ghost predicate Intact(d: Disk, old': Option<Tree>, copies: seq<Copy>, report: Report) {
    || d.output == old'
    || (old'.Some? && d.backup == old')
    || (d.output.Some? && Complete(d.output.value, copies, report))
  }

  /** There is nothing under the name the output would be set aside by; or there is, but the output is in the way of
      moving it, or both are empty. */
  ghost predicate NoLeftover(d: Disk) {
    d.backup.None? || (d.output.Some? && (d.output != Some(map[]) || d.backup == Some(map[])))
  }

  /** Every state between two moments satisfies this. */
  ghost predicate AlwaysIntact(seen: seq<Disk>, old': Option<Tree>, copies: seq<Copy>, report: Report) {
    forall i :: 0 <= i < |seen| ==> Intact(seen[i], old', copies, report)
  }

  /** Since `seen0` only the temporary directory has changed; the other two are those of `d`. */
  ghost predicate OnlyTemporary(seen0: seq<Disk>, seen: seq<Disk>, d: Disk) {
    && |seen0| <= |seen| && seen[..|seen0|] == seen0
    && forall i :: |seen0| <= i < |seen| ==> seen[i].output == d.output && seen[i].backup == d.backup
  }

  /** Two stretches in which only the temporary tree changes are one. */
  lemma OnlyTemporaryTwice(a: seq<Disk>, b: seq<Disk>, c: seq<Disk>, first: Disk, second: Disk, third: Disk)
    requires OnlyTemporary(a, b, first) && OnlyTemporary(a, b, second)
    requires OnlyTemporary(b, c, second) && OnlyTemporary(b, c, third)
    requires a != [] && a[|a| - 1] == first && b != [] && b[|b| - 1] == second && c != [] && c[|c| - 1] == third
    ensures OnlyTemporary(a, c, first) && OnlyTemporary(a, c, third)
  {
    assert a == b[..|a|] == c[..|b|][..|a|] == c[..|a|];
    assert second.output == first.output && second.backup == first.backup;
    assert third.output == second.output && third.backup == second.backup;
  }

  // ---------- The filesystem ----------

  /** What the operations of the script find and do.  `faults` says how each operation goes, in the order they are
      made; `source` what a file of the inputs holds at the time of an operation. */
  class FileSystem {
    const faults: nat -> Fault
    const source: (string, nat) -> Option<Node>
    var clock: nat
    var disk: Disk
    ghost var seen: seq<Disk>       // every state the disk has been in since the transaction began
    ghost var removals: seq<(Place, nat)>   // the removals that were attempted, and when

    constructor (faults: nat -> Fault, source: (string, nat) -> Option<Node>, disk: Disk)
      ensures this.faults == faults && this.source == source && this.disk == disk && seen == [disk] && removals == []
    {
      this.faults, this.source, this.disk := faults, source, disk;
      clock, seen, removals := 0, [disk], [];
    }

    ghost predicate Valid()
      reads this
    {
      |seen| > 0 && seen[|seen| - 1] == disk
    }

    method Tick() returns (fault: Fault)
      modifies this`clock
      ensures clock == old(clock) + 1 && fault == faults(old(clock))
    {
      fault := faults(clock);
      clock := clock + 1;
    }

    method Become(d: Disk)
      modifies this`disk, this`seen
      ensures Valid() && disk == d && seen == old(seen) + [d]
    {
      disk := d;
      seen := seen + [d];
    }

    /** fs.renameSync: atomic, and refused when the target is a directory with something in it. */
    method Rename(from: Place, to: Place) returns (status: Status)
      requires Valid() && from != to
      modifies this`clock, this`disk, this`seen
      ensures Valid() && clock == old(clock) + 1
      ensures status == (if faults(old(clock)).Dies? then Died
                         else if faults(old(clock)).Fails? || !Renamable(old(disk), from, to) then Threw else Done)
      ensures disk == (if status.Done? then Renamed(old(disk), from, to) else old(disk))
      ensures seen == if status.Done? then old(seen) + [disk] else old(seen)
    {
      var fault := Tick();
      if fault.Dies? { return Died; }
      if fault.Fails? || !Renamable(disk, from, to) { return Threw; }
      Become(Renamed(disk, from, to));
      return Done;
    }

    /** fs.existsSync: false on any error. */
    method Exists(place: Place) returns (died: bool, found: bool)
      modifies this`clock
      ensures clock == old(clock) + 1 && died == faults(old(clock)).Dies?
      ensures found == (disk.Get(place).Some? && !faults(old(clock)).Fails?)
    {
      var fault := Tick();
      died, found := fault.Dies?, disk.Get(place).Some? && !fault.Fails?;
    }

    /** fs.rmSync with `recursive` and `force`: an interrupted removal leaves part of the tree. */
    method Remove(place: Place) returns (status: Status)
      requires Valid()
      modifies this
      ensures Valid() && clock == old(clock) + 1
      ensures status == (if faults(old(clock)).Dies? then Died else if faults(old(clock)).Fails? then Threw else Done)
      ensures seen == old(seen) + [disk]
      ensures status.Done? ==> disk == old(disk).Put(place, None)
      ensures forall p: Place :: p != place ==> disk.Get(p) == old(disk).Get(p)
      ensures removals == old(removals) + [(place, old(clock))]
    {
      removals := removals + [(place, clock)];
      var fault := Tick();
      var rest: Option<Tree> := None;
      if (fault.Fails? || fault.Dies?) && disk.Get(place).Some? {
        var t := disk.Get(place).value;
        rest := Some(map q | q in t && q in fault.residue.kept :: t[q]);
      }
      Become(disk.Put(place, rest));
      status := if fault.Dies? then Died else if fault.Fails? then Threw else Done;
    }

    // ---------- Building the temporary directory ----------

    /** Nothing fails, and the inputs keep the contents whose digests were taken. */
    ghost predicate Steady(copies: seq<Copy>) {
      FaultFree() && forall i :: 0 <= i < |copies| ==> Keeps(copies[i])
    }

    ghost predicate FaultFree() {
      forall n :: faults(n).Works?
    }

    /** The source of a copy keeps the content whose digest was taken. */
    ghost predicate Keeps(copy: Copy) {
      forall n :: HasDigest(source(copy.source, n), copy.sha256)
    }

    /** At this time the source of a copy was read again, and had the digest that was taken. */
    ghost predicate Checked(copy: Copy, n: nat) {
      var found := source(copy.source, n);
      found.Some? && found.value.File? && copy.sha256 == Of(found.value.content)
    }

    /** So had the first sources, each three operations after the one before, and their names had passed the guard. */
    ghost predicate CheckedAll(copies: seq<Copy>, k: nat, from: nat)
      requires k <= |copies|
    {
      forall i :: 0 <= i < k ==> SafeName(copies[i].relative) && Checked(copies[i], CheckTime(from, i))
    }

    ghost predicate Building()
      reads this
    {
      Valid() && disk.temporary.Some?
    }

    /** Replace the temporary tree. */
    method Write(t: Tree)
      requires Building()
      modifies this`disk, this`seen
      ensures Building() && disk == old(disk).(temporary := Some(t)) && OnlyTemporary(old(seen), seen, disk)
    {
      Become(disk.(temporary := Some(t)));
    }

    /** fs.mkdirSync(path.dirname(target), { recursive: true }) */
    method MakeParents(target: Path) returns (status: Status)
      requires Building()
      modifies this`clock, this`disk, this`seen
      ensures clock == old(clock) + 1
      ensures Building() && OnlyTemporary(old(seen), seen, old(disk)) && OnlyTemporary(old(seen), seen, disk)
      ensures status.Done? ==> disk == old(disk).(temporary := Some(WithParents(old(disk).temporary.value, target)))
      ensures status.Done? ==> forall q :: q in Parents(target) ==>
        q !in old(disk).temporary.value || old(disk).temporary.value[q] == Dir
      ensures faults(old(clock)).Works? && NoneInTheWay(old(disk).temporary.value, target) ==> status.Done?
    {
      var fault := Tick();
      if fault.Dies? { return Died; }
      var t := disk.temporary.value;
      if fault.Fails? || exists q | q in t :: q in Parents(target) && t[q] != Dir { return Threw; }
      Write(WithParents(t, target));
      return Done;
    }

    /** fs.copyFileSync with COPYFILE_EXCL, of a source that has to be a regular file. */
    method CopyFile(name: string, target: Path) returns (status: Status)
      requires Building()
      modifies this`clock, this`disk, this`seen
      ensures clock == old(clock) + 1
      ensures Building() && OnlyTemporary(old(seen), seen, old(disk)) && OnlyTemporary(old(seen), seen, disk)
      ensures status.Done? ==>
        && target != [] && target !in old(disk).temporary.value
        && exists c :: disk == old(disk).(temporary := Some(old(disk).temporary.value[target := File(c)]))
      ensures faults(old(clock)).Works? && target != [] && target !in old(disk).temporary.value ==>
        var found := source(name, old(clock));
        found.Some? && found.value.File? ==>
          status.Done? && disk == old(disk).(temporary := Some(old(disk).temporary.value[target := found.value]))
    {
      var found := source(name, clock);
      var fault := Tick();
      var t := disk.temporary.value;
      if found.None? || !found.value.File? || target == [] || target in t {
        return if fault.Dies? then Died else Threw;
      }
      if fault.Works? || fault.Corrupts? {
        Write(t[target := File(if fault.Corrupts? then fault.content else found.value.content)]);
        return Done;
      }
      if fault.residue.content.Some? {
        Write(t[target := File(fault.residue.content.value)]);
      }
      return if fault.Dies? then Died else Threw;
    }

    /** Both digests are computed again after the copy. */
    method CheckDigests(copy: Copy, target: Path) returns (status: Status)
      requires Building() && target in disk.temporary.value && disk.temporary.value[target].File?
      modifies this`clock
      ensures clock == old(clock) + 1
      ensures status.Done? ==>
        Sha256(disk.temporary.value[target].content) == copy.sha256 && Checked(copy, clock)
      ensures faults(old(clock)).Works? && HasDigest(source(copy.source, old(clock) + 1), copy.sha256) ==>
        (status.Done? <==> Sha256(disk.temporary.value[target].content) == copy.sha256)
    {
      var fault := Tick();
      if fault.Dies? { return Died; }
      var found := source(copy.source, clock);
      if fault.Fails? || found.None? || !found.value.File? { return Threw; }
      if Sha256(disk.temporary.value[target].content) != copy.sha256 || Sha256(found.value.content) != copy.sha256 {
        return Threw;
      }
      return Done;
    }

    /** fs.writeFileSync of the report. */
    method WriteReport(content: Content) returns (status: Status)
      requires Building()
      modifies this`clock, this`disk, this`seen
      ensures clock == old(clock) + 1
      ensures Building() && OnlyTemporary(old(seen), seen, old(disk)) && OnlyTemporary(old(seen), seen, disk)
      ensures status.Done? ==>
        && ([REPORT] in old(disk).temporary.value ==> old(disk).temporary.value[[REPORT]] != Dir)
        && disk == old(disk).(temporary := Some(old(disk).temporary.value[[REPORT] := File(content)]))
      ensures faults(old(clock)).Works? && ReportFits(old(disk).temporary.value) ==>
        status.Done?
    {
      var fault := Tick();
      var t := disk.temporary.value;
      if [REPORT] in t && t[[REPORT]] == Dir { return if fault.Dies? then Died else Threw; }
      if fault.Works? || fault.Corrupts? {
        Write(t[[REPORT] := File(content)]);
        return Done;
      }
      if fault.residue.content.Some? {
        Write(t[[REPORT] := File(fault.residue.content.value)]);
      }
      return if fault.Dies? then Died else Threw;
    }

    /** The copying loop. */
    method CopyAll(copies: seq<Copy>) returns (status: Status)
      requires Building() && disk.temporary == Some(map[])
      modifies this`clock, this`disk, this`seen
      ensures Building() && OnlyTemporary(old(seen), seen, old(disk)) && OnlyTemporary(old(seen), seen, disk)
      ensures status.Done? ==> Built(disk.temporary.value, copies) && clock == old(clock) + 3 * |copies|
      ensures status.Done? ==> CheckedAll(copies, |copies|, old(clock))
      ensures Steady(copies) && Stageable(copies) ==> status.Done?
    {
      ghost var seen0, disk0, clock0 := seen, disk, clock;
      for i := 0 to |copies|
        invariant Building() && OnlyTemporary(seen0, seen, disk0) && OnlyTemporary(seen0, seen, disk)
        invariant Built(disk.temporary.value, copies[..i])
        invariant clock == clock0 + 3 * i && CheckedAll(copies, i, clock0)
      {
        status := BuildNext(copies, i, clock0);
        if !status.Done? { return; }
      }
      assert copies[..|copies|] == copies;
      return Done;
    }

    /** One iteration of the copying loop. */
    method BuildNext(copies: seq<Copy>, i: nat, ghost from: nat) returns (status: Status)
      requires Building() && i < |copies| && Built(disk.temporary.value, copies[..i])
      requires clock == from + 3 * i && CheckedAll(copies, i, from)
      modifies this`clock, this`disk, this`seen
      ensures Building() && OnlyTemporary(old(seen), seen, old(disk)) && OnlyTemporary(old(seen), seen, disk)
      ensures status.Done? ==> Built(disk.temporary.value, copies[..i + 1]) && clock == old(clock) + 3
      ensures status.Done? ==> CheckedAll(copies, i + 1, from)
      ensures Steady(copies) && Stageable(copies) ==> status.Done?
    {
      Room(copies, i, disk.temporary.value);
      status := BuildOne(copies[i], copies[..i]);
      assert status.Done? ==> clock == CheckTime(from, i);
      assert copies[..i + 1] == copies[..i] + [copies[i]];
    }

    /** The body of the `try`, up to the promotion. */
    method Build(copies: seq<Copy>, report: Report) returns (status: Status)
      requires Building() && disk.temporary == Some(map[])
      modifies this`clock, this`disk, this`seen
      ensures Building() && OnlyTemporary(old(seen), seen, old(disk)) && OnlyTemporary(old(seen), seen, disk)
      ensures status.Done? ==> Complete(disk.temporary.value, copies, report) && clock == old(clock) + 3 * |copies| + 1
      ensures status.Done? ==> CheckedAll(copies, |copies|, old(clock))
      ensures Steady(copies) && Stageable(copies) ==> status.Done?
    {
      status := CopyAll(copies);
      if !status.Done? { return; }
      ghost var t := disk.temporary.value;
      var files := seq(|copies|, i requires 0 <= i < |copies| => Listed(copies[i].relative, copies[i].sha256));
      status := WriteReport(Json(report.(files := files)));
      if status.Done? { Completed(t, copies, report); }
    }

    /** It makes the directories, copies, and compares the digests. */
    method BuildOne(copy: Copy, ghost before: seq<Copy>) returns (status: Status)
      requires Building() && Built(disk.temporary.value, before)
      modifies this`clock, this`disk, this`seen
      ensures Building() && OnlyTemporary(old(seen), seen, old(disk)) && OnlyTemporary(old(seen), seen, disk)
      ensures status.Done? ==> SafeName(copy.relative) && Built(disk.temporary.value, before + [copy])
      ensures status.Done? ==> clock == old(clock) + 3 && Checked(copy, clock)
      ensures FaultFree() && Keeps(copy) && Placeable(old(disk).temporary.value, copy.relative) ==> status.Done?
    {
      if !SafeName(copy.relative) { return Threw; }
      ghost var t, c := disk.temporary.value, Bytes("");
      status, c := PlaceCopy(copy, Target(copy.relative));
      if status.Done? { BuiltMore(t, before, copy, c); }
    }

    /** The directories of a target, and the copy. */
    method PlaceCopy(copy: Copy, target: Path) returns (status: Status, ghost c: Content)
      requires Building()
      modifies this`clock, this`disk, this`seen
      ensures Building() && OnlyTemporary(old(seen), seen, old(disk)) && OnlyTemporary(old(seen), seen, disk)
      ensures status.Done? ==>
        && clock == old(clock) + 3 && Sha256(c) == copy.sha256 && Checked(copy, clock)
        && target !in WithParents(old(disk).temporary.value, target)
        && (forall q :: q in Parents(target) ==>
              q !in old(disk).temporary.value || old(disk).temporary.value[q] == Dir)
        && disk.temporary.value == WithParents(old(disk).temporary.value, target)[target := File(c)]
      ensures FaultFree() && Keeps(copy) && Fits(old(disk).temporary.value, target) ==> status.Done?
    {
      c := Bytes("");
      status := MakeParents(target);
      if !status.Done? { return; }
      ghost var before1, disk1 := seen, disk;
      status, c := CopyVerified(copy, target);
      OnlyTemporaryTwice(old(seen), before1, seen, old(disk), disk1, disk);
    }

    /** A copy, and the comparison of the digests of both files. */
    method CopyVerified(copy: Copy, target: Path) returns (status: Status, ghost c: Content)
      requires Building()
      modifies this`clock, this`disk, this`seen
      ensures Building() && OnlyTemporary(old(seen), seen, old(disk)) && OnlyTemporary(old(seen), seen, disk)
      ensures status.Done? ==>
        && clock == old(clock) + 2 && Checked(copy, clock)
        && target != [] && target !in old(disk).temporary.value && Sha256(c) == copy.sha256
        && disk == old(disk).(temporary := Some(old(disk).temporary.value[target := File(c)]))
      ensures FaultFree() && Keeps(copy) && target != [] && target !in old(disk).temporary.value ==> status.Done?
    {
      status := CopyFile(copy.source, target);
      c := Bytes("");
      if !status.Done? { return; }
      c :| disk.temporary.value == old(disk).temporary.value[target := File(c)];
      assert disk.temporary.value[target] == File(c);
      status := CheckDigests(copy, target);
    }

    /** The renames, with the restoration when the second one fails.  `restored` is None when there was nothing to
        restore; a restoration that was needed and skipped counts as one that failed. */
    method PromoteTree() returns (status: Status, ghost restored: Option<Status>)
      requires Valid()
      modifies this`clock, this`disk, this`seen
      ensures Valid()
      ensures var p := Promote(old(disk), LuckAt(old(disk), faults, old(clock)));
        && status == p.status && restored == p.restored && disk == p.last && Through(old(seen), seen, p.states)
    {
      restored := None;
      status := SetAside();
      if status.Done? {
        status, restored := Land();
        assert Through(old(seen), seen, Promote(old(disk), LuckAt(old(disk), faults, old(clock))).states);
      }
    }

    /** The output, if it is seen, gets the name of the backup. */
    method SetAside() returns (status: Status)
      requires Valid()
      modifies this`clock, this`disk, this`seen
      ensures Valid()
      ensures var p := Aside(old(disk), faults(old(clock)), faults(old(clock) + 1));
        status == p.status && disk == p.last && Through(old(seen), seen, [p.last])
      ensures status.Done? ==>
        clock == if old(disk).output.Some? && !faults(old(clock)).Fails? then old(clock) + 2 else old(clock) + 1
    {
      var died, found := Exists(Output);
      if died { return Died; }
      if !found { return Done; }
      status := Rename(Output, Backup);
    }

    /** The temporary directory gets the name of the output, or what was set aside gets it back. */
    method Land() returns (status: Status, ghost restored: Option<Status>)
      requires Valid()
      modifies this`clock, this`disk, this`seen
      ensures Valid()
      ensures var p := Landing(old(disk), faults(old(clock)), faults(old(clock) + 1), faults(old(clock) + 2));
        && status == p.status && restored == p.restored && disk == p.last && Through(old(seen), seen, p.states)
    {
      restored := None;
      status := Rename(Temporary, Output);
      if status.Threw? { status, restored := Restore(); }
    }

    /** The inner `catch`. */
    method Restore() returns (status: Status, ghost restored: Option<Status>)
      requires Valid()
      modifies this`clock, this`disk, this`seen
      ensures Valid()
      ensures var r := Restoration(old(disk), faults(old(clock)), faults(old(clock) + 1));
        && status == r.status && restored == r.restored && disk == r.last
        && (seen == old(seen) || seen == old(seen) + [disk])
    {
      var died, found := Exists(Backup);
      if died { return Died, None; }
      if !found { return Threw, if disk.backup.Some? then Some(Threw) else None; }
      var back := Rename(Backup, Output);
      return if back.Died? then Died else Threw, Some(back);
    }

    /** Building leaves the output and the backup as they are. */
    method BuildAside(copies: seq<Copy>, report: Report) returns (status: Status)
      requires Building() && disk.temporary == Some(map[])
      requires AlwaysIntact(seen, disk.output, copies, report)
      modifies this`clock, this`disk, this`seen
      ensures Building() && disk.output == old(disk).output && disk.backup == old(disk).backup
      ensures AlwaysIntact(seen, disk.output, copies, report)
      ensures status.Done? ==> Complete(disk.temporary.value, copies, report) && clock == old(clock) + 3 * |copies| + 1
      ensures status.Done? ==> CheckedAll(copies, |copies|, old(clock))
      ensures Steady(copies) && Stageable(copies) ==> status.Done?
    {
      status := Build(copies, report);
      StillIntact(old(seen), seen, old(disk), copies, report);
      BuiltAside(old(seen), seen, old(disk));
    }

    /** The `try` block: build, promote, and drop what was set aside. */
    method BuildAndPromote(copies: seq<Copy>, report: Report) returns (status: Status, ghost at: Option<Start>)
      requires Building() && disk.temporary == Some(map[])
      requires AlwaysIntact(seen, disk.output, copies, report)
      modifies this
      ensures Valid()
      ensures NoLeftover(old(disk)) ==> AlwaysIntact(seen, old(disk).output, copies, report)
      ensures at.Some? ==> at.value.clock == old(clock) + 3 * |copies| + 1
      ensures Follows(at, faults, old(disk), status, disk, copies, report)
      ensures status.Done? ==> disk.output.Some? && Complete(disk.output.value, copies, report) && disk.backup.None?
      ensures at.Some? ==> CheckedAll(copies, |copies|, old(clock))
      ensures Steady(copies) && Stageable(copies) && old(disk).backup.None? ==> status.Done?
    {
      at := None;
      status := BuildAside(copies, report);
      if status.Done? {
        at := Some(Start(disk, clock));
        ghost var d := disk;
        status := PromoteAndDrop(copies, report);
        FollowsFrom(at, faults, d, old(disk), status, disk, copies, report);
      }
    }

    method PromoteAndDrop(ghost copies: seq<Copy>, ghost report: Report) returns (status: Status)
      requires Valid() && disk.temporary.Some? && Complete(disk.temporary.value, copies, report)
      requires AlwaysIntact(seen, disk.output, copies, report)
      modifies this
      ensures Valid()
      ensures NoLeftover(old(disk)) ==> AlwaysIntact(seen, old(disk).output, copies, report)
      ensures Follows(Some(Start(old(disk), old(clock))), faults, old(disk), status, disk, copies, report)
      ensures status.Done? ==> disk.output.Some? && Complete(disk.output.value, copies, report) && disk.backup.None?
      ensures FaultFree() && old(disk).backup.None? ==> status.Done?
    {
      PromotionSettles(disk, copies, report);
      if NoLeftover(disk) { PromotionIntact(disk, disk.output, copies, report); }
      PromotionSucceeds(disk);
      ghost var restored;
      status, restored := PromoteTree();
      if NoLeftover(old(disk)) { PromotedIntact(old(seen), seen, old(disk).output, copies, report); }
      if status.Done? { status := DropBackup(old(disk).output, copies, report); }
    }

    /** Removing what was set aside, with the new tree in place. */
    method DropBackup(ghost old': Option<Tree>, ghost copies: seq<Copy>, ghost report: Report) returns (status: Status)
      requires Valid() && disk.output.Some? && Complete(disk.output.value, copies, report)
      modifies this
      ensures Valid() && disk.output == old(disk).output
      ensures AlwaysIntact(old(seen), old', copies, report) ==> AlwaysIntact(seen, old', copies, report)
      ensures status.Done? ==> disk.backup.None?
      ensures faults(old(clock)).Works? ==> status.Done?
    {
      status := Remove(Backup);
      assert disk.Get(Output) == old(disk).Get(Output);
    }

    /** The parent of the output, and an empty directory beside it. */
    method MakeTemporary(ghost copies: seq<Copy>, ghost report: Report) returns (status: Status)
      requires Valid() && disk.temporary.None? && |seen| == 1
      modifies this`clock, this`disk, this`seen
      ensures Valid() && AlwaysIntact(seen, old(disk).output, copies, report)
      ensures if status.Done? then disk == old(disk).(temporary := Some(map[])) && clock == old(clock) + 2
              else disk == old(disk)
      ensures FaultFree() ==> status.Done?
    {
      var fault := Tick();
      if !fault.Works? { return if fault.Dies? then Died else Threw; }
      fault := Tick();
      if !fault.Works? { return if fault.Dies? then Died else Threw; }
      Become(disk.(temporary := Some(map[])));
      return Done;
    }

    /** The `finally` block. */
    method DropTemporary(ghost old': Option<Tree>, ghost copies: seq<Copy>, ghost report: Report)
      returns (status: Status)
      requires Valid()
      modifies this
      ensures Valid() && disk.output == old(disk).output && disk.backup == old(disk).backup
      ensures AlwaysIntact(old(seen), old', copies, report) ==> AlwaysIntact(seen, old', copies, report)
      ensures status.Done? ==> disk.temporary.None?
      ensures faults(old(clock)).Works? ==> status.Done?
      ensures clock == old(clock) + 1 && removals == old(removals) + [(Temporary, old(clock))]
      ensures status == (if faults(old(clock)).Dies? then Died else if faults(old(clock)).Fails? then Threw else Done)
    {
      status := Remove(Temporary);
      assert disk.Get(Output) == old(disk).Get(Output) && disk.Get(Backup) == old(disk).Get(Backup);
    }

    /** The last thing that was done is an attempt to remove the temporary directory; it is gone unless that failed. */
    ghost predicate CleanedUp()
      reads this
    {
      && clock > 0 && removals != [] && removals[|removals| - 1] == (Temporary, clock - 1)
      && (!faults(clock - 1).Fails? ==> disk.temporary.None?)
    }

    /** stageCopies.  `at` is where the promotion began, if it did: after two operations, three for each copy, and one
        for the report.  Once the temporary directory has been made, every way out tries to remove it, unless the
        process dies. */
    method Stage(copies: seq<Copy>, report: Report) returns (status: Status, ghost at: Option<Start>)
      requires Valid() && disk.temporary.None? && |seen| == 1
      modifies this
      ensures Valid()
      ensures NoLeftover(old(disk)) ==> AlwaysIntact(seen, old(disk).output, copies, report)
      ensures at.Some? ==> at.value.clock == old(clock) + 3 * |copies| + 3
      ensures Follows(at, faults, old(disk), status, disk, copies, report)
      ensures NoLeftover(old(disk)) ==> Settled(status, Restored(at, faults), disk, old(disk).output, copies, report)
      ensures status.Done? ==> disk.output.Some? && Complete(disk.output.value, copies, report)
      ensures status.Done? ==> Reports(disk.output.value, copies, report)
      ensures at.Some? ==> CheckedAll(copies, |copies|, old(clock) + 2)
      ensures status.Done? ==> disk.temporary.None? && disk.backup.None?
      ensures !status.Died? ==>
        CleanedUp() || (status.Threw? && removals == old(removals) && disk == old(disk))
      ensures Steady(copies) && Stageable(copies) && old(disk).backup.None? ==> status.Done?
    {
      at := None;
      status := MakeTemporary(copies, report);
      if status.Done? {
        ghost var d1 := disk;
        status, at := BuildAndPromote(copies, report);
        ghost var s, d := status, disk;
        if !status.Died? {
          var cleanup := DropTemporary(old(disk).output, copies, report);
          if !cleanup.Done? { status := cleanup; }
        }
        FollowsAfter(at, faults, d1, old(disk), s, status, d, disk, copies, report);
      }
      if status.Done? { CompleteReports(disk.output.value, copies, report); }
      if NoLeftover(old(disk)) { FollowsSettles(at, faults, old(disk), status, disk, copies, report); }
    }
  }

  /** The sources are read again by the third operation for each copy. */
  function CheckTime(from: nat, i: nat): nat {
    from + 3 * i + 3
  }

  predicate HasDigest(found: Option<Node>, sha256: Digest<Content>) {
    found.Some? && found.value.File? && Sha256(found.value.content) == sha256
  }

  function Renamable(d: Disk, from: Place, to: Place): bool {
    d.Get(from).Some? && (d.Get(to).None? || d.Get(to) == Some(map[]))
  }

  function Renamed(d: Disk, from: Place, to: Place): Disk {
    d.Put(to, d.Get(from)).Put(from, None)
  }

  function WithParents(t: Tree, p: Path): Tree {
    t + map q | q in Parents(p) :: Dir
  }

  /** A list of copies whose files do not get in each other's way. */
  ghost predicate Stageable(copies: seq<Copy>) {
    && (forall i :: 0 <= i < |copies| ==> SafeName(copies[i].relative) && Target(copies[i].relative) != [])
    && (forall i, j :: 0 <= i < |copies| && 0 <= j < |copies| && i != j ==>
          Target(copies[i].relative) != Target(copies[j].relative))
    && (forall i, j :: 0 <= i < |copies| && 0 <= j < |copies| ==>
          Target(copies[i].relative) !in Parents(Target(copies[j].relative)))
    && [REPORT] !in Directories(copies)
  }

  /** No parent of the target is there already as something other than a directory. */
  ghost predicate NoneInTheWay(t: Tree, target: Path) {
    forall q :: q in Parents(target) && q in t ==> t[q] == Dir
  }

  ghost predicate Placeable(t: Tree, relative: string) {
    SafeName(relative) && Fits(t, Target(relative))
  }

  ghost predicate ReportFits(t: Tree) {
    [REPORT] in t ==> t[[REPORT]] != Dir
  }

  ghost predicate Fits(t: Tree, target: Path) {
    target != [] && target !in t && target !in Parents(target) && NoneInTheWay(t, target)
  }

  // ---------- Lemmas about building ----------

  lemma Room(copies: seq<Copy>, i: nat, t: Tree)
    requires i < |copies| && Built(t, copies[..i])
    ensures Stageable(copies) ==> Fits(t, Target(copies[i].relative))
  {
    if Stageable(copies) {
      var p := Target(copies[i].relative);
      assert forall k :: 0 <= k < i ==> copies[..i][k] == copies[k];
      forall q | q in Parents(p) && q in t ensures t[q] == Dir {
        assert forall k :: 0 <= k < i ==> Target(copies[k].relative) != q;
      }
    }
  }

  lemma Appended(copies: seq<Copy>, copy: Copy)
    ensures Targets(copies + [copy]) == Targets(copies) + {Target(copy.relative)}
    ensures Directories(copies + [copy]) == Directories(copies) + Parents(Target(copy.relative))
  {
    var more := copies + [copy];
    assert more[|copies|] == copy;
    forall p ensures p in Targets(more) <==> p in Targets(copies) + {Target(copy.relative)} {
      if p in Targets(copies) {
        var i :| 0 <= i < |copies| && p == Target(copies[i].relative);
        assert more[i] == copies[i];
      }
    }
    forall q ensures q in Directories(more) <==> q in Directories(copies) + Parents(Target(copy.relative)) {
      if q in Directories(copies) {
        var i :| 0 <= i < |copies| && q in Parents(Target(copies[i].relative));
        assert more[i] == copies[i];
      }
    }
  }

  lemma BuiltMore(t: Tree, copies: seq<Copy>, copy: Copy, c: Content)
    requires Built(t, copies) && Sha256(c) == copy.sha256
    requires var p := Target(copy.relative);
      p !in WithParents(t, p) && forall q :: q in Parents(p) ==> q !in t || t[q] == Dir
    ensures var p := Target(copy.relative); Built(WithParents(t, p)[p := File(c)], copies + [copy])
  {
    KeysBuilt(t, copies, copy, c);
    FilesBuilt(t, copies, copy, c);
    DirectoriesBuilt(t, copies, copy, c);
  }

  lemma KeysBuilt(t: Tree, copies: seq<Copy>, copy: Copy, c: Content)
    requires t.Keys == Targets(copies) + Directories(copies)
    ensures var p, more := Target(copy.relative), copies + [copy];
      WithParents(t, p)[p := File(c)].Keys == Targets(more) + Directories(more)
  {
    var p := Target(copy.relative);
    Appended(copies, copy);
    assert WithParents(t, p)[p := File(c)].Keys == t.Keys + Parents(p) + {p};
    Regrouped(Targets(copies), Directories(copies), Parents(p), {p});
  }

  lemma Regrouped<T>(a: set<T>, b: set<T>, c: set<T>, d: set<T>)
    ensures a + b + c + d == a + d + (b + c)
  {
  }

  lemma FilesBuilt(t: Tree, copies: seq<Copy>, copy: Copy, c: Content)
    requires Built(t, copies) && Sha256(c) == copy.sha256
    requires var p := Target(copy.relative);
      p !in WithParents(t, p) && forall q :: q in Parents(p) ==> q !in t || t[q] == Dir
    ensures var u, more := WithParents(t, Target(copy.relative))[Target(copy.relative) := File(c)], copies + [copy];
      forall i :: 0 <= i < |more| ==>
        var q := Target(more[i].relative);
        q in u && u[q].File? && Sha256(u[q].content) == more[i].sha256
  {
    forall i | 0 <= i < |copies|
      ensures var u := WithParents(t, Target(copy.relative))[Target(copy.relative) := File(c)];
        var q := Target(copies[i].relative);
        q in u && u[q].File? && Sha256(u[q].content) == copies[i].sha256
    {
      BuiltBefore(t, copies, copy, c, i);
    }
  }

  lemma DirectoriesBuilt(t: Tree, copies: seq<Copy>, copy: Copy, c: Content)
    requires Built(t, copies)
    requires var p := Target(copy.relative);
      p !in WithParents(t, p) && forall q :: q in Parents(p) ==> q !in t || t[q] == Dir
    ensures var u := WithParents(t, Target(copy.relative))[Target(copy.relative) := File(c)];
      forall q :: q in Directories(copies + [copy]) ==> q in u && u[q] == Dir
  {
    Appended(copies, copy);
    assert forall q :: q in Directories(copies) ==> q in t && t[q] == Dir;
  }

  /** An earlier copy is still there. */
  lemma BuiltBefore(t: Tree, copies: seq<Copy>, copy: Copy, c: Content, i: nat)
    requires Built(t, copies) && i < |copies|
    requires var p := Target(copy.relative);
      p !in WithParents(t, p) && forall q :: q in Parents(p) ==> q !in t || t[q] == Dir
    ensures var p := Target(copy.relative);
      var u := WithParents(t, p)[p := File(c)];
      var q := Target(copies[i].relative);
      q in u && u[q] == t[q] && u[q].File? && Sha256(u[q].content) == copies[i].sha256
  {
    var q := Target(copies[i].relative);
    assert q in t && t[q].File?;
  }

  lemma Completed(t: Tree, copies: seq<Copy>, report: Report)
    requires Built(t, copies) && ([REPORT] in t ==> t[[REPORT]] != Dir)
    ensures Complete(t[[REPORT] := File(ReportOf(report, copies))], copies, report)
  {
  }

  // ---------- The outcome ----------

  /** Success leaves the whole new tree and nothing else; an exception leaves the old tree or the whole new one, unless
      the restoration itself failed, and then the old tree is where it was set aside. */
  ghost predicate Settled(status: Status, restored: Option<Status>, d: Disk, old': Option<Tree>, copies: seq<Copy>,
                          report: Report) {
    var new' := d.output.Some? && Complete(d.output.value, copies, report);
    && (status.Done? ==> new' && d.backup.None?)
    && (status.Threw? && (restored.None? || restored == Some(Done)) ==> d.output == old' || new')
    && (restored == Some(Threw) ==> old'.Some? && (d.backup == old' || d.output == old'))
  }

  /** The disk on which a promotion begins, and how many operations were made before it. */
  datatype Start = Start(disk: Disk, clock: nat)

  ghost function PromoteFrom(start: Start, faults: nat -> Fault): Promoted {
    Promote(start.disk, LuckAt(start.disk, faults, start.clock))
  }

  /** None when there was nothing to restore; a restoration that was needed and skipped counts as one that failed. */
  ghost function Restored(at: Option<Start>, faults: nat -> Fault): Option<Status> {
    if at.None? then None else PromoteFrom(at.value, faults).restored
  }

  /** Without a promotion the output and the backup are as they were; it begins with them as they were and the whole new
      tree beside them, and the output ends where the promotion left it, as does the backup if that did not succeed. */
  ghost predicate Follows(at: Option<Start>, faults: nat -> Fault, d0: Disk, status: Status, d: Disk, copies: seq<Copy>,
                          report: Report) {
    match at
    case None => !status.Done? && d.output == d0.output && d.backup == d0.backup
    case Some(start) =>
      var p := PromoteFrom(start, faults);
      && start.disk.output == d0.output && start.disk.backup == d0.backup
      && start.disk.temporary.Some? && Complete(start.disk.temporary.value, copies, report)
      && d.output == p.last.output && (p.status.Done? || d.backup == p.last.backup)
      && (status.Done? ==> p.status.Done? && d.backup.None?) && (p.status.Died? ==> status.Died?)
  }

  lemma FollowsSettles(at: Option<Start>, faults: nat -> Fault, d0: Disk, status: Status, d: Disk, copies: seq<Copy>,
                       report: Report)
    requires Follows(at, faults, d0, status, d, copies, report) && NoLeftover(d0)
    ensures Settled(status, Restored(at, faults), d, d0.output, copies, report)
  {
    if at.Some? { PromotionSettles(at.value.disk, copies, report); }
  }

  lemma FollowsFrom(at: Option<Start>, faults: nat -> Fault, d1: Disk, d0: Disk, status: Status, d: Disk,
                    copies: seq<Copy>, report: Report)
    requires Follows(at, faults, d1, status, d, copies, report) && d1.output == d0.output && d1.backup == d0.backup
    ensures Follows(at, faults, d0, status, d, copies, report)
  {
  }

  /** Dropping the temporary directory may only turn success into failure. */
  lemma FollowsAfter(at: Option<Start>, faults: nat -> Fault, d1: Disk, d0: Disk, s: Status, status: Status, d: Disk,
                     d': Disk, copies: seq<Copy>, report: Report)
    requires Follows(at, faults, d1, s, d, copies, report) && d1.output == d0.output && d1.backup == d0.backup
    requires d'.output == d.output && d'.backup == d.backup && (status == s || (!s.Died? && !status.Done?))
    ensures Follows(at, faults, d0, status, d', copies, report)
  {
  }

  lemma BuiltAside(seen0: seq<Disk>, seen: seq<Disk>, d: Disk)
    requires OnlyTemporary(seen0, seen, d) && |seen0| > 0 && |seen| > 0
    requires seen0[|seen0| - 1].output == d.output && seen0[|seen0| - 1].backup == d.backup
    ensures seen[|seen| - 1].output == d.output && seen[|seen| - 1].backup == d.backup
  {
    if |seen| == |seen0| { assert seen[..|seen0|] == seen; }
  }

  lemma StillIntact(seen0: seq<Disk>, seen: seq<Disk>, d: Disk, copies: seq<Copy>, report: Report)
    requires AlwaysIntact(seen0, d.output, copies, report) && OnlyTemporary(seen0, seen, d)
    ensures AlwaysIntact(seen, d.output, copies, report)
  {
    assert forall i :: 0 <= i < |seen0| ==> seen[..|seen0|][i] == seen[i];
  }

  lemma PromotedIntact(seen0: seq<Disk>, seen: seq<Disk>, old': Option<Tree>, copies: seq<Copy>, report: Report)
    requires AlwaysIntact(seen0, old', copies, report)
    requires |seen0| <= |seen| && seen[..|seen0|] == seen0
    requires forall i :: |seen0| <= i < |seen| ==> Intact(seen[i], old', copies, report)
    ensures AlwaysIntact(seen, old', copies, report)
  {
    assert forall i :: 0 <= i < |seen0| ==> seen[..|seen0|][i] == seen[i];
  }

  // ---------- The promotion as a function ----------

  datatype Promoted = Promoted(states: seq<Disk>, last: Disk, status: Status, restored: Option<Status>)

  /** How the operations of a promotion go: whether the output is seen, setting it aside, the promotion itself, whether
      the backup is seen, and its restoration. */
  datatype Luck = Luck(sees: Fault, aside: Fault, promote: Fault, finds: Fault, restore: Fault)

  function LuckAt(d: Disk, faults: nat -> Fault, clock: nat): Luck {
    var next := if d.output.Some? && !faults(clock).Fails? then clock + 2 else clock + 1;
    Luck(faults(clock), faults(clock + 1), faults(next), faults(next + 1), faults(next + 2))
  }

  function RenameStatus(d: Disk, from: Place, to: Place, fault: Fault): Status {
    if fault.Dies? then Died else if fault.Fails? || !Renamable(d, from, to) then Threw else Done
  }

  function RenameResult(d: Disk, from: Place, to: Place, fault: Fault): Disk {
    if RenameStatus(d, from, to, fault).Done? then Renamed(d, from, to) else d
  }

  function Restoration(d: Disk, finds: Fault, restore: Fault): Promoted {
    if finds.Dies? then Promoted([d], d, Died, None)
    else if d.backup.None? then Promoted([d], d, Threw, None)
    else if finds.Fails? then Promoted([d], d, Threw, Some(Threw))
    else
      var back := RenameStatus(d, Backup, Output, restore);
      var last := RenameResult(d, Backup, Output, restore);
      Promoted([d, last], last, if back.Died? then Died else Threw, Some(back))
  }

  function Landing(d: Disk, promote: Fault, finds: Fault, restore: Fault): Promoted {
    var status, last := RenameStatus(d, Temporary, Output, promote), RenameResult(d, Temporary, Output, promote);
    if status.Threw? then Restoration(last, finds, restore) else Promoted([last], last, status, None)
  }

  function Aside(d: Disk, sees: Fault, aside: Fault): Promoted {
    if sees.Dies? then Promoted([d], d, Died, None)
    else if d.output.None? || sees.Fails? then Promoted([d], d, Done, None)
    else
      var last := RenameResult(d, Output, Backup, aside);
      Promoted([last], last, RenameStatus(d, Output, Backup, aside), None)
  }

  function Promote(d: Disk, luck: Luck): Promoted {
    var first := Aside(d, luck.sees, luck.aside);
    if !first.status.Done? then first
    else
      var second := Landing(first.last, luck.promote, luck.finds, luck.restore);
      second.(states := first.states + second.states)
  }

  /** Every state since then is one of these. */
  ghost predicate Through(seen0: seq<Disk>, seen: seq<Disk>, states: seq<Disk>) {
    && |seen0| <= |seen| && seen[..|seen0|] == seen0
    && forall i :: |seen0| <= i < |seen| ==> seen[i] in states
  }

  lemma AsideIntact(d: Disk, sees: Fault, aside: Fault, copies: seq<Copy>, report: Report)
    requires NoLeftover(d)
    ensures var first := Aside(d, sees, aside);
      && (forall s :: s in first.states ==> Intact(s, d.output, copies, report))
      && Intact(first.last, d.output, copies, report) && first.last.temporary == d.temporary
      && (first.status.Done? ==> NoLeftover(first.last) || first.last.backup == d.output)
  {
  }

  lemma LandingIntact(d: Disk, old': Option<Tree>, promote: Fault, finds: Fault, restore: Fault, copies: seq<Copy>,
                      report: Report)
    requires d.temporary.Some? && Complete(d.temporary.value, copies, report)
    requires Intact(d, old', copies, report) && (NoLeftover(d) || d.backup == old')
    ensures forall s :: s in Landing(d, promote, finds, restore).states ==> Intact(s, old', copies, report)
  {
  }

  /** Where the old tree is while the renames go on. */
  lemma PromotionIntact(d: Disk, old': Option<Tree>, copies: seq<Copy>, report: Report)
    requires d.output == old' && d.temporary.Some? && Complete(d.temporary.value, copies, report)
    requires NoLeftover(d)
    ensures forall luck, s :: s in Promote(d, luck).states ==> Intact(s, old', copies, report)
  {
    forall luck, s | s in Promote(d, luck).states ensures Intact(s, old', copies, report) {
      AsideIntact(d, luck.sees, luck.aside, copies, report);
      var first := Aside(d, luck.sees, luck.aside);
      if first.status.Done? && s !in first.states {
        LandingIntact(first.last, old', luck.promote, luck.finds, luck.restore, copies, report);
      }
    }
  }

  lemma PromotionSettles(d: Disk, copies: seq<Copy>, report: Report)
    requires d.temporary.Some? && Complete(d.temporary.value, copies, report)
    ensures forall luck ::
      var o := Promote(d, luck);
      && (o.status.Done? ==> o.last.output == d.temporary)
      && (o.status.Threw? && (o.restored.None? || o.restored == Some(Done)) && NoLeftover(d) ==>
            o.last.output == d.output)
      && (o.restored == Some(Threw) && NoLeftover(d) ==>
            o.status.Threw? && d.output.Some? && (o.last.backup == d.output || o.last.output == d.output))
  {
  }

  /** Where the output was set aside and the promotion then failed, it is put back unless looking for it or putting it
      back fails as well. */
  lemma PromotionRestores(d: Disk, luck: Luck)
    requires d.output.Some? && d.temporary.Some? && d.backup.None?
    requires luck.sees.Works? && luck.aside.Works? && luck.promote.Fails?
    ensures var o := Promote(d, luck);
      && (luck.finds.Works? && luck.restore.Works? ==> o.status.Threw? && o.last == d)
      && (luck.finds.Works? && luck.restore.Fails? ==> o.status.Threw? && o.last == Disk(None, d.temporary, d.output))
  {
  }

  lemma PromotionSucceeds(d: Disk)
    requires d.temporary.Some?
    ensures d.backup.None? ==>
      forall luck: Luck :: luck.sees.Works? && luck.aside.Works? && luck.promote.Works? ==>
        Promote(d, luck).status.Done?
  {
  }

  /** A throw whose restoration was not needed or worked leaves the output wholly old or wholly new. */
  ghost predicate RestoresOutput(d: Disk) {
    forall luck ::
      var o := Promote(d, luck);
      o.status.Threw? && (o.restored.None? || o.restored == Some(Done)) ==>
        o.last.output == d.output || o.last.output == d.temporary
  }

  const FAILS: Fault := Fails(Residue(None, {}))

  /** That holds exactly when there is nothing yet under the name the output would be set aside by, or it cannot be
      moved onto the output: otherwise the restoration moves what was found under that name into the place of the
      output. */
  lemma RestorationIsExact(d: Disk)
    requires d.temporary.Some?
    ensures RestoresOutput(d) <==> NoLeftover(d) || d.backup == d.temporary
  {
    if !NoLeftover(d) && d.backup != d.temporary {
      var o := Promote(d, Luck(FAILS, Works, FAILS, Works, Works));
      assert o.restored == Some(Done) && o.last.output == d.backup;
    }
  }

  /** Such a disk: no output yet, and a leftover under the name the output would be set aside by. */
  lemma LeftoverIsPromoted(d: Disk, leftover: Tree, built: Tree)
    requires d == Disk(None, Some(built), Some(leftover)) && leftover != built
    ensures var o := Promote(d, Luck(Works, Works, FAILS, Works, Works));
      o.status.Threw? && o.restored == Some(Done) && o.last.output == Some(leftover) && o.last.output != d.output
  {
  }

  // ---------- The listed digests ----------

  /** The new tree, path by path: the report, the copies' files with the digests that were asked for, and the
      directories above them; nothing else. */
  lemma CompleteExactly(t: Tree, copies: seq<Copy>, report: Report)
    requires Complete(t, copies, report)
    ensures forall p :: p in t ==>
      || p == [REPORT]
      || (exists i :: 0 <= i < |copies| && p <= Target(copies[i].relative))
    ensures forall i, n :: 0 <= i < |copies| && 0 < n < |Target(copies[i].relative)| ==>
      var q := Target(copies[i].relative)[..n]; q in t && t[q] == Dir
    ensures forall i :: 0 <= i < |copies| && Target(copies[i].relative) != [REPORT] ==>
      exists c :: HoldsFile(t, Target(copies[i].relative), c) && Sha256(c) == copies[i].sha256
  {
    forall p | p in t && p != [REPORT] ensures exists i :: 0 <= i < |copies| && p <= Target(copies[i].relative) {
      if p in Targets(copies) {
        var i :| 0 <= i < |copies| && p == Target(copies[i].relative);
      } else {
        var i :| 0 <= i < |copies| && p in Parents(Target(copies[i].relative));
      }
    }
    forall i, n | 0 <= i < |copies| && 0 < n < |Target(copies[i].relative)|
      ensures var q := Target(copies[i].relative)[..n]; q in t && t[q] == Dir
    {
      assert Target(copies[i].relative)[..n] in Parents(Target(copies[i].relative));
      assert Target(copies[i].relative)[..n] in Directories(copies);
    }
    forall i | 0 <= i < |copies| && Target(copies[i].relative) != [REPORT]
      ensures exists c :: HoldsFile(t, Target(copies[i].relative), c) && Sha256(c) == copies[i].sha256
    {
      assert HoldsFile(t, Target(copies[i].relative), t[Target(copies[i].relative)].content);
    }
  }

  ghost predicate HoldsFile(t: Tree, p: Path, c: Content) {
    p in t && t[p] == File(c)
  }

  lemma CompleteReports(t: Tree, copies: seq<Copy>, report: Report)
    requires Complete(t, copies, report)
    ensures Reports(t, copies, report)
  {
    var files := t[[REPORT]].content.report.files;
    forall i | 0 <= i < |copies|
      ensures files[i].path == copies[i].relative
      ensures Target(copies[i].relative) != [REPORT] ==>
        files[i].sha256 == Sha256(t[Target(copies[i].relative)].content)
    {
    }
  }

  /** The file in which the digests are listed. */
  ghost predicate HasReport(t: Tree) {
    [REPORT] in t && t[[REPORT]].File? && t[[REPORT]].content.Json?
  }

  /** Every listed digest is the one of the file it is listed for. */
  ghost predicate DigestsMatch(t: Tree)
    requires HasReport(t)
  {
    var files := t[[REPORT]].content.report.files;
    forall i :: 0 <= i < |files| ==>
      var p := Target(files[i].path);
      p in t && t[p].File? && Sha256(t[p].content) == files[i].sha256
  }

  /** That holds for the new tree exactly when no copy of another content has the name of the report: the report is
      written last, over such a copy. */
  lemma DigestsMatchExactly(t: Tree, copies: seq<Copy>, report: Report)
    requires Complete(t, copies, report)
    ensures HasReport(t)
    ensures DigestsMatch(t) <==>
      forall i :: 0 <= i < |copies| && Target(copies[i].relative) == [REPORT] ==>
        copies[i].sha256 == Sha256(t[[REPORT]].content)
  {
    var files := t[[REPORT]].content.report.files;
    forall i | 0 <= i < |copies|
      ensures var p := Target(files[i].path);
        && files[i] == Listed(copies[i].relative, copies[i].sha256) && p in t && t[p].File?
        && (Sha256(t[p].content) == files[i].sha256 <==>
              (p == [REPORT] ==> copies[i].sha256 == Sha256(t[[REPORT]].content)))
    {
    }
  }

  /** The name of the report passes the guard of stageCopies. */
  lemma ReportIsAdmitted()
    ensures Target(REPORT) == [REPORT] && SafeName(REPORT)
  {
    NameIsTarget(REPORT);
  }

  /** So a list with a copy under that name can be staged, and then its report lists a digest its file does not have. */
  lemma ReportOverwritesCopy(copies: seq<Copy>, source: string, data: string, t: Tree, report: Report)
    requires Copy(source, REPORT, Sha256(Bytes(data))) in copies && Complete(t, copies, report)
    ensures HasReport(t) && !DigestsMatch(t)
  {
    var i :| 0 <= i < |copies| && copies[i] == Copy(source, REPORT, Sha256(Bytes(data)));
    ReportIsAdmitted();
    DigestsMatchExactly(t, copies, report);
  }
}
