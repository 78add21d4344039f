/** The sweep over the memory map of the process in tests/android/protection.c. */
module ReadOnlySweep {
  import opened Common

  /** A line of /proc/self/maps: a mapping with its permissions, or one that does not scan. */
  datatype Line = Mapping(start: nat, end: nat, readable: bool, writable: bool, executable: bool) | Malformed

  predicate Holds(line: Line, a: nat) {
    line.Mapping? && line.start <= a < line.end
  }

  predicate OnlyReadable(line: Line) {
    line.Mapping? && line.readable && !line.writable && !line.executable
  }

  /** Some mapping of the address can only be read. */
  ghost predicate ReadOnlyAt(lines: seq<Line>, a: nat) {
    exists i :: 0 <= i < |lines| && Holds(lines[i], a) && OnlyReadable(lines[i])
  }

  ghost predicate ReadOnlyRange(lines: seq<Line>, from: nat, to: nat) {
    forall a | from <= a < to :: ReadOnlyAt(lines, a)
  }

  /** As the kernel lists them: mappings that are not empty, ascending, and without overlap. */
  ghost predicate Ascending(lines: seq<Line>) {
    && (forall i :: 0 <= i < |lines| && lines[i].Mapping? ==> lines[i].start < lines[i].end)
    && (forall i, j :: 0 <= i < j < |lines| && lines[i].Mapping? && lines[j].Mapping? ==>
          lines[i].end <= lines[j].start)
  }

  /** A line that says nothing about addresses from `covered` up to `to`. */
  predicate Skipped(line: Line, covered: nat, to: nat) {
    line.Malformed? || line.end <= covered || line.start >= to
  }

  /** In an ascending list, an address that the lines before do not reach, and that this line does not make read-only,
      is not read-only at all. */
  lemma Gap(lines: seq<Line>, i: nat, covered: nat, to: nat)
    requires Ascending(lines) && i < |lines| && covered < to
    requires forall j :: 0 <= j < i ==> Skipped(lines[j], covered, to)
    requires !Skipped(lines[i], covered, to) && (lines[i].start > covered || !OnlyReadable(lines[i]))
    ensures !ReadOnlyAt(lines, covered)
  {
  }

  lemma Extended(lines: seq<Line>, i: nat, from: nat, covered: nat)
    requires i < |lines| && OnlyReadable(lines[i]) && lines[i].start <= covered
    requires ReadOnlyRange(lines, from, covered)
    ensures ReadOnlyRange(lines, from, lines[i].end)
  {
    forall a | covered <= a < lines[i].end ensures ReadOnlyAt(lines, a) {
      assert Holds(lines[i], a);
    }
  }

  /** In an ascending list that goes on, an address that no line reaches is not read-only. */
  lemma Unreached(lines: seq<Line>, covered: nat, to: nat)
    requires covered < to && forall j :: 0 <= j < |lines| ==> Skipped(lines[j], covered, to)
    ensures !ReadOnlyAt(lines, covered)
  {
  }

  /** read_only; without a file there are no lines. */
  method ReadOnly(maps: Option<seq<Line>>, from: nat, to: nat) returns (ok: bool)
    ensures ok ==> maps.Some? && from < to && ReadOnlyRange(maps.value, from, to)
    ensures maps.Some? && Ascending(maps.value) ==> (ok <==> from < to && ReadOnlyRange(maps.value, from, to))
  {
    if maps.None? { return false; }
    var lines := maps.value;
    var covered: nat := from;
    ghost var stopped := false;
    for i := 0 to |lines|
      invariant from <= covered && ReadOnlyRange(lines, from, covered)
      invariant !stopped && (from < to ==> covered < to)
      invariant forall j :: 0 <= j < i ==> Skipped(lines[j], covered, to)
    {
      var line := lines[i];
      if line.Malformed? { continue; }
      if line.end <= covered || line.start >= to { continue; }
      if line.start > covered || !line.readable || line.writable || line.executable {
        if Ascending(lines) && covered < to { Gap(lines, i, covered, to); }
        stopped := true;
        break;
      }
      Extended(lines, i, from, covered);
      covered := line.end;
      if covered >= to { break; }
    }
    if !stopped && covered < to { Unreached(lines, covered, to); }
    return from < to && covered >= to;
  }
}
