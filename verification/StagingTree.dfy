/** Directory trees and relative names, as the Android staging script uses them (scripts/stage-android-addons.js). */
module StagingTree {
  import opened Common

  type Path = seq<string>

  const REPORT: string := "utexo-android-staging.json"
  const PACKAGE: string := "@utexo/rgb-lightning-node-bare"

  datatype Listed = Listed(path: string, sha256: Digest<Content>)
  datatype Report = Report(schemaVersion: int, package: string, files: seq<Listed>)
  datatype Content = Bytes(data: string) | Json(report: Report)
  datatype Node = File(content: Content) | Dir | Link

  /** What a directory contains, by the components of the relative path. */
  type Tree = map<Path, Node>

  // ---------- Relative names ----------

  /** The parts of a name between separators; `both` also separates at backslashes. */
  function Parts(s: string, both: bool): (r: seq<string>)
    ensures |r| > 0
  {
    if s == "" then [""]
    else
      var rest := Parts(s[1..], both);
      if s[0] == '/' || (both && s[0] == '\\') then [""] + rest
      else [[s[0]] + rest[0]] + rest[1..]
  }

  predicate IsAbsolute(s: string) {
    s != "" && s[0] == '/'
  }

  /** The guard of stageCopies on a copy's relative name. */
  predicate SafeName(s: string) {
    !IsAbsolute(s) && ".." !in Parts(s, true)
  }

  function Normal(parts: seq<string>): (r: Path)
    ensures forall p :: p in r ==> p in parts && p != "" && p != "."
  {
    if parts == [] then []
    else
      var rest := Normal(parts[1..]);
      if parts[0] == "" || parts[0] == "." then rest else [parts[0]] + rest
  }

  /** What path.join makes of a name below a directory, for names without "..". */
  function Target(s: string): Path {
    Normal(Parts(s, false))
  }

  lemma {:induction false} PartsOfMore(a: string, s: string)
    requires '/' !in a
    ensures Parts(a + "/" + s, false) == [a] + Parts(s, false)
  {
    var t := a + "/" + s;
    if a == "" {
      assert t[1..] == s;
    } else {
      assert t[1..] == a[1..] + "/" + s;
      PartsOfMore(a[1..], s);
      assert a == [a[0]] + a[1..];
    }
  }

  lemma {:induction false} PartsOfWord(s: string)
    requires '/' !in s
    ensures Parts(s, false) == [s]
  {
    if s != "" {
      PartsOfWord(s[1..]);
      assert s == [s[0]] + s[1..];
    }
  }

  /** A name is joined part by part: empty parts and single dots lead nowhere, and any other part one level down. */
  lemma TargetOfMore(a: string, s: string)
    requires '/' !in a
    ensures Target(a + "/" + s) == (if a == "" || a == "." then [] else [a]) + Target(s)
    ensures Target(a) == if a == "" || a == "." then [] else [a]
  {
    PartsOfMore(a, s);
    PartsOfWord(a);
    assert ([a] + Parts(s, false))[1..] == Parts(s, false);
    assert Normal([a][1..]) == [];
  }

  /** A part that contains no backslash is not split further at backslashes. */
  lemma {:induction false} FinerParts(s: string, p: string)
    requires p in Parts(s, false) && '\\' !in p
    ensures p in Parts(s, true)
    ensures p == Parts(s, false)[0] ==> p == Parts(s, true)[0]
  {
    if s != "" {
      var coarse, fine := Parts(s[1..], false), Parts(s[1..], true);
      if s[0] == '/' {
        if p in coarse { FinerParts(s[1..], p); }
      } else {
        assert Parts(s, false) == [[s[0]] + coarse[0]] + coarse[1..];
        if p == [s[0]] + coarse[0] {
          assert s[0] in p;
          assert forall c :: c in coarse[0] ==> c in p;
          FinerParts(s[1..], coarse[0]);
        }
        if p in coarse[1..] {
          FinerTail(s[1..], p);
        }
      }
    }
  }

  lemma {:induction false} FinerTail(s: string, p: string)
    requires p in Parts(s, false)[1..] && '\\' !in p
    ensures p in Parts(s, true)[1..]
  {
    if s != "" {
      var coarse, fine := Parts(s[1..], false), Parts(s[1..], true);
      if s[0] == '/' {
        assert Parts(s, false)[1..] == coarse && Parts(s, true)[1..] == fine;
        FinerParts(s[1..], p);
      } else {
        assert Parts(s, false)[1..] == coarse[1..];
        FinerTail(s[1..], p);
        if s[0] == '\\' {
          assert Parts(s, true)[1..] == fine;
          assert fine == [fine[0]] + fine[1..];
        } else {
          assert Parts(s, true)[1..] == fine[1..];
        }
      }
    }
  }

  /** A file or directory name. */
  predicate Good(s: string) {
    s != "" && s != "." && s != ".." && '/' !in s && '\\' !in s
  }

  lemma {:induction false} PartsOfOne(s: string, both: bool)
    requires '/' !in s && '\\' !in s
    ensures Parts(s, both) == [s]
  {
    if s != "" {
      PartsOfOne(s[1..], both);
      assert s == [s[0]] + s[1..];
    }
  }

  lemma NameIsTarget(s: string)
    requires Good(s)
    ensures Target(s) == [s] && SafeName(s)
  {
    PartsOfOne(s, false);
    PartsOfOne(s, true);
    assert Normal([s]) == [s] + Normal([s][1..]);
  }

  /** An admitted name stays below the directory it is joined to. */
  lemma SafeNameStaysBelow(s: string)
    requires SafeName(s)
    ensures ".." !in Target(s) && "" !in Target(s) && "." !in Target(s)
  {
    if ".." in Target(s) {
      FinerParts(s, "..");
    }
  }

  predicate IsSeparator(c: char) {
    c == '/' || c == '\\'
  }

  /** Two dots stand alone between separators, or between one and an end. */
  ghost predicate DotsAt(s: string, i: nat) {
    && i + 2 <= |s| && s[i] == '.' && s[i + 1] == '.'
    && (i == 0 || IsSeparator(s[i - 1])) && (i + 2 == |s| || IsSeparator(s[i + 2]))
  }

  lemma {:induction false} FirstPart(s: string)
    ensures Parts(s, true)[0] == ".." <==>
      |s| >= 2 && s[0] == '.' && s[1] == '.' && (|s| == 2 || IsSeparator(s[2]))
    ensures Parts(s, true)[0] == "." <==> s != "" && s[0] == '.' && (|s| == 1 || IsSeparator(s[1]))
    ensures Parts(s, true)[0] == "" <==> s == "" || IsSeparator(s[0])
  {
    if s != "" {
      FirstPart(s[1..]);
      Prepended(s[0], Parts(s[1..], true)[0]);
    }
  }

  lemma Prepended(c: char, r: string)
    ensures [c] + r == ".." <==> c == '.' && r == "."
    ensures [c] + r == "." <==> c == '.' && r == ""
  {
    assert ([c] + r)[0] == c && ([c] + r)[1..] == r;
  }

  lemma {:induction false} LaterParts(s: string)
    ensures ".." in Parts(s, true)[1..] <==> exists i: nat :: i > 0 && DotsAt(s, i)
  {
    if s != "" {
      var t := s[1..];
      LaterParts(t);
      FirstPart(t);
      var rest := Parts(t, true);
      assert IsSeparator(s[0]) ==> Parts(s, true)[1..] == rest && rest == [rest[0]] + rest[1..];
      assert !IsSeparator(s[0]) ==> Parts(s, true)[1..] == rest[1..];
      forall i: nat | i > 1 ensures DotsAt(s, i) <==> DotsAt(t, i - 1) {}
      assert DotsAt(s, 1) <==> IsSeparator(s[0]) && rest[0] == "..";
      if i: nat :| i > 0 && DotsAt(t, i) { assert DotsAt(s, i + 1); }
    }
  }

  /** The guard refuses exactly absolute names and names with a component "..", whichever separators are around it. */
  lemma SafeNameExactly(s: string)
    ensures SafeName(s) <==> (s == "" || s[0] != '/') && forall i: nat :: !DotsAt(s, i)
  {
    var parts := Parts(s, true);
    assert parts == [parts[0]] + parts[1..];
    FirstPart(s);
    LaterParts(s);
    assert DotsAt(s, 0) <==> parts[0] == "..";
  }

  // ---------- Trees ----------

  /** The proper ancestors of a path inside its tree. */
  function Parents(p: Path): set<Path> {
    set n | 0 < n < |p| :: p[..n]
  }
}
