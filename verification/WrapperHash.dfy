/** What wrapperSha256 of scripts/release-contract.js hashes. */
module WrapperHash {
  import opened Common
  import opened Utf16

  type Name = seq<Unit>

  /** One file of the stream: the UTF-8 of its name, and its content. */
  datatype Item = Item(name: seq<Byte>, content: seq<Byte>)

  // ---------- The order of names ----------

  /** The order of Array.prototype.sort: by code units. */
  predicate Precedes(a: Name, b: Name) {
    a == [] || (b != [] && (a[0] < b[0] || (a[0] == b[0] && Precedes(a[1..], b[1..]))))
  }

  lemma {:induction false} Total(a: Name, b: Name)
    ensures Precedes(a, b) || Precedes(b, a)
    ensures Precedes(a, b) && Precedes(b, a) ==> a == b
  {
    if a != [] && b != [] {
      Total(a[1..], b[1..]);
      assert a == [a[0]] + a[1..] && b == [b[0]] + b[1..];
    }
  }

  /** A name comes before another one if it begins it, or has the smaller code unit where they first differ. */
  lemma {:induction false} PrecedesMeans(a: Name, b: Name)
    ensures Precedes(a, b) <==> a <= b || exists k :: DifferAt(a, b, k) && a[k] < b[k]
  {
    if a != [] && b != [] && a[0] == b[0] {
      var c, d := a[1..], b[1..];
      PrecedesMeans(c, d);
      assert a == [a[0]] + c && b == [b[0]] + d;
      if k :| DifferAt(c, d, k) && c[k] < d[k] { Later(a, b, k + 1); }
      if k :| DifferAt(a, b, k) && a[k] < b[k] { Later(a, b, k); }
    } else if a != [] && b != [] {
      assert DifferAt(a, b, 0);
    }
  }

  ghost predicate DifferAt(a: Name, b: Name, k: int) {
    0 <= k < |a| && k < |b| && a[k] != b[k] && a[..k] == b[..k]
  }

  lemma Later(a: Name, b: Name, k: nat)
    requires 0 < k < |a| && k < |b| && a[0] == b[0]
    ensures DifferAt(a, b, k) <==> DifferAt(a[1..], b[1..], k - 1)
  {
    assert a[..k] == [a[0]] + a[1..][..k - 1] && b[..k] == [b[0]] + b[1..][..k - 1];
  }

  lemma {:induction false} Transitive(a: Name, b: Name, c: Name)
    requires Precedes(a, b) && Precedes(b, c)
    ensures Precedes(a, c)
  {
    if a != [] && a[0] == b[0] && b[0] == c[0] { Transitive(a[1..], b[1..], c[1..]); }
  }

  ghost predicate Ordered(s: seq<Name>) {
    forall i, j :: 0 <= i < j < |s| ==> Precedes(s[i], s[j])
  }

  function Insert(x: Name, s: seq<Name>): seq<Name> {
    if s == [] then [x]
    else if Precedes(x, s[0]) then [x] + s
    else [s[0]] + Insert(x, s[1..])
  }

  /** [...files].sort() */
  function Sorted(s: seq<Name>): seq<Name> {
    if s == [] then [] else Insert(s[0], Sorted(s[1..]))
  }

  lemma Before(first: Name, x: Name, s: seq<Name>, r: seq<Name>)
    requires Precedes(first, x) && forall j :: 0 <= j < |s| ==> Precedes(first, s[j])
    requires multiset(r) == multiset(s) + multiset{x}
    ensures forall j :: 0 <= j < |r| ==> Precedes(first, r[j])
  {
    forall j | 0 <= j < |r| ensures Precedes(first, r[j]) {
      assert r[j] in multiset(r);
      assert r[j] == x || r[j] in s;
    }
  }

  lemma {:induction false} InsertKeeps(x: Name, s: seq<Name>)
    requires Ordered(s)
    ensures Ordered(Insert(x, s)) && multiset(Insert(x, s)) == multiset(s) + multiset{x}
  {
    if s != [] {
      assert s == [s[0]] + s[1..];
      if Precedes(x, s[0]) {
        forall j | 0 <= j < |s| ensures Precedes(x, s[j]) {
          if j > 0 { Transitive(x, s[0], s[j]); }
        }
      } else {
        Total(x, s[0]);
        InsertKeeps(x, s[1..]);
        Before(s[0], x, s[1..], Insert(x, s[1..]));
      }
    }
  }

  lemma {:induction false} SortedIsSort(s: seq<Name>)
    ensures Ordered(Sorted(s)) && multiset(Sorted(s)) == multiset(s)
  {
    if s != [] {
      SortedIsSort(s[1..]);
      InsertKeeps(s[0], Sorted(s[1..]));
      assert s == [s[0]] + s[1..];
    }
  }

  lemma SameFirst(a: seq<Name>, b: seq<Name>)
    requires Ordered(a) && Ordered(b) && multiset(a) == multiset(b) && a != [] && b != []
    ensures a[0] == b[0]
  {
    assert a[0] in multiset(b) && b[0] in multiset(a);
    assert a[0] in b && b[0] in a;
    Total(a[0], b[0]);
  }

  lemma Remaining(a: seq<Name>)
    requires a != []
    ensures multiset(a[1..]) == multiset(a) - multiset{a[0]}
  {
    assert a == [a[0]] + a[1..];
  }

  /** There is only one way to put the same names in order. */
  lemma {:induction false} OrderIsUnique(a: seq<Name>, b: seq<Name>)
    requires Ordered(a) && Ordered(b) && multiset(a) == multiset(b)
    ensures a == b
  {
    assert |a| == |multiset(a)| && |b| == |multiset(b)|;
    if a != [] {
      SameFirst(a, b);
      Remaining(a);
      Remaining(b);
      OrderIsUnique(a[1..], b[1..]);
      assert a == [a[0]] + a[1..] && b == [b[0]] + b[1..];
    }
  }

  // ---------- The stream ----------

  function Frame(item: Item): seq<Byte> {
    item.name + [0] + item.content + [0]
  }

  function Stream(items: seq<Item>): seq<Byte> {
    if items == [] then [] else Frame(items[0]) + Stream(items[1..])
  }

  lemma {:induction false} StreamJoined(a: seq<Item>, b: seq<Item>)
    ensures Stream(a + b) == Stream(a) + Stream(b)
  {
    if a == [] {
      assert a + b == b;
    } else {
      StreamJoined(a[1..], b);
      assert (a + b)[1..] == a[1..] + b;
      Grouped(Frame(a[0]), Stream(a[1..]), Stream(b));
    }
  }

  /** One file is its name and its content, each with a NUL behind it; with StreamJoined, that is what any stream is. */
  lemma StreamOfOne(name: seq<Byte>, content: seq<Byte>)
    ensures Stream([Item(name, content)]) == name + [0] + content + [0] && Stream([]) == []
  {
    assert [Item(name, content)][1..] == [];
  }

  /** The sorted files with their contents. */
  function ItemOf(name: Name, content: seq<Byte>): Item {
    Item(Utf8(Text(name)), content)
  }

  ghost predicate AllRead(names: seq<Name>, contents: Name -> Option<seq<Byte>>) {
    forall i :: 0 <= i < |names| ==> contents(names[i]).Some?
  }

  ghost function Items(names: seq<Name>, contents: Name -> Option<seq<Byte>>): seq<Item>
    requires AllRead(names, contents)
  {
    seq(|names|, i requires 0 <= i < |names| => ItemOf(names[i], contents(names[i]).value))
  }

  lemma OneMore(names: seq<Name>, i: nat, contents: Name -> Option<seq<Byte>>)
    requires i < |names| && AllRead(names[..i], contents) && contents(names[i]).Some?
    ensures AllRead(names[..i + 1], contents)
    ensures var item := ItemOf(names[i], contents(names[i]).value);
      Stream(Items(names[..i + 1], contents)) == Stream(Items(names[..i], contents)) + Frame(item)
  {
    var item := ItemOf(names[i], contents(names[i]).value);
    assert Items(names[..i + 1], contents) == Items(names[..i], contents) + [item];
    StreamJoined(Items(names[..i], contents), [item]);
    assert Stream([item]) == Frame(item);
  }

  lemma Framed(bytes: seq<Byte>, item: Item)
    ensures bytes + (item.name + [0]) + item.content + [0] == bytes + Frame(item)
  {
  }

  /** The bytes that wrapperSha256 hashes, unless a file cannot be read. */
  method HashedBytes(files: seq<Name>, contents: Name -> Option<seq<Byte>>) returns (stream: Option<seq<Byte>>)
    ensures stream.Some? <==> AllRead(Sorted(files), contents)
    ensures stream.Some? ==> stream.value == Stream(Items(Sorted(files), contents))
  {
    var sorted := Sorted(files);
    var bytes: seq<Byte> := [];
    for i := 0 to |sorted|
      invariant AllRead(sorted[..i], contents) && bytes == Stream(Items(sorted[..i], contents))
    {
      var content := contents(sorted[i]);
      if content.None? { return None; }
      var item := ItemOf(sorted[i], content.value);
      OneMore(sorted, i, contents);
      Framed(bytes, item);
      bytes := bytes + (item.name + [0]);
      bytes := bytes + item.content;
      bytes := bytes + [0];
    }
    assert sorted[..|sorted|] == sorted;
    return Some(bytes);
  }

  /** The stream does not depend on the order in which the files are listed. */
  lemma OrderDoesNotMatter(a: seq<Name>, b: seq<Name>)
    requires multiset(a) == multiset(b)
    ensures Sorted(a) == Sorted(b)
  {
    SortedIsSort(a);
    SortedIsSort(b);
    OrderIsUnique(Sorted(a), Sorted(b));
  }

  // ---------- Reading the stream back ----------

  function UpToNul(s: seq<Byte>): (i: nat)
    ensures i <= |s|
    ensures forall k :: 0 <= k < i ==> s[k] != 0
    ensures i < |s| ==> s[i] == 0
  {
    if s == [] || s[0] == 0 then 0 else 1 + UpToNul(s[1..])
  }

  /** The items of a stream, if it is one. */
  function Parse(s: seq<Byte>): Option<seq<Item>>
    decreases |s|
  {
    if s == [] then Some([])
    else
      var i := UpToNul(s);
      if i == |s| then None
      else
        var t := s[i + 1..];
        var j := UpToNul(t);
        if j == |t| then None
        else
          var rest := Parse(t[j + 1..]);
          if rest.Some? then Some([Item(s[..i], t[..j])] + rest.value) else None
  }

  ghost predicate NulFree(items: seq<Item>) {
    forall i :: 0 <= i < |items| ==> 0 !in items[i].name && 0 !in items[i].content
  }

  lemma CutAtNul(a: seq<Byte>, b: seq<Byte>)
    requires 0 !in a
    ensures var s := a + [0] + b; UpToNul(s) == |a| && s[..|a|] == a && s[|a| + 1..] == b
  {
    var s := a + [0] + b;
    assert s[|a|] == 0;
    assert forall k :: 0 <= k < |a| ==> s[k] == a[k];
  }

  lemma FrameSplit(item: Item, rest: seq<Byte>)
    ensures Frame(item) + rest == item.name + [0] + (item.content + [0] + rest)
  {
  }

  lemma ParseFramed(item: Item, rest: seq<Byte>)
    requires 0 !in item.name && 0 !in item.content
    ensures var parsed := Parse(rest);
      Parse(Frame(item) + rest) == if parsed.Some? then Some([item] + parsed.value) else None
  {
    FrameSplit(item, rest);
    CutAtNul(item.name, item.content + [0] + rest);
    CutAtNul(item.content, rest);
  }

  lemma {:induction false} ParsesBack(items: seq<Item>)
    requires NulFree(items)
    ensures Parse(Stream(items)) == Some(items)
  {
    if items != [] {
      ParseFramed(items[0], Stream(items[1..]));
      ParsesBack(items[1..]);
      assert items == [items[0]] + items[1..];
    }
  }

  lemma NoNulBefore(s: seq<Byte>)
    ensures 0 !in s[..UpToNul(s)]
  {
  }

  lemma MoreNulFree(item: Item, rest: seq<Item>)
    requires 0 !in item.name && 0 !in item.content && NulFree(rest)
    ensures NulFree([item] + rest)
  {
  }

  lemma {:induction false} ParsedIsNulFree(s: seq<Byte>)
    ensures Parse(s).Some? ==> NulFree(Parse(s).value)
    decreases |s|
  {
    if Parse(s).Some? && s != [] {
      var t := s[UpToNul(s) + 1..];
      var rest := t[UpToNul(t) + 1..];
      ParsedIsNulFree(rest);
      NoNulBefore(s);
      NoNulBefore(t);
      MoreNulFree(Item(s[..UpToNul(s)], t[..UpToNul(t)]), Parse(rest).value);
    }
  }

  /** The files can be read back from the stream exactly when no name and no content has a NUL. */
  lemma ParseRecovers(items: seq<Item>)
    ensures Parse(Stream(items)) == Some(items) <==> NulFree(items)
  {
    ParsedIsNulFree(Stream(items));
    if NulFree(items) { ParsesBack(items); }
  }

  /** Otherwise different files can give the same stream: one file with NULs in its content, and two without. */
  lemma NulsCollide()
    ensures var one := [Item([97], [120, 0, 98, 0, 121])];
      var two := [Item([97], [120]), Item([98], [121])];
      one != two && Stream(one) == Stream(two)
  {
    var one, two := [Item([97], [120, 0, 98, 0, 121])], [Item([97], [120]), Item([98], [121])];
    assert one[1..] == [] && two[1..] == [two[1]] && two[1..][1..] == [];
    assert Stream(one) == [97, 0, 120, 0, 98, 0, 121, 0];
    assert Stream(two) == [97, 0, 120, 0, 98, 0, 121, 0];
    assert |one| != |two|;
  }

  ghost predicate WellFormedNames(names: seq<Name>) {
    forall i :: 0 <= i < |names| ==> Decode(names[i]).Some?
  }

  ghost predicate PlainNames(names: seq<Name>) {
    forall i :: 0 <= i < |names| ==> Plain(names[i])
  }

  /** Equal streams of files without NULs come from equally many files with the same texts for names and the same
      contents.  The names are the same too if both lists have well-formed ones, or one of them plain ones. */
  lemma SameStreamSameFiles(a: seq<Name>, contentsA: Name -> Option<seq<Byte>>,
                            b: seq<Name>, contentsB: Name -> Option<seq<Byte>>)
    requires AllRead(Sorted(a), contentsA) && AllRead(Sorted(b), contentsB)
    requires NulFree(Items(Sorted(a), contentsA)) && NulFree(Items(Sorted(b), contentsB))
    requires Stream(Items(Sorted(a), contentsA)) == Stream(Items(Sorted(b), contentsB))
    ensures |Sorted(a)| == |Sorted(b)|
    ensures forall i :: 0 <= i < |Sorted(a)| ==>
      Text(Sorted(a)[i]) == Text(Sorted(b)[i]) && contentsA(Sorted(a)[i]) == contentsB(Sorted(b)[i])
    ensures (WellFormedNames(Sorted(a)) && WellFormedNames(Sorted(b))) || PlainNames(Sorted(a)) ==>
      multiset(a) == multiset(b) && forall name :: name in a ==> contentsA(name) == contentsB(name)
  {
    var x, y := Sorted(a), Sorted(b);
    var items, others := Items(x, contentsA), Items(y, contentsB);
    ParsesBack(items);
    ParsesBack(others);
    assert |items| == |others|;
    forall i | 0 <= i < |x| ensures Text(x[i]) == Text(y[i]) && contentsA(x[i]) == contentsB(y[i]) {
      assert items[i] == others[i];
      Utf8Injective(Text(x[i]), Text(y[i]));
    }
    if (WellFormedNames(x) && WellFormedNames(y)) || PlainNames(x) {
      forall i | 0 <= i < |x| ensures x[i] == y[i] {
        WrittenAsItIs(x[i]);
        WrittenAsItIs(y[i]);
        WrittenAlone(x[i]);
      }
      SameNames(a, contentsA, b, contentsB);
    }
  }

  lemma SameNames(a: seq<Name>, contentsA: Name -> Option<seq<Byte>>, b: seq<Name>,
                  contentsB: Name -> Option<seq<Byte>>)
    requires |Sorted(a)| == |Sorted(b)|
    requires forall i :: 0 <= i < |Sorted(a)| ==>
      Sorted(a)[i] == Sorted(b)[i] && contentsA(Sorted(a)[i]) == contentsB(Sorted(b)[i])
    ensures multiset(a) == multiset(b) && forall name :: name in a ==> contentsA(name) == contentsB(name)
  {
    SortedIsSort(a);
    SortedIsSort(b);
    assert Sorted(a) == Sorted(b);
    forall name | name in a ensures contentsA(name) == contentsB(name) {
      assert name in multiset(Sorted(a));
      assert name in Sorted(a);
    }
  }

  /** For one file these conditions are exact: no other name gives its stream exactly when its name is plain, and no
      other well-formed one exactly when it is well-formed. */
  lemma OneFileExactly(name: Name, content: seq<Byte>)
    requires NulFree([ItemOf(name, content)])
    ensures (forall other: Name :: SameStream(other, name, content) ==> other == name) <==> Plain(name)
    ensures (forall other: Name :: Decode(other).Some? && SameStream(other, name, content) ==> other == name) <==>
      Decode(name).Some?
  {
    WrittenAlone(name);
    forall other: Name | SameStream(other, name, content)
      ensures Plain(name) ==> other == name
      ensures Decode(name).Some? && Decode(other).Some? ==> other == name
    {
      OneFileText(other, name, content);
      WrittenAsItIs(other);
      WrittenAsItIs(name);
    }
    if !Plain(name) {
      var other: Name :| Text(other) == Text(name) && other != name;
      OneFileText(other, name, content);
    }
    if Decode(name).None? {
      Twin(name);
      OneFileText(Encode(Text(name)), name, content);
    }
  }

  ghost predicate SameStream(other: Name, name: Name, content: seq<Byte>) {
    Stream([ItemOf(other, content)]) == Stream([ItemOf(name, content)])
  }

  /** With the same content it is the text of the name that makes the stream. */
  lemma OneFileText(other: Name, name: Name, content: seq<Byte>)
    ensures SameStream(other, name, content) <==> Text(other) == Text(name)
  {
    var one, two := ItemOf(other, content), ItemOf(name, content);
    assert Stream([one]) == Frame(one) && Stream([two]) == Frame(two);
    if SameStream(other, name, content) {
      var n := |one.name|;
      assert |Frame(one)| == n + |content| + 2 && |Frame(two)| == |two.name| + |content| + 2;
      assert Frame(one)[..n] == one.name && Frame(two)[..n] == two.name;
      Utf8Injective(Text(other), Text(name));
    }
  }

  /** In a longer list the order can decide: U+FFFD behind a name of a private character is not plain, and yet there
      is no other list with these texts, since every lone surrogate would come first. */
  lemma OrderDecides(names: seq<Name>)
    requires Ordered(names) && |names| == 2 && Text(names[0]) == [0xE000] && Text(names[1]) == [REPLACEMENT]
    ensures names == [[0xE000], [REPLACEMENT]] && !PlainNames(names)
  {
    OneUnit(names[0], 0xE000);
    OneUnit(names[1], REPLACEMENT);
    assert Precedes(names[0], names[1]);
    assert names[0] == [0xE000] && names[1] == [REPLACEMENT];
    assert REPLACEMENT in names[1];
  }

  lemma OneUnit(name: Name, c: Character)
    ensures Text(name) == [c] && c < 0x1_0000 ==>
      |name| == 1 && (name[0] == c || (c == REPLACEMENT && (High(name[0]) || Low(name[0]))))
  {
    if name != [] {
      var n := if High(name[0]) && |name| > 1 && Low(name[1]) then 2 else 1;
      assert Text(name)[1..] == Text(name[n..]);
    }
  }

  /** Names that are not well-formed can be written alike: two different lone surrogates both become U+FFFD, and a name
      of that character is well-formed. */
  lemma LoneSurrogatesCollide()
    ensures [0xD800] != [0xD801] && Text([0xD800]) == Text([0xD801]) == Text([0xFFFD])
    ensures Decode([0xFFFD]).Some?
  {
    var one: Name, two: Name, three: Name := [0xD800], [0xD801], [0xFFFD];
    assert one[0] != two[0] && one[1..] == [] && two[1..] == [] && three[1..] == [];
    assert Text(one) == [0xFFFD] + Text(one[1..]);
    assert Text(two) == [0xFFFD] + Text(two[1..]);
  }
}
