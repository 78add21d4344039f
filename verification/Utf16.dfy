/** UTF-16 code units, the characters they encode, and the bytes those take in UTF-8. */
module Utf16 {
  import opened Common

  type Unit = u: int | 0 <= u < 0x1_0000
  type Character = c: int | (0 <= c < 0xD800) || (0xE000 <= c < 0x11_0000)
  type Byte = b: int | 0 <= b < 0x100 witness 0

  predicate High(u: Unit) {
    0xD800 <= u <= 0xDBFF
  }

  predicate Low(u: Unit) {
    0xDC00 <= u <= 0xDFFF
  }

  /** Section 2.2 of RFC 2781. */
  function Decode(s: seq<Unit>): Option<seq<Character>> {
    if s == [] then Some([])
    else if !High(s[0]) && !Low(s[0]) then Prefixed(s[0], Decode(s[1..]))
    else if High(s[0]) && |s| > 1 && Low(s[1]) then Prefixed(Pair(s[0], s[1]), Decode(s[2..]))
    else None
  }

  /** The text that JavaScript writes for any string: a surrogate without its partner becomes U+FFFD. */
  function Text(s: seq<Unit>): seq<Character> {
    if s == [] then []
    else if High(s[0]) && |s| > 1 && Low(s[1]) then [Pair(s[0], s[1])] + Text(s[2..])
    else [if High(s[0]) || Low(s[0]) then 0xFFFD else s[0]] + Text(s[1..])
  }

  lemma {:induction false} TextIsDecoded(s: seq<Unit>)
    requires Decode(s).Some?
    ensures Text(s) == Decode(s).value
    decreases |s|
  {
    if s != [] { TextIsDecoded(s[if High(s[0]) then 2 else 1..]); }
  }

  function Pair(h: Unit, l: Unit): Character
    requires High(h) && Low(l)
  {
    (h - 0xD800) * 0x400 + (l - 0xDC00) + 0x1_0000
  }

  function Prefixed(c: Character, rest: Option<seq<Character>>): Option<seq<Character>> {
    if rest.Some? then Some([c] + rest.value) else None
  }

  /** Section 2.1 of RFC 2781. */
  function Encode(cs: seq<Character>): seq<Unit> {
    if cs == [] then []
    else if cs[0] < 0x1_0000 then [cs[0]] + Encode(cs[1..])
    else [0xD800 + (cs[0] - 0x1_0000) / 0x400, 0xDC00 + (cs[0] - 0x1_0000) % 0x400] + Encode(cs[1..])
  }

  /** Section 3 of RFC 3629, for one character. */
  function Utf8Of(c: Character): seq<Byte> {
    if c < 0x80 then [c]
    else if c < 0x800 then [0xC0 + c / 0x40, 0x80 + c % 0x40]
    else if c < 0x1_0000 then [0xE0 + c / 0x1000, 0x80 + c / 0x40 % 0x40, 0x80 + c % 0x40]
    else [0xF0 + c / 0x4_0000, 0x80 + c / 0x1000 % 0x40, 0x80 + c / 0x40 % 0x40, 0x80 + c % 0x40]
  }

  function Utf8(cs: seq<Character>): seq<Byte> {
    if cs == [] then [] else Utf8Of(cs[0]) + Utf8(cs[1..])
  }

  /** Every surrogate belongs to a pair: a high one is followed by a low one, a low one follows a high one. */
  ghost predicate Paired(s: seq<Unit>) {
    && (forall i :: 0 <= i < |s| && High(s[i]) ==> i + 1 < |s| && Low(s[i + 1]))
    && (forall i :: 0 <= i < |s| && Low(s[i]) ==> i > 0 && High(s[i - 1]))
  }

  /** What one and two code units stand for; with DecodeJoined, what any string does. */
  lemma PairIs(u: Unit, h: Unit, l: Unit)
    ensures Decode([u]) == if 0xD800 <= u <= 0xDFFF then None else Some([u])
    ensures 0xD800 <= h <= 0xDBFF && 0xDC00 <= l <= 0xDFFF ==>
      Decode([h, l]) == Some([0x1_0000 + (h - 0xD800) * 0x400 + (l - 0xDC00)])
  {
    var one: seq<Unit>, two: seq<Unit>, none: seq<Unit> := [u], [h, l], [];
    assert one[1..] == none && two[2..] == none;
    assert Decode(none) == Some([]);
    if !High(u) && !Low(u) {
      assert Decode(one) == Prefixed(u, Some([]));
      PrefixedAlone(u);
    }
    if High(h) && Low(l) {
      assert Decode(two) == Prefixed(Pair(h, l), Some([]));
      PrefixedAlone(Pair(h, l));
    }
  }

  lemma PrefixedAlone(c: Character)
    ensures Prefixed(c, Some([])) == Some([c])
  {
    assert [c] + [] == [c];
  }

  /** What is written for them. */
  lemma TextIs(u: Unit, h: Unit, l: Unit)
    ensures Text([u]) == [if 0xD800 <= u <= 0xDFFF then 0xFFFD else u]
    ensures 0xD800 <= h <= 0xDBFF && 0xDC00 <= l <= 0xDFFF ==>
      Text([h, l]) == [0x1_0000 + (h - 0xD800) * 0x400 + (l - 0xDC00)]
  {
    assert [u][1..] == [] && [h, l][2..] == [];
  }

  /** Where no pair is torn apart, strings are written one after the other. */
  lemma {:induction false} TextJoined(a: seq<Unit>, b: seq<Unit>)
    requires a == [] || b == [] || !(High(a[|a| - 1]) && Low(b[0]))
    ensures Text(a + b) == Text(a) + Text(b)
    decreases |a|
  {
    if a == [] {
      assert a + b == b;
    } else {
      var n := if High(a[0]) && |a| > 1 && Low(a[1]) then 2 else 1;
      assert (a + b)[n..] == a[n..] + b;
      TextJoined(a[n..], b);
      Grouped([Text(a)[0]], Text(a[n..]), Text(b));
    }
  }

  /** The bits of a character are spread over one to four bytes like this. */
  lemma Utf8OfBits(c: Character, w: nat, x: nat, y: nat, z: nat)
    requires x < 64 && y < 64 && z < 64 && c == w * 0x4_0000 + x * 0x1000 + y * 64 + z
    ensures c < 0x80 ==> Utf8Of(c) == [c]
    ensures 0x80 <= c < 0x800 ==> Utf8Of(c) == [0xC0 + y, 0x80 + z]
    ensures 0x800 <= c < 0x1_0000 ==> Utf8Of(c) == [0xE0 + x, 0x80 + y, 0x80 + z]
    ensures 0x1_0000 <= c ==> Utf8Of(c) == [0xF0 + w, 0x80 + x, 0x80 + y, 0x80 + z]
  {
    assert c % 64 == z && c / 64 == w * 0x1000 + x * 64 + y;
    assert c / 64 % 64 == y && c / 0x1000 == w * 64 + x;
    assert c / 0x1000 % 64 == x && c / 0x4_0000 == w;
  }

  // ---------- Decoding in pieces ----------

  ghost function Joined(a: Option<seq<Character>>, b: Option<seq<Character>>): Option<seq<Character>> {
    if a.Some? && b.Some? then Some(a.value + b.value) else None
  }

  lemma Grouped<T>(a: seq<T>, b: seq<T>, c: seq<T>)
    ensures a + (b + c) == a + b + c
  {
  }

  lemma PrefixedJoined(c: Character, a: Option<seq<Character>>, b: Option<seq<Character>>)
    ensures Prefixed(c, Joined(a, b)) == Joined(Prefixed(c, a), b)
  {
    if a.Some? && b.Some? { Grouped([c], a.value, b.value); }
  }

  /** After a prefix that can be decoded, decoding goes on with the rest. */
  lemma {:induction false} DecodeJoined(a: seq<Unit>, b: seq<Unit>)
    requires Decode(a).Some?
    ensures Decode(a + b) == Joined(Decode(a), Decode(b))
    decreases |a|
  {
    if a == [] {
      assert a + b == b;
      assert Decode(b).Some? ==> [] + Decode(b).value == Decode(b).value;
    } else {
      var n := if High(a[0]) then 2 else 1;
      assert (a + b)[n..] == a[n..] + b;
      DecodeJoined(a[n..], b);
      PrefixedJoined(if n == 1 then a[0] else Pair(a[0], a[1]), Decode(a[n..]), Decode(b));
    }
  }

  lemma {:induction false} Utf8Joined(a: seq<Character>, b: seq<Character>)
    ensures Utf8(a + b) == Utf8(a) + Utf8(b)
  {
    if a == [] {
      assert a + b == b;
    } else {
      Utf8Joined(a[1..], b);
      assert (a + b)[1..] == a[1..] + b;
      Grouped(Utf8Of(a[0]), Utf8(a[1..]), Utf8(b));
    }
  }

  /** Decoding loses nothing: the characters are encoded as the code units they came from. */
  lemma {:induction false} DecodeEncode(s: seq<Unit>)
    requires Decode(s).Some?
    ensures Encode(Decode(s).value) == s
    decreases |s|
  {
    if s != [] {
      var n := if High(s[0]) then 2 else 1;
      DecodeEncode(s[n..]);
      assert Decode(s).value[1..] == Decode(s[n..]).value;
    }
  }

  /** And every text is decoded from its encoding. */
  lemma {:induction false} EncodeDecode(cs: seq<Character>)
    ensures Decode(Encode(cs)) == Some(cs)
  {
    if cs != [] {
      EncodeDecode(cs[1..]);
      var n := if cs[0] < 0x1_0000 then 1 else 2;
      assert Encode(cs)[n..] == Encode(cs[1..]);
      assert cs == [cs[0]] + cs[1..];
    }
  }

  // ---------- What is written for a string ----------

  const REPLACEMENT: Character := 0xFFFD

  /** A string can be read back from what is written for it exactly when it is well-formed. */
  lemma {:induction false} WrittenAsItIs(s: seq<Unit>)
    ensures Encode(Text(s)) == s <==> Decode(s).Some?
  {
    EncodeDecode(Text(s));
    if Decode(s).Some? {
      TextIsDecoded(s);
      DecodeEncode(s);
    }
  }

  /** Well-formed, and without the character that replaces lone surrogates. */
  ghost predicate Plain(s: seq<Unit>) {
    Decode(s).Some? && REPLACEMENT !in s
  }

  lemma {:induction false} ReplacedIsWritten(s: seq<Unit>)
    ensures Decode(s).None? ==> REPLACEMENT in Text(s)
    ensures Decode(s).Some? ==> (REPLACEMENT in Text(s) <==> REPLACEMENT in s)
    decreases |s|
  {
    if s != [] {
      var n := if High(s[0]) && |s| > 1 && Low(s[1]) then 2 else 1;
      assert s == s[..n] + s[n..];
      ReplacedIsWritten(s[n..]);
    }
  }

  /** Nothing is lost when U+FFFD gives way to a lone surrogate. */
  lemma {:induction false} LoneIsReplaced(s: seq<Unit>, k: nat)
    requires Decode(s).Some? && k < |s| && s[k] == REPLACEMENT
    ensures Text(s[k := 0xD800]) == Text(s)
    decreases |s|
  {
    var t := s[k := 0xD800];
    if k == 0 {
      assert t[1..] == s[1..];
    } else {
      var n := if High(s[0]) then 2 else 1;
      assert t[n..] == s[n..][k - n := 0xD800];
      LoneIsReplaced(s[n..], k - n);
    }
  }

  /** A string is the only one that is written as it is exactly when it is plain. */
  lemma WrittenAlone(s: seq<Unit>)
    ensures (forall t: seq<Unit> :: Text(t) == Text(s) ==> t == s) <==> Plain(s)
  {
    if Plain(s) {
      forall t: seq<Unit> | Text(t) == Text(s) ensures t == s {
        ReplacedIsWritten(s);
        ReplacedIsWritten(t);
        WrittenAsItIs(s);
        WrittenAsItIs(t);
      }
    } else if Decode(s).None? {
      Twin(s);
    } else {
      var k :| 0 <= k < |s| && s[k] == REPLACEMENT;
      LoneIsReplaced(s, k);
      assert s[k := 0xD800][k] != s[k];
    }
  }

  /** Every other string has a well-formed one that is written like it. */
  lemma Twin(s: seq<Unit>)
    requires Decode(s).None?
    ensures var t := Encode(Text(s)); t != s && Decode(t).Some? && Text(t) == Text(s)
  {
    EncodeDecode(Text(s));
    TextIsDecoded(Encode(Text(s)));
  }

  /** What can be decoded is exactly what has all its surrogates in pairs. */
  lemma {:induction false} DecodableIsPaired(s: seq<Unit>)
    ensures Decode(s).Some? <==> Paired(s)
    decreases |s|
  {
    if s != [] {
      var n := if High(s[0]) && |s| > 1 && Low(s[1]) then 2 else 1;
      var t := s[n..];
      DecodableIsPaired(t);
      assert forall i :: 0 <= i < |t| ==> t[i] == s[i + n];
      if Paired(s) {
        assert Paired(t);
      } else if Paired(t) && !High(s[0]) && !Low(s[0]) {
        PairedAfterOne(s);
      } else if Paired(t) && n == 2 {
        PairedAfterTwo(s);
      }
    }
  }

  lemma PairedAfterOne(s: seq<Unit>)
    requires s != [] && !High(s[0]) && !Low(s[0]) && Paired(s[1..])
    ensures Paired(s)
  {
    var t := s[1..];
    assert forall i :: 1 <= i < |s| ==> s[i] == t[i - 1];
  }

  lemma PairedAfterTwo(s: seq<Unit>)
    requires |s| > 1 && High(s[0]) && Low(s[1]) && Paired(s[2..])
    ensures Paired(s)
  {
    var t := s[2..];
    assert forall i :: 2 <= i < |s| ==> s[i] == t[i - 2];
  }

  // ---------- UTF-8 can be read back ----------

  /** The bytes of a character determine it. */
  lemma Utf8OfInjective(c: Character, d: Character)
    requires Utf8Of(c) == Utf8Of(d)
    ensures c == d
  {
    assert |Utf8Of(c)| == |Utf8Of(d)|;
    assert forall i :: 0 <= i < |Utf8Of(c)| ==> Utf8Of(c)[i] == Utf8Of(d)[i];
    Split(c);
    Split(d);
  }

  lemma Split(c: Character)
    ensures c == c / 0x40 * 0x40 + c % 0x40
    ensures c / 0x40 == c / 0x1000 * 0x40 + c / 0x40 % 0x40
    ensures c / 0x1000 == c / 0x4_0000 * 0x40 + c / 0x1000 % 0x40
  {
  }

  /** How many bytes the character takes that starts with this one. */
  function Width(lead: Byte): nat {
    if lead < 0xC0 then 1 else if lead < 0xE0 then 2 else if lead < 0xF0 then 3 else 4
  }

  lemma LeadByte(c: Character)
    ensures |Utf8Of(c)| == Width(Utf8Of(c)[0])
  {
  }

  lemma Utf8OfPrefix(c: Character, d: Character, x: seq<Byte>, y: seq<Byte>)
    requires Utf8Of(c) + x == Utf8Of(d) + y
    ensures c == d && x == y
  {
    LeadByte(c);
    LeadByte(d);
    var n := |Utf8Of(c)|;
    assert (Utf8Of(c) + x)[0] == Utf8Of(c)[0] && (Utf8Of(d) + y)[0] == Utf8Of(d)[0];
    assert (Utf8Of(c) + x)[..n] == Utf8Of(c) && (Utf8Of(d) + y)[..n] == Utf8Of(d);
    assert (Utf8Of(c) + x)[n..] == x && (Utf8Of(d) + y)[n..] == y;
    Utf8OfInjective(c, d);
  }

  lemma Utf8Empty(a: seq<Character>)
    ensures Utf8(a) == [] <==> a == []
  {
    if a != [] { assert |Utf8(a)| >= |Utf8Of(a[0])|; }
  }

  /** Distinct texts have distinct UTF-8. */
  lemma {:induction false} Utf8Injective(a: seq<Character>, b: seq<Character>)
    requires Utf8(a) == Utf8(b)
    ensures a == b
  {
    Utf8Empty(a);
    Utf8Empty(b);
    if a != [] && b != [] {
      Utf8OfPrefix(a[0], b[0], Utf8(a[1..]), Utf8(b[1..]));
      Utf8Injective(a[1..], b[1..]);
      assert a == [a[0]] + a[1..];
    }
  }
}
