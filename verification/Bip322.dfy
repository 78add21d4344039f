/** The admission of BIP-322 requests (json-boundary.js): the length check that reads UTF-16 and counts UTF-8. */
module Bip322 {
  import opened Utf16

  datatype Value = Text(units: seq<Unit>) | NotText

  datatype Verdict = Admitted | NotAString | Unpaired | TooLong

  function Maximum(key: string): nat {
    if key == "message" || key == "signature" then 4096 else if key == "address" then 128 else 16
  }

  ghost function Size(s: seq<Unit>): nat
    requires Decode(s).Some?
  {
    |Utf8(Decode(s).value)|
  }

  /** Some decodable beginning of the text is already too long. */
  ghost predicate Exceeds(s: seq<Unit>, maximum: nat) {
    exists k | 0 <= k <= |s| :: Decode(s[..k]).Some? && Size(s[..k]) > maximum
  }

  /** How one field is judged. */
  ghost function Judged(v: Value, maximum: nat): Verdict {
    if v.NotText? then NotAString
    else if Exceeds(v.units, maximum) then TooLong
    else if Decode(v.units).None? then Unpaired
    else Admitted
  }

  // ---------- Reading on ----------

  /** What comes after a decodable prefix is counted on top of it. */
  lemma Onwards(s: seq<Unit>, i: nat, j: nat)
    requires i <= j <= |s| && Decode(s[..i]).Some?
    ensures Decode(s[..j]).Some? <==> Decode(s[i..j]).Some?
    ensures Decode(s[..j]).Some? ==> Size(s[..j]) == Size(s[..i]) + Size(s[i..j])
  {
    assert s[..j] == s[..i] + s[i..j];
    DecodeJoined(s[..i], s[i..j]);
    if Decode(s[i..j]).Some? { Utf8Joined(Decode(s[..i]).value, Decode(s[i..j]).value); }
  }

  /** One character, read from one or two code units. */
  lemma ReadOne(s: seq<Unit>, i: nat, n: nat, c: Character)
    requires i + n <= |s| && Decode(s[..i]).Some?
    requires (n == 1 && s[i] == c) || (n == 2 && High(s[i]) && Low(s[i + 1]) && c == Pair(s[i], s[i + 1]))
    ensures Decode(s[..i + n]).Some? && Size(s[..i + n]) == Size(s[..i]) + |Utf8Of(c)|
  {
    Onwards(s, i, i + n);
    var t := s[i..i + n];
    assert t[n..] == [];
    assert Decode(t) == Prefixed(c, Decode(t[n..]));
    assert Utf8([c]) == Utf8Of(c);
  }

  /** A prefix that is too long makes every decodable continuation too long. */
  lemma StaysTooLong(s: seq<Unit>, i: nat, maximum: nat)
    requires i <= |s| && Decode(s[..i]).Some? && Size(s[..i]) > maximum
    ensures Exceeds(s, maximum)
    ensures Decode(s).Some? ==> Size(s) > maximum
  {
    Onwards(s, i, |s|);
    assert s[..|s|] == s;
  }

  /** Where an unpaired surrogate comes next, no longer prefix can be decoded. */
  lemma Stuck(s: seq<Unit>, i: nat, maximum: nat)
    requires i < |s| && Decode(s[..i]).Some? && Size(s[..i]) <= maximum
    requires Low(s[i]) || (High(s[i]) && !(i + 1 < |s| && Low(s[i + 1])))
    ensures Decode(s).None? && !Exceeds(s, maximum)
  {
    forall k | 0 <= k <= |s| && Decode(s[..k]).Some? ensures k <= i && Size(s[..k]) <= maximum {
      if k > i { Onwards(s, i, k); } else { Shorter(s, k, i); }
    }
    assert s[..|s|] == s;
  }

  lemma Shorter(s: seq<Unit>, k: nat, i: nat)
    requires k <= i <= |s| && Decode(s[..i]).Some? && Decode(s[..k]).Some?
    ensures Size(s[..k]) <= Size(s[..i])
  {
    Onwards(s, k, i);
  }

  /** The end is reached with every prefix within the limit. */
  lemma Finished(s: seq<Unit>, maximum: nat)
    requires Decode(s).Some? && Size(s) <= maximum
    ensures !Exceeds(s, maximum)
  {
    assert s[..|s|] == s;
    forall k | 0 <= k <= |s| && Decode(s[..k]).Some? ensures Size(s[..k]) <= maximum {
      Shorter(s, k, |s|);
    }
  }

  // ---------- The scanner ----------

  /** The loop over one field of bip322Request. */
  method Scan(v: Value, maximum: nat) returns (verdict: Verdict)
    ensures verdict == Judged(v, maximum)
  {
    if v.NotText? { return NotAString; }
    var s := v.units;
    var bytes, i := 0, 0;
    while i < |s|
      invariant 0 <= i <= |s|
      invariant Decode(s[..i]).Some? && bytes == Size(s[..i]) <= maximum
    {
      var unit := s[i];
      ghost var at := i;
      if 0xD800 <= unit <= 0xDBFF {
        i := i + 1;
        if !(i < |s| && 0xDC00 <= s[i] <= 0xDFFF) {
          Stuck(s, at, maximum);
          return Unpaired;
        }
        bytes := bytes + 4;
        ReadOne(s, at, 2, Pair(unit, s[i]));
      } else if 0xDC00 <= unit <= 0xDFFF {
        Stuck(s, at, maximum);
        return Unpaired;
      } else {
        bytes := bytes + (if unit < 0x80 then 1 else if unit < 0x800 then 2 else 3);
        ReadOne(s, at, 1, unit);
      }
      i := i + 1;
      if bytes > maximum {
        StaysTooLong(s, i, maximum);
        return TooLong;
      }
    }
    assert s[..|s|] == s;
    Finished(s, maximum);
    return Admitted;
  }

  /** bip322Request, up to the emission of the request: the fields are judged in turn, up to the first that is
      refused. */
  method Bip322Request(request: seq<(string, Value)>) returns (verdict: Verdict)
    ensures verdict.Admitted? <==> forall i :: 0 <= i < |request| ==>
      Judged(request[i].1, Maximum(request[i].0)).Admitted?
    ensures verdict.Admitted? <==> forall i :: 0 <= i < |request| ==> Fits(request[i].0, request[i].1)
    ensures !verdict.Admitted? ==> exists i :: FirstRefusal(request, i, verdict)
  {
    forall key, v ensures Judged(v, Maximum(key)).Admitted? <==> Fits(key, v) { AdmittedFits(key, v); }
    for i := 0 to |request|
      invariant forall k :: 0 <= k < i ==> Judged(request[k].1, Maximum(request[k].0)).Admitted?
    {
      verdict := Scan(request[i].1, Maximum(request[i].0));
      if !verdict.Admitted? {
        assert FirstRefusal(request, i, verdict);
        return;
      }
    }
    return Admitted;
  }

  /** The field is well-formed UTF-16, whose UTF-8 has the bytes its key allows at most. */
  ghost predicate Fits(key: string, v: Value) {
    && v.Text? && Decode(v.units).Some?
    && (key == "message" || key == "signature" ==> |Utf8(Decode(v.units).value)| <= 4096)
    && (key == "address" ==> |Utf8(Decode(v.units).value)| <= 128)
    && (key !in {"message", "signature", "address"} ==> |Utf8(Decode(v.units).value)| <= 16)
  }

  lemma AdmittedFits(key: string, v: Value)
    ensures Judged(v, Maximum(key)).Admitted? <==> Fits(key, v)
  {
    if v.Text? { JudgedByLength(v.units, Maximum(key)); }
  }

  ghost predicate FirstRefusal(request: seq<(string, Value)>, i: int, verdict: Verdict) {
    && 0 <= i < |request| && Judged(request[i].1, Maximum(request[i].0)) == verdict
    && forall k :: 0 <= k < i ==> Judged(request[k].1, Maximum(request[k].0)).Admitted?
  }

  /** A field is admitted exactly when it is well-formed UTF-16 of at most so many bytes of UTF-8: reading stops early
      only where the whole text would have been refused. */
  lemma JudgedByLength(s: seq<Unit>, maximum: nat)
    ensures Paired(s) <==> Decode(s).Some?
    ensures Judged(Text(s), maximum).Admitted? <==> Decode(s).Some? && Size(s) <= maximum
    ensures Judged(Text(s), maximum).Unpaired? ==> !Paired(s)
    ensures Judged(Text(s), maximum).TooLong? ==> Decode(s).None? || Size(s) > maximum
  {
    DecodableIsPaired(s);
    if Decode(s).Some? {
      if Size(s) <= maximum { Finished(s, maximum); } else {
        assert s[..|s|] == s;
        StaysTooLong(s, |s|, maximum);
      }
    }
  }
}
