/** Decimal integers as text: the integer tokens of section 6 of RFC 8259. */
module Decimals {

  predicate IsDigit(c: char) {
    '0' <= c <= '9'
  }

  /** /^\d+$/ */
  predicate AllDigits(s: string) {
    s != "" && forall i :: 0 <= i < |s| ==> IsDigit(s[i])
  }

  /** /^(0|[1-9][0-9]*)$/ */
  predicate Canonical(s: string) {
    AllDigits(s) && (s[0] == '0' ==> s == "0")
  }

  /** An integer token: an optional minus, and no leading zeros. */
  predicate IsIntegerToken(s: string) {
    Canonical(s) || (s != "" && s[0] == '-' && Canonical(s[1..]))
  }

  function DigitOf(d: nat): char
    requires d < 10
  {
    '0' + d as char
  }

  function Natural(s: string): nat
    requires AllDigits(s)
  {
    var last := s[|s| - 1] as int - '0' as int;
    if |s| == 1 then last else 10 * Natural(s[..|s| - 1]) + last
  }

  function Digits(n: nat): string {
    if n < 10 then [DigitOf(n)] else Digits(n / 10) + [DigitOf(n % 10)]
  }

  /** What an integer token denotes. */
  function IntOf(s: string): int
    requires IsIntegerToken(s)
  {
    if s[0] == '-' then 0 - Natural(s[1..]) else Natural(s)
  }

  /** BigInt.prototype.toString and, on integers, String. */
  function Decimal(n: int): string {
    if n < 0 then "-" + Digits(-n) else Digits(n)
  }

  /** The tokens, as strings put together: "0" or digits that begin with another one, and perhaps a minus before. */
  lemma TokensExactly(s: string)
    ensures Canonical(s) <==> s == "0" || (s != "" && '1' <= s[0] <= '9' && forall c :: c in s ==> '0' <= c <= '9')
    ensures IsIntegerToken(s) <==> Canonical(s) || exists t :: s == "-" + t && Canonical(t)
  {
    if forall i :: 0 <= i < |s| ==> IsDigit(s[i]) { assert forall c :: c in s ==> IsDigit(c); }
    if forall c :: c in s ==> '0' <= c <= '9' { assert forall i :: 0 <= i < |s| ==> s[i] in s; }
    if IsIntegerToken(s) && s[0] == '-' { assert s == "-" + s[1..]; }
  }

  /** What they denote: every further digit counts one, and what stood before ten times as much. */
  lemma DigitCounts(s: string, c: char)
    requires '0' <= c <= '9'
    ensures Canonical([c]) && IntOf([c]) == c as int - '0' as int
    ensures Canonical(s) && s != "0" ==> Canonical(s + [c]) && IntOf(s + [c]) == 10 * IntOf(s) + IntOf([c])
    ensures Canonical(s) ==> IntOf("-" + s) == -IntOf(s)
  {
    if Canonical(s) { assert (s + [c])[..|s|] == s && ("-" + s)[1..] == s; }
  }

  lemma {:induction false} DigitsCanonical(n: nat)
    ensures Canonical(Digits(n)) && Natural(Digits(n)) == n
    ensures Digits(n)[0] == '0' <==> n == 0
  {
    if n >= 10 {
      DigitsCanonical(n / 10);
      var s := Digits(n / 10);
      assert Digits(n)[..|s|] == s;
      assert Digits(n)[0] == s[0];
    }
  }

  lemma {:induction false} NaturalDigits(s: string)
    requires Canonical(s)
    ensures Digits(Natural(s)) == s
    ensures |s| > 1 ==> Natural(s) >= 10
    decreases |s|
  {
    var n := |s| - 1;
    if n > 0 {
      assert s[..n][0] == s[0];
      NaturalDigits(s[..n]);
      NonZero(s[..n]);
      assert s == s[..n] + [s[n]];
    }
  }

  lemma {:induction false} NonZero(s: string)
    requires AllDigits(s) && s[0] != '0'
    ensures Natural(s) > 0
    decreases |s|
  {
    if |s| > 1 {
      assert s[..|s| - 1][0] == s[0];
      NonZero(s[..|s| - 1]);
    }
  }

  /** A printed integer is a token that denotes it. */
  lemma DecimalDenotes(n: int)
    ensures IsIntegerToken(Decimal(n)) && IntOf(Decimal(n)) == n
  {
    if n < 0 {
      DigitsCanonical(-n);
      assert Decimal(n)[1..] == Digits(-n);
    } else {
      DigitsCanonical(n);
    }
  }

  /** A token other than "-0" is the printed form of what it denotes. */
  lemma TokenIsDecimal(s: string)
    requires IsIntegerToken(s)
    ensures Decimal(IntOf(s)) == s <==> s != "-0"
  {
    if s[0] == '-' {
      NaturalDigits(s[1..]);
      if s[1] == '0' {
        assert s == "-0";
      } else {
        NonZero(s[1..]);
        assert s == "-" + s[1..];
      }
    } else {
      NaturalDigits(s);
    }
  }
}
