/** The exact integers of json-boundary.js: tokens to JavaScript values and back. */
module JsonBoundary {
  import opened Doubles
  import opened Decimals

  // Positive and negative zero are not told apart: every operation here treats them alike.
  datatype Number = NaN | Infinite(negative: bool) | Finite(value: real)

  datatype Value = Undefined | Null | Num(number: Number) | Str(text: string) | Other

  datatype Result<+T> = Ok(value: T) | Err(error: Error)
  datatype Error = UnknownField | AssetId | UnsafeNumber | NotU64 | Confirmations | Recipient

  const EMAX: nat := 1023

  predicate Overflows(r: int, emax: nat) {
    Abs(r) >= Pow2(emax + 1)
  }

  /** Number on an integer token: rounded, and infinite when the result has no exponent. */
  function ToNumber(n: int): Number {
    if Overflows(Round(n), EMAX) then Infinite(n < 0) else Finite(Round(n) as real)
  }

  /** Number.isInteger */
  predicate IsInteger(x: Number) {
    x.Finite? && x.value == x.value.Floor as real
  }

  /** Number.isSafeInteger */
  predicate IsSafeInteger(x: Number) {
    IsInteger(x) && Safe(x.value.Floor)
  }

  function CheckedNumber(v: Value): Result<Value> {
    if v.Num? && (!v.number.Finite? || (IsInteger(v.number) && !IsSafeInteger(v.number))) then Err(UnsafeNumber)
    else Ok(v)
  }

  /** The conversion of a number token, of which `number` is the JavaScript number. */
  function ParseNumber(token: string, number: Number): Result<Value> {
    if IsIntegerToken(token) && !IsSafeInteger(number) then Ok(Str(Decimal(IntOf(token))))
    else CheckedNumber(Num(number))
  }

  /** The integer a value stands for. */
  ghost predicate Denotes(v: Value, n: int) {
    || (v.Num? && IsSafeInteger(v.number) && v.number.value == n as real)
    || (v.Str? && IsIntegerToken(v.text) && IntOf(v.text) == n)
  }

  // ---------- Parsing ----------

  lemma NumberIsSafe(n: int)
    ensures IsSafeInteger(ToNumber(n)) <==> Safe(n)
    ensures Safe(n) ==> ToNumber(n) == Finite(n as real)
  {
    RoundSafe(n);
    SafeDoesNotOverflow(Round(n), EMAX);
  }

  lemma SafeDoesNotOverflow(r: int, emax: nat)
    requires emax >= 52
    ensures Safe(r) ==> !Overflows(r, emax)
  {
    Pow2Of53();
    Pow2Grows(53, emax + 1);
  }

  lemma Pow2Grows(a: nat, b: nat)
    requires a <= b
    ensures Pow2(a) <= Pow2(b)
  {
    if a < b { Pow2Grows(a, b - 1); }
  }

  /** An integer token is parsed to a value that stands for exactly that integer: a number when it is safe, and its
      decimal text otherwise. */
  lemma ParseIsExact(token: string)
    requires IsIntegerToken(token)
    ensures var n := IntOf(token);
      var v := ParseNumber(token, ToNumber(n));
      && v.Ok? && Denotes(v.value, n)
      && (v.value.Num? <==> Safe(n))
      && (v.value.Str? ==> v.value.text == token)
  {
    var n := IntOf(token);
    NumberIsSafe(n);
    DecimalDenotes(n);
    TokenIsDecimal(token);
    if !Safe(n) { assert token != "-0"; }
  }

  /** Any other token is left to its JavaScript number, unless that is not finite or a whole number of 2^53 or more. */
  lemma ParseOther(token: string, number: Number)
    requires !IsIntegerToken(token)
    ensures ParseNumber(token, number) ==
      if number.Finite? && !(exists n :: Is(number, n) && !(-0x20_0000_0000_0000 < n < 0x20_0000_0000_0000))
      then Ok(Num(number)) else Err(UnsafeNumber)
  {
    if number.Finite? {
      assert IsInteger(number) <==> Is(number, number.value.Floor);
      assert forall n :: Is(number, n) ==> n == number.value.Floor;
    }
  }

  ghost predicate Is(number: Number, n: int) {
    number == Finite(n as real)
  }

  /** A value stands for one integer only. */
  lemma DenotesOne(v: Value, a: int, b: int)
    requires Denotes(v, a) && Denotes(v, b)
    ensures a == b
  {
  }

  /** Parsing keeps integers apart: equal values come from tokens of the same integer. */
  lemma ParseIsInjective(a: string, b: string)
    requires IsIntegerToken(a) && IsIntegerToken(b)
    ensures ParseNumber(a, ToNumber(IntOf(a))) == ParseNumber(b, ToNumber(IntOf(b))) <==> IntOf(a) == IntOf(b)
  {
    ParseIsExact(a);
    ParseIsExact(b);
    if ParseNumber(a, ToNumber(IntOf(a))) == ParseNumber(b, ToNumber(IntOf(b))) {
      DenotesOne(ParseNumber(a, ToNumber(IntOf(a))).value, IntOf(a), IntOf(b));
    }
  }

  // ---------- Emitting unsigned 64-bit integers ----------

  const U64_MAX: int := 18446744073709551615

  /** The inner `uint64` of burnRequest: the token that is emitted. */
  function U64(v: Value): Result<string> {
    if CheckedNumber(v).Err? then Err(CheckedNumber(v).error)
    else if v.Num? && IsSafeInteger(v.number) && v.number.value >= 0.0 && v.number.value.Floor <= U64_MAX then
      Ok(Decimal(v.number.value.Floor))
    else if v.Str? && Canonical(v.text) && Natural(v.text) <= U64_MAX then Ok(v.text)
    else Err(NotU64)
  }

  /** The two ways to write an unsigned 64-bit integer. */
  ghost predicate WritesU64(v: Value, u: int) {
    && 0 <= u < 0x1_0000_0000_0000_0000
    && ((v == Num(Finite(u as real)) && Safe(u)) || v == Str(Decimal(u)))
  }

  /** Accepted are exactly the safe numbers and the canonical decimal texts of unsigned 64-bit integers. What is
      emitted for one is its canonical token, which is parsed back to a value that stands for the same integer. */
  lemma U64RoundTrip(v: Value)
    ensures U64(v).Ok? <==> exists u :: WritesU64(v, u)
    ensures forall u :: WritesU64(v, u) ==>
      var token := Decimal(u);
      && U64(v) == Ok(token) && Canonical(token) && IntOf(token) == u
      && ParseNumber(token, ToNumber(u)).Ok? && Denotes(ParseNumber(token, ToNumber(u)).value, u)
  {
    if U64(v).Ok? { assert exists u :: WritesU64(v, u) by { Written(v); } }
    forall u | WritesU64(v, u)
      ensures U64(v) == Ok(Decimal(u)) && Canonical(Decimal(u)) && IntOf(Decimal(u)) == u
      ensures ParseNumber(Decimal(u), ToNumber(u)).Ok? && Denotes(ParseNumber(Decimal(u), ToNumber(u)).value, u)
    {
      DigitsCanonical(u);
      DecimalDenotes(u);
      ParseIsExact(Decimal(u));
    }
  }

  lemma Written(v: Value)
    requires U64(v).Ok?
    ensures exists u :: WritesU64(v, u)
  {
    if v.Num? {
      assert WritesU64(v, v.number.value.Floor);
    } else if v.Str? {
      NaturalDigits(v.text);
      assert WritesU64(v, Natural(v.text));
    }
  }

  // ---------- burnRequest ----------

  const FIELDS: set<string> := {"asset_id", "amount", "burn_recipient", "fee_rate", "min_confirmations"}

  type Request = map<string, Value>

  /** The emitted object, with the number tokens of its two 64-bit fields. */
  datatype Burn = Burn(assetId: string, amount: string, recipient: Value, feeRate: string, minConfirmations: Number)

  function Field(r: Request, key: string): Value {
    if key in r then r[key] else Undefined
  }

  predicate IsHex(c: char) {
    IsDigit(c) || 'a' <= c <= 'f' || 'A' <= c <= 'F'
  }

  predicate IsRecipient(v: Value) {
    v.Undefined? || v.Null? || (v.Str? && |v.text| == 64 && forall i :: 0 <= i < 64 ==> IsHex(v.text[i]))
  }

  predicate IsConfirmations(v: Value) {
    v.Num? && IsInteger(v.number) && 0.0 <= v.number.value <= 255.0
  }

  function BurnRequest(r: Request): Result<Burn> {
    var assetId, recipient := Field(r, "asset_id"), Field(r, "burn_recipient");
    var confirmations := Field(r, "min_confirmations");
    if exists key <- r.Keys :: key !in FIELDS then Err(UnknownField)
    else if !assetId.Str? || assetId.text == "" then Err(AssetId)
    else if !IsConfirmations(confirmations) then Err(Confirmations)
    else if !IsRecipient(recipient) then Err(Recipient)
    else
      var amount := U64(Field(r, "amount"));
      var feeRate := U64(Field(r, "fee_rate"));
      if amount.Err? then Err(amount.error)
      else if feeRate.Err? then Err(feeRate.error)
      else Ok(Burn(assetId.text, amount.value, recipient, feeRate.value, confirmations.number))
  }

  ghost predicate IsBurn(r: Request, amount: int, feeRate: int) {
    && r.Keys <= {"asset_id", "amount", "burn_recipient", "fee_rate", "min_confirmations"}
    && Field(r, "asset_id").Str? && Field(r, "asset_id").text != ""
    && Field(r, "min_confirmations").Num? && (exists n :: 0 <= n <= 255 && Is(Field(r, "min_confirmations").number, n))
    && (|| Field(r, "burn_recipient") in {Undefined, Null}
        || exists text :: Field(r, "burn_recipient") == Str(text) && ThirtyTwoBytes(text))
    && WritesU64(Field(r, "amount"), amount) && WritesU64(Field(r, "fee_rate"), feeRate)
  }

  /** 32 bytes in hexadecimal. */
  ghost predicate ThirtyTwoBytes(text: string) {
    |text| == 64 && forall c :: c in text ==> c in "0123456789abcdefABCDEF"
  }

  lemma RecipientExactly(v: Value)
    ensures IsRecipient(v) <==> v in {Undefined, Null} || exists text :: v == Str(text) && ThirtyTwoBytes(text)
  {
    forall c ensures IsHex(c) <==> c in "0123456789abcdefABCDEF" { HexExactly(c); }
    if v.Str? && |v.text| == 64 {
      assert (forall i :: 0 <= i < 64 ==> IsHex(v.text[i])) <==> (forall c :: c in v.text ==> IsHex(c));
      assert v == Str(v.text);
    }
  }

  lemma HexExactly(c: char)
    ensures IsHex(c) <==> c in "0123456789abcdefABCDEF"
  {
    if IsDigit(c) { assert c == "0123456789abcdefABCDEF"[c as int - '0' as int]; }
    if 'a' <= c <= 'f' { assert c == "0123456789abcdefABCDEF"[10 + (c as int - 'a' as int)]; }
    if 'A' <= c <= 'F' { assert c == "0123456789abcdefABCDEF"[16 + (c as int - 'A' as int)]; }
  }

  lemma ConfirmationsExactly(v: Value)
    ensures IsConfirmations(v) <==> v.Num? && exists n :: 0 <= n <= 255 && Is(v.number, n)
  {
    if IsConfirmations(v) { assert Is(v.number, v.number.value.Floor); }
  }

  /** A request is emitted exactly when it is a burn of some amount at some fee rate, and then these are the amount and
      the fee rate that a reader of the emitted tokens finds. */
  lemma BurnIsExact(r: Request)
    ensures BurnRequest(r).Ok? <==> exists amount, feeRate :: IsBurn(r, amount, feeRate)
    ensures forall amount, feeRate :: IsBurn(r, amount, feeRate) ==>
      BurnRequest(r) == Ok(Burn(Field(r, "asset_id").text, Decimal(amount), Field(r, "burn_recipient"),
                                Decimal(feeRate),
                                Field(r, "min_confirmations").number))
      && IsIntegerToken(Decimal(amount)) && IntOf(Decimal(amount)) == amount
      && IsIntegerToken(Decimal(feeRate)) && IntOf(Decimal(feeRate)) == feeRate
  {
    U64RoundTrip(Field(r, "amount"));
    U64RoundTrip(Field(r, "fee_rate"));
    RecipientExactly(Field(r, "burn_recipient"));
    ConfirmationsExactly(Field(r, "min_confirmations"));
    assert (forall key :: key in r.Keys ==> key in FIELDS) <==> r.Keys <= FIELDS;
    if BurnRequest(r).Ok? {
      var amount :| WritesU64(Field(r, "amount"), amount);
      var feeRate :| WritesU64(Field(r, "fee_rate"), feeRate);
      assert IsBurn(r, amount, feeRate);
    }
  }
}
