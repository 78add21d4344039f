/** Integers as IEEE 754 double-precision numbers, which is what JavaScript makes of them. */
module Doubles {

  const TWO52: int := 0x10_0000_0000_0000
  const TWO53: int := 0x20_0000_0000_0000

  function Pow2(k: nat): (r: nat)
    ensures r > 0
  {
    if k == 0 then 1 else 2 * Pow2(k - 1)
  }

  function Abs(x: int): nat {
    if x < 0 then -x else x
  }

  /** Number.isSafeInteger, on integers. */
  predicate Safe(n: int) {
    -TWO53 < n < TWO53
  }

  // ---------- The definition ----------

  /** `x` units are a significand of 53 bits times a power of two.  A unit is the least positive number there is, so the
      exponent cannot be negative; it has no upper bound here, as rounding takes place before overflow is looked at. */
  ghost predicate IsDouble(x: int) {
    exists m: int, k: nat :: Scaled(x, m, k) && Abs(m) < TWO53
  }

  ghost predicate Scaled(x: int, m: int, k: nat) {
    x == m * Pow2(k)
  }

  ghost predicate EvenSignificand(x: int) {
    exists m: int, k: nat :: Scaled(x, m, k) && m % 2 == 0 && TWO52 <= Abs(m) <= TWO53
  }

  /** `y` is no better a rounding of `x` than `r` is. */
  ghost predicate NearEnough(x: int, r: int, y: int) {
    && Abs(r - x) <= Abs(y - x)
    && (Abs(r - x) == Abs(y - x) && y != r ==> EvenSignificand(r))
  }

  /** roundTiesToEven of section 4.3.1 of IEEE 754, with 2^p units to the integer 1: no double is nearer to `n` than `r`
      is, and if another one is as near then the significand of `r` is even. */
  ghost predicate Rounds(n: int, r: int, p: nat) {
    && IsDouble(r * Pow2(p))
    && forall y | IsDouble(y) :: NearEnough(n * Pow2(p), r * Pow2(p), y)
  }

  // ---------- A safe result is exact ----------

  lemma Pow2Sum(a: nat, b: nat)
    ensures Pow2(a + b) == Pow2(a) * Pow2(b)
  {
    if a > 0 { Pow2Sum(a - 1, b); }
  }

  lemma Pow2Of53()
    ensures Pow2(53) == TWO53
  {
    assert Pow2(12) == 0x1000 && Pow2(5) == 0x20;
    Pow2Sum(12, 12);
    Pow2Sum(24, 24);
    Pow2Sum(48, 5);
  }

  lemma SmallIsDouble(n: int, p: nat)
    requires Abs(n) <= TWO53
    ensures IsDouble(n * Pow2(p))
  {
    var unit := Pow2(p);
    if Abs(n) < TWO53 {
      assert Scaled(n * unit, n, p);
    } else {
      Halve(n / 2, unit);
      assert Pow2(p + 1) == 2 * unit;
      assert Scaled(n * unit, n / 2, p + 1);
    }
  }

  lemma Halve(h: int, unit: int)
    ensures (2 * h) * unit == h * (2 * unit)
  {
  }

  lemma Times(a: int, b: int, c: nat)
    requires a <= b
    ensures a * c <= b * c
  {
    assert (b - a) * c >= 0;
  }

  /** Distances in units are distances times the unit. */
  lemma Distance(a: int, b: int, unit: nat)
    requires unit > 0
    ensures Abs(a * unit - b * unit) == Abs(a - b) * unit
  {
    assert a * unit - b * unit == (a - b) * unit;
    if a < b { assert (a - b) * unit == -((b - a) * unit); Times(0, b - a, unit); }
    else { Times(0, a - b, unit); }
  }

  lemma Nearer(a: nat, b: nat, unit: nat)
    requires unit > 0 && a * unit <= b * unit
    ensures a <= b
  {
    if b < a { Times(b + 1, a, unit); }
  }

  /** If an integer operation on doubles gives a safe integer then that is the exact result: an integer beyond the safe
      range is never rounded into it. */
  lemma SafeRoundedIsExact(n: int, r: int, p: nat)
    requires Rounds(n, r, p) && Safe(r)
    ensures r == n
  {
    var at := if Abs(n) <= TWO53 then n else if n > 0 then TWO53 else -TWO53;
    SmallIsDouble(at, p);
    assert NearEnough(n * Pow2(p), r * Pow2(p), at * Pow2(p));
    Distance(r, n, Pow2(p));
    Distance(at, n, Pow2(p));
    Nearer(Abs(r - n), Abs(at - n), Pow2(p));
  }

  // ---------- Computing it ----------

  /** How many low bits of `a` do not fit in a significand. */
  function Excess(a: nat): nat {
    if a < TWO53 then 0 else 1 + Excess(a / 2)
  }

  function RoundUp(q: nat, rest: nat, u: nat): nat {
    if 2 * rest > u || (2 * rest == u && q % 2 == 1) then q + 1 else q
  }

  function RoundMagnitude(a: nat): nat {
    var u := Pow2(Excess(a));
    DividedBy(a, u);
    var c := RoundUp(a / u, a % u, u);
    Times(0, c, u);
    c * u
  }

  function Round(n: int): int {
    if n < 0 then 0 - RoundMagnitude(-n) else RoundMagnitude(n)
  }

  lemma ExcessFits(a: nat)
    ensures a / Pow2(Excess(a)) < TWO53
    ensures Excess(a) > 0 ==> TWO52 <= a / Pow2(Excess(a))
  {
    if a >= TWO53 {
      ExcessFits(a / 2);
      var v := Pow2(Excess(a / 2));
      HalvedTwice(a, v);
    }
  }

  lemma HalvedTwice(a: nat, v: nat)
    requires v > 0
    ensures a / (2 * v) == (a / 2) / v
  {
    var q := (a / 2) / v;
    assert a / 2 == q * v + (a / 2) % v;
    assert a == q * (2 * v) + (2 * ((a / 2) % v) + a % 2);
    Quotient(a, 2 * v, q, 2 * ((a / 2) % v) + a % 2);
  }

  lemma Quotient(a: int, d: nat, q: int, r: int)
    requires d > 0 && a == q * d + r && 0 <= r < d
    ensures a / d == q && a % d == r
  {
    if a / d < q { Times(a / d + 1, q, d); }
    if q < a / d { Times(q + 1, a / d, d); }
  }

  /** Between a number with a full significand and the next one there is no double. */
  lemma NoDoubleBetween(q: nat, k: nat, y: int)
    requires TWO52 <= q && IsDouble(y)
    ensures y <= q * Pow2(k) || (q + 1) * Pow2(k) <= y
  {
    var m: int, f: nat :| Scaled(y, m, f) && Abs(m) < TWO53;
    if f >= k {
      Pow2Sum(f - k, k);
      CoarseDouble(q, Pow2(k), m, Pow2(f - k));
    } else {
      Pow2Sum(k - f - 1, f + 1);
      FineDouble(q, Pow2(f), Pow2(k - f - 1), m);
    }
  }

  lemma CoarseDouble(q: nat, u: nat, m: int, v: nat)
    ensures var y := m * (v * u); y <= q * u || (q + 1) * u <= y
  {
    assert m * (v * u) == (m * v) * u;
    if m * v <= q { Times(m * v, q, u); } else { Times(q + 1, m * v, u); }
  }

  lemma FineDouble(q: nat, w: nat, v: nat, m: int)
    requires TWO52 <= q && m < TWO53 && v > 0
    ensures m * w <= q * (v * (2 * w))
  {
    Times(m, TWO53, w);
    Times(TWO52, q, 2 * w);
    Times(1, v, q * (2 * w));
    assert q * (v * (2 * w)) == v * (q * (2 * w));
  }

  // ---------- The computed value is the rounded one ----------

  lemma Regroup(a: int, b: int, c: int)
    ensures a * b * c == a * (b * c)
  {
  }

  lemma Candidate(c: nat, k: nat)
    requires TWO52 <= c <= TWO53
    ensures IsDouble(c * Pow2(k))
    ensures c % 2 == 0 ==> EvenSignificand(c * Pow2(k))
  {
    assert Scaled(c * Pow2(k), c, k);
    if c == TWO53 {
      Halve(TWO52, Pow2(k));
      assert Scaled(c * Pow2(k), TWO52, k + 1);
    }
  }

  /** With a candidate `down` below and one `up` above, and nothing in between, the choice of RoundUp is a nearest
      one. */
  lemma Choice(q: nat, rest: nat, u: nat, down: nat, up: nat, l: nat, y: int)
    requires 2 * rest < u ==> down < up
    requires 2 * rest > u ==> down > up
    requires 2 * rest == u ==> down == up
    requires y <= l || l + down + up <= y
    ensures var x := l + down;
      var r := if RoundUp(q, rest, u) == q then l else l + down + up;
      && Abs(r - x) <= Abs(y - x)
      && (Abs(r - x) == Abs(y - x) && y != r ==> 2 * rest == u)
  {
  }

  lemma Strictly(a: nat, b: nat, unit: nat)
    requires unit > 0
    ensures a < b ==> a * unit < b * unit
  {
    if a < b { Times(a + 1, b, unit); }
  }

  lemma InUnits(q: nat, rest: nat, up: nat, unit: nat)
    ensures var u := rest + up;
      && (q * u + rest) * unit == q * (u * unit) + rest * unit
      && (q + 1) * (u * unit) == q * (u * unit) + rest * unit + up * unit
      && q * u * unit == q * (u * unit) && (q + 1) * u * unit == (q + 1) * (u * unit)
  {
    var u := rest + up;
    Regroup(q, u, unit);
    Regroup(q + 1, u, unit);
    assert (q * u + rest) * unit == q * u * unit + rest * unit;
    assert u * unit == rest * unit + up * unit;
    assert (q + 1) * (u * unit) == q * (u * unit) + u * unit;
  }

  lemma MagnitudeRounds(a: nat, p: nat)
    ensures Rounds(a, RoundMagnitude(a), p)
  {
    if a < TWO53 {
      SmallIsDouble(a, p);
      assert RoundMagnitude(a) == a;
    } else {
      LargeRounds(a, p);
    }
  }

  lemma LargeNear(q: nat, rest: nat, up: nat, unit: nat, y: int)
    requires up > 0 && unit > 0
    requires var u := rest + up; y <= q * (u * unit) || (q + 1) * (u * unit) <= y
    requires var u := rest + up; var c := RoundUp(q, rest, u); c % 2 == 0 ==> EvenSignificand(c * (u * unit))
    ensures var u := rest + up; NearEnough((q * u + rest) * unit, RoundUp(q, rest, u) * u * unit, y)
  {
    InUnits(q, rest, up, unit);
    Strictly(rest, up, unit);
    Strictly(up, rest, unit);
    Choice(q, rest, rest + up, rest * unit, up * unit, q * ((rest + up) * unit), y);
  }

  lemma ChosenNear(q: nat, rest: nat, u: nat, unit: nat, k: nat, y: int)
    requires TWO52 <= q < TWO53 && rest < u && unit > 0 && Pow2(k) == u * unit && IsDouble(y)
    ensures NearEnough((q * u + rest) * unit, RoundUp(q, rest, u) * u * unit, y)
  {
    NoDoubleBetween(q, k, y);
    Candidate(RoundUp(q, rest, u), k);
    LargeNear(q, rest, u - rest, unit, y);
  }

  lemma ChosenRounds(q: nat, rest: nat, u: nat, e: nat, p: nat)
    requires TWO52 <= q < TWO53 && u == Pow2(e) && rest < u
    ensures Rounds(q * u + rest, RoundUp(q, rest, u) * u, p)
  {
    var c := RoundUp(q, rest, u);
    Pow2Sum(e, p);
    Candidate(c, e + p);
    Regroup(c, u, Pow2(p));
    forall y | IsDouble(y) ensures NearEnough((q * u + rest) * Pow2(p), c * u * Pow2(p), y) {
      ChosenNear(q, rest, u, Pow2(p), e + p, y);
    }
  }

  lemma LargeRounds(a: nat, p: nat)
    requires a >= TWO53
    ensures Rounds(a, RoundMagnitude(a), p)
  {
    var u := Pow2(Excess(a));
    ExcessFits(a);
    assert Excess(a) > 0;
    DividedBy(a, u);
    ChosenRounds(a / u, a % u, u, Excess(a), p);
  }

  lemma DividedBy(a: nat, u: nat)
    requires u > 0
    ensures a == a / u * u + a % u && a / u >= 0 && 0 <= a % u < u
  {
  }

  lemma Mirrored(x: int)
    requires IsDouble(x)
    ensures IsDouble(-x)
  {
    var m: int, k: nat :| Scaled(x, m, k) && Abs(m) < TWO53;
    assert Scaled(-x, -m, k);
  }

  lemma MirroredEven(x: int)
    requires EvenSignificand(x)
    ensures EvenSignificand(-x)
  {
    var m: int, k: nat :| Scaled(x, m, k) && m % 2 == 0 && TWO52 <= Abs(m) <= TWO53;
    assert Scaled(-x, -m, k);
  }

  lemma MirroredNear(x: int, r: int, y: int)
    requires NearEnough(x, r, -y)
    ensures NearEnough(-x, -r, y)
  {
    if EvenSignificand(r) { MirroredEven(r); }
  }

  lemma Negated(a: int, b: int)
    ensures (-a) * b == -(a * b)
  {
  }

  /** Round computes roundTiesToEven, whatever the unit. */
  lemma RoundRounds(n: int, p: nat)
    ensures Rounds(n, Round(n), p)
  {
    var a, unit := Abs(n), Pow2(p);
    var r := RoundMagnitude(a);
    MagnitudeRounds(a, p);
    if n < 0 {
      Negated(r, unit);
      Negated(a, unit);
      Mirrored(r * unit);
      forall y | IsDouble(y) ensures NearEnough(n * unit, Round(n) * unit, y) {
        Mirrored(y);
        MirroredNear(a * unit, r * unit, y);
      }
    }
  }

  /** Safe integers are exact, and nothing else is rounded to one. */
  lemma RoundSafe(n: int)
    ensures Safe(Round(n)) <==> Safe(n)
    ensures Safe(n) ==> Round(n) == n
  {
    if Safe(Round(n)) {
      RoundRounds(n, 0);
      SafeRoundedIsExact(n, Round(n), 0);
    }
    if Safe(n) {
      assert Excess(Abs(n)) == 0;
    }
  }
}
