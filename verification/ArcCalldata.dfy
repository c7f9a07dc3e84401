/** USDC amounts, transfer calldata and the exact-transaction check for Arc
    (integrations/arc.py). The calldata follows "Formal Specification of the
    Encoding" of the Solidity Contract ABI Specification. */
module ArcCalldata {
  import opened Common

  datatype ArcError = BadAddress | NotPositive | TooManyDecimals | ExceedsUint256 | FieldDiffers

  const UINT256_MAX := 0x1_0000000000000000_0000000000000000_0000000000000000_0000000000000000 - 1
  const SCALE := 1_000_000
  /** Decimal arithmetic keeps 28 significant digits. */
  const PRECISION := 10_000_000_000_000_000_000_000_000_000

  /** A parsed decimal: `coefficient` times ten to the `exponent`. */
  datatype Amount = Amount(coefficient: int, exponent: int)

  function Pow10(n: nat): (r: nat)
    ensures r >= 1
  {
    if n == 0 then 1 else 10 * Pow10(n - 1)
  }

  /** Digits that must go for at most 28 to stay. */
  function Excess(p: nat): nat {
    if p < PRECISION then 0 else 1 + Excess(p / 10)
  }

  function RoundHalfEven(p: nat, d: nat): nat
    requires d >= 1
  {
    var q, r := p / d, p % d;
    if 2 * r > d || (2 * r == d && q % 2 == 1) then q + 1 else q
  }

  function ScaledCoefficient(a: Amount): nat
    requires a.coefficient > 0
  {
    a.coefficient * SCALE
  }

  function Bounded(units: nat): Result<nat, ArcError> {
    if units > UINT256_MAX then Err(ExceedsUint256) else Ok(units)
  }

  /** `usdc_to_base_units` on a parsed decimal: the product with 10^6 is rounded to
      the working precision before the whole-number check. */
  function UnitsOf(a: Amount): Result<nat, ArcError> {
    if a.coefficient <= 0 then Err(NotPositive)
    else
      var k := Excess(ScaledCoefficient(a));
      var q := RoundHalfEven(ScaledCoefficient(a), Pow10(k));
      var x := a.exponent + k;
      if x >= 0 then Bounded(q * Pow10(x))
      else if q % Pow10(-x) != 0 then Err(TooManyDecimals)
      else Bounded(q / Pow10(-x))
  }

  /** `units` is the amount times 10^6, without any rounding. */
  predicate ExactUnits(a: Amount, units: nat)
    requires a.coefficient > 0
  {
    if a.exponent >= 0 then units == a.coefficient * 1_000_000 * Pow10(a.exponent)
    else units * Pow10(-a.exponent) == a.coefficient * 1_000_000
  }

  /** Nothing but zeros beyond the 28th significant digit. */
  predicate FitsPrecision(a: Amount)
    requires a.coefficient > 0
  {
    ScaledCoefficient(a) % Pow10(Excess(ScaledCoefficient(a))) == 0
  }

  // ----------------------------------------------------------------- arithmetic

  lemma {:induction false} PowAdd(m: nat, n: nat)
    ensures Pow10(m + n) == Pow10(m) * Pow10(n)
  {
    if m > 0 {
      PowAdd(m - 1, n);
    }
  }

  lemma RoundsWhenDivides(p: nat, d: nat)
    requires d >= 1
    ensures RoundHalfEven(p, d) * d == p <==> p % d == 0
  {
    var q, r := p / d, p % d;
    assert p == q * d + r && 0 <= r < d;
    assert (q + 1) * d == q * d + d;
  }

  /** The working precision: as many digits go as leave at most 28. */
  lemma {:induction false} ExcessExactly(p: nat)
    ensures p / Pow10(Excess(p)) < 10_000_000_000_000_000_000_000_000_000
    ensures Excess(p) > 0 ==> p >= 10_000_000_000_000_000_000_000_000_000 * Pow10(Excess(p) - 1)
  {
    if p >= PRECISION {
      ExcessExactly(p / 10);
      var k := Excess(p / 10);
      DivideTwice(p, 10, Pow10(k));
      if k > 0 {
        assert p / 10 >= PRECISION * Pow10(k - 1);
        assert p >= 10 * (p / 10);
        TimesTen(PRECISION, Pow10(k - 1));
      }
    }
  }

  lemma TimesTen(x: nat, y: nat)
    ensures 10 * (x * y) == x * (10 * y)
  {
  }

  lemma DivideTwice(p: nat, c: nat, d: nat)
    requires c >= 1 && d >= 1
    ensures c * d >= 1 && p / c / d == p / (c * d)
  {
    var q, r := Divide(p, c);
    var m, t := Divide(q, d);
    assert p == (m * d + t) * c + r;
    Distribute(m * d, t, c);
    assert m * d * c == m * (c * d);
    assert t * c + r < c * d by {
      MulAtLeast(d - t, c);
      Distribute(d - t, t, c);
    }
    var n, u := Divide(p, c * d);
    DivisionIsUnique(c * d, m, t * c + r, n, u);
  }

  /** Rounding goes to the nearest multiple, ties to an even quotient. */
  lemma RoundsToNearest(p: nat, d: nat)
    requires d >= 1
    ensures var q := RoundHalfEven(p, d);
            && 2 * q * d - d <= 2 * p <= 2 * q * d + d
            && (2 * p == 2 * q * d + d || 2 * p == 2 * q * d - d ==> q % 2 == 0)
  {
    var q, r := p / d, p % d;
    assert p == q * d + r;
    assert (q + 1) * d == q * d + d;
  }

  lemma MulPositive(x: nat, f: nat)
    requires x >= 1 && f >= 1
    ensures x * f >= 1
  {
  }

  lemma Distribute(x: nat, y: nat, f: nat)
    ensures (x + y) * f == x * f + y * f
  {
  }

  lemma CancelFactor(a: nat, b: nat, f: nat)
    requires f >= 1
    ensures a * f == b * f <==> a == b
  {
    if a < b {
      MulPositive(b - a, f);
      Distribute(b - a, a, f);
    } else if a > b {
      MulPositive(a - b, f);
      Distribute(a - b, b, f);
    }
  }

  /** The shape of every successful conversion: `q` shifted by the remaining
      exponent. */
  lemma UnitsShift(a: Amount)
    requires UnitsOf(a).Ok?
    ensures a.coefficient > 0
    ensures var k := Excess(ScaledCoefficient(a));
            var q, x, u := RoundHalfEven(ScaledCoefficient(a), Pow10(k)), a.exponent + k, UnitsOf(a).value;
            u <= UINT256_MAX && if x >= 0 then u == q * Pow10(x) else u * Pow10(-x) == q
  {
    var k := Excess(ScaledCoefficient(a));
    var q, x := RoundHalfEven(ScaledCoefficient(a), Pow10(k)), a.exponent + k;
    if x < 0 {
      DivideExactly(q, Pow10(-x));
    }
  }

  lemma DivideExactly(q: nat, d: nat)
    requires d >= 1
    ensures q % d == 0 ==> q / d * d == q
  {
  }

  /** The base units are the exact amount if and only if the amount fits the
      working precision. */
  lemma UnitsExactly(a: Amount)
    requires UnitsOf(a).Ok?
    ensures a.coefficient > 0
    ensures ExactUnits(a, UnitsOf(a).value) <==> FitsPrecision(a)
  {
    UnitsShift(a);
    var p := ScaledCoefficient(a);
    var k := Excess(p);
    var q, e, u := RoundHalfEven(p, Pow10(k)), a.exponent, UnitsOf(a).value;
    RoundsWhenDivides(p, Pow10(k));
    ShiftedValue(q, k, e, u);
    if e >= 0 {
      CancelFactor(q * Pow10(k), p, Pow10(e));
    }
  }

  lemma ShiftedValue(q: nat, k: nat, e: int, u: nat)
    requires if e + k >= 0 then u == q * Pow10(e + k) else u * Pow10(-(e + k)) == q
    ensures if e >= 0 then u == q * Pow10(k) * Pow10(e) else u * Pow10(-e) == q * Pow10(k)
  {
    if e >= 0 {
      PowAdd(k, e);
      MulAssoc(q, Pow10(k), Pow10(e));
    } else if e + k >= 0 {
      PowAdd(e + k, -e);
      MulAssoc(q, Pow10(e + k), Pow10(-e));
    } else {
      PowAdd(-(e + k), k);
      MulAssoc(u, Pow10(-(e + k)), Pow10(k));
    }
  }

  lemma MulAssoc(a: nat, b: nat, c: nat)
    ensures a * b * c == a * (b * c)
  {
  }

  lemma {:induction false} ExcessBound(p: nat, n: nat)
    requires p < PRECISION * Pow10(n)
    ensures Excess(p) <= n
  {
    if p >= PRECISION {
      ExcessBound(p / 10, n - 1);
    }
  }

  lemma {:induction false} PowDivides(m: nat, n: nat)
    requires m <= n
    ensures Pow10(n) == Pow10(m) * Pow10(n - m)
  {
    PowAdd(m, n - m);
  }

  /** At most 28 digits always fit. */
  lemma ShortAmountsFit(a: Amount)
    requires 0 < a.coefficient < PRECISION
    ensures FitsPrecision(a)
  {
    assert Pow10(6) == SCALE;
    ExcessBound(ScaledCoefficient(a), 6);
    var k := Excess(ScaledCoefficient(a));
    PowDivides(k, 6);
    MultipleDivides(a.coefficient, Pow10(6 - k), Pow10(k));
  }

  lemma MultipleDivides(c: nat, f: nat, d: nat)
    requires d >= 1
    ensures (c * (d * f)) % d == 0
  {
    assert c * (d * f) == (c * f) * d;
    ModOfMultiple(c * f, d);
  }

  lemma MulAtLeast(x: nat, d: nat)
    requires x >= 1
    ensures x * d >= d
  {
    Distribute(x - 1, 1, d);
  }

  lemma SmallerQuotient(d: nat, q: nat, r: nat, p: nat, t: nat)
    requires r < d && q < p
    ensures q * d + r < p * d + t
  {
    MulAtLeast(p - q, d);
    Distribute(p - q, q, d);
  }

  /** Quotient and remainder are determined. */
  lemma DivisionIsUnique(d: nat, q: nat, r: nat, p: nat, t: nat)
    requires r < d && t < d && q * d + r == p * d + t
    ensures q == p && r == t
  {
    if q < p {
      SmallerQuotient(d, q, r, p, t);
    } else if p < q {
      SmallerQuotient(d, p, t, q, r);
    }
  }

  lemma Divide(n: nat, d: nat) returns (p: nat, t: nat)
    requires d >= 1
    ensures p == n / d && t == n % d && n == p * d + t && t < d
  {
    p, t := n / d, n % d;
  }

  lemma RemainderIs(q: nat, d: nat, r: nat)
    requires r < d
    ensures (q * d + r) % d == r
  {
    var p, t := Divide(q * d + r, d);
    DivisionIsUnique(d, q, r, p, t);
  }

  lemma ModOfMultiple(n: nat, d: nat)
    requires d >= 1
    ensures (n * d) % d == 0
  {
    RemainderIs(n, d, 0);
  }

  /** Which amounts convert, and to what: within the working precision a positive
      amount converts to exactly the whole number of base units it is, if it is one
      and fits uint256; more decimals than six or more units are refused. */
  lemma ConvertsExactly(a: Amount, units: nat)
    requires a.coefficient > 0 && FitsPrecision(a)
    ensures UnitsOf(a) == Ok(units) <==> ExactUnits(a, units) && units < Pow16(64)
  {
    Word256();
    if UnitsOf(a).Ok? {
      UnitsShift(a);
      UnitsExactly(a);
      OneExactUnits(a, UnitsOf(a).value, units);
    } else if ExactUnits(a, units) {
      ExactAmountConverts(a, units);
    }
  }

  /** Why an amount is refused, within the working precision: it is not positive, it is
      no whole number of base units, or it is one beyond uint256. */
  lemma RefusedExactly(a: Amount)
    ensures UnitsOf(a) == Err(NotPositive) <==> a.coefficient <= 0
    ensures a.coefficient > 0 && FitsPrecision(a) ==>
              && (UnitsOf(a) == Err(TooManyDecimals) <==> forall units: nat :: !ExactUnits(a, units))
              && (UnitsOf(a) == Err(ExceedsUint256) <==>
                    exists units: nat :: ExactUnits(a, units) && units >= Pow16(64))
  {
    Word256();
    if a.coefficient > 0 && FitsPrecision(a) {
      forall units: nat | ExactUnits(a, units) ensures UnitsOf(a) == Bounded(units) {
        ExactAmountConverts(a, units);
      }
      if UnitsOf(a).Ok? {
        UnitsExactly(a);
      } else if UnitsOf(a) == Err(ExceedsUint256) {
        var units := OverflowingUnits(a);
      }
    }
  }

  /** An amount refused as too large is a whole number of units. */
  lemma OverflowingUnits(a: Amount) returns (units: nat)
    requires a.coefficient > 0 && FitsPrecision(a) && UnitsOf(a) == Err(ExceedsUint256)
    ensures ExactUnits(a, units) && units > UINT256_MAX
  {
    var p := ScaledCoefficient(a);
    var k := Excess(p);
    var q, x := RoundHalfEven(p, Pow10(k)), a.exponent + k;
    RoundsWhenDivides(p, Pow10(k));
    if x >= 0 {
      units := q * Pow10(x);
    } else {
      units := q / Pow10(-x);
      DivideExactly(q, Pow10(-x));
    }
    ShiftedValue(q, k, a.exponent, units);
  }

  lemma OneExactUnits(a: Amount, u: nat, v: nat)
    requires a.coefficient > 0 && ExactUnits(a, u)
    ensures ExactUnits(a, v) <==> u == v
  {
    if a.exponent < 0 {
      CancelFactor(u, v, Pow10(-a.exponent));
    }
  }

  lemma ExactAmountConverts(a: Amount, units: nat)
    requires a.coefficient > 0 && FitsPrecision(a) && ExactUnits(a, units)
    ensures UnitsOf(a) == Bounded(units)
  {
    var p := ScaledCoefficient(a);
    var k := Excess(p);
    var q, e := RoundHalfEven(p, Pow10(k)), a.exponent;
    RoundsWhenDivides(p, Pow10(k));
    if e + k >= 0 {
      ShiftedValue(q, k, e, q * Pow10(e + k));
      OneExactUnits(a, units, q * Pow10(e + k)) by {
        if e < 0 {
          assert q * Pow10(e + k) * Pow10(-e) == q * Pow10(k);
        }
      }
    } else {
      PowAdd(-(e + k), k);
      MulAssoc(units, Pow10(-(e + k)), Pow10(k));
      CancelFactor(units * Pow10(-(e + k)), q, Pow10(k));
      QuotientIs(units, Pow10(-(e + k)), q);
    }
  }

  lemma QuotientIs(u: nat, d: nat, q: nat)
    requires d >= 1 && u * d == q
    ensures q % d == 0 && q / d == u
  {
    RemainderIs(u, d, 0);
    assert q == q / d * d;
    CancelFactor(q / d, u, d);
  }

  /** Beyond the precision two amounts share their base units: 29 digits are cut to
      28 without an error. */
  lemma LongAmountsCollide()
    ensures UnitsOf(Amount(PRECISION + 1, -6)) == UnitsOf(Amount(PRECISION, -6)) == Ok(PRECISION)
    ensures !FitsPrecision(Amount(PRECISION + 1, -6))
  {
    var p, r := (PRECISION + 1) * SCALE, PRECISION * SCALE;
    SevenOver(p);
    SevenOver(r);
    assert Pow10(7) == 10_000_000 && Pow10(1) == 10;
  }

  lemma SevenOver(p: nat)
    requires PRECISION * SCALE <= p < PRECISION * SCALE * 10
    ensures Excess(p) == 7
  {
    assert p / 10 >= PRECISION && p / 10 / 10 >= PRECISION && p / 10 / 10 / 10 >= PRECISION;
    assert p / 10 / 10 / 10 / 10 >= PRECISION && p / 10 / 10 / 10 / 10 / 10 >= PRECISION;
    assert p / 10 / 10 / 10 / 10 / 10 / 10 >= PRECISION > p / 10 / 10 / 10 / 10 / 10 / 10 / 10;
    assert Excess(p / 10 / 10 / 10 / 10 / 10 / 10) == 1;
    assert Excess(p / 10 / 10 / 10 / 10) == 3;
    assert Excess(p / 10 / 10) == 5;
  }

  // ------------------------------------------------------------------- encoding

  function HexDigit(n: nat): char
    requires n < 16
  {
    "0123456789abcdef"[n]
  }

  function HexValue(c: char): (n: nat)
    ensures n < 16
  {
    if '0' <= c <= '9' then c as int - '0' as int
    else if 'a' <= c <= 'f' then c as int - 'a' as int + 10
    else if 'A' <= c <= 'F' then c as int - 'A' as int + 10
    else 0
  }

  predicate IsHex(c: char) {
    '0' <= c <= '9' || 'a' <= c <= 'f' || 'A' <= c <= 'F'
  }

  /** Zero-padded big-endian hexadecimal. */
  function HexWord(n: nat, width: nat): (s: string)
    ensures |s| == width
  {
    if width == 0 then "" else HexWord(n / 16, width - 1) + [HexDigit(n % 16)]
  }

  function ParseHex(s: string): nat {
    if s == "" then 0 else 16 * ParseHex(s[..|s| - 1]) + HexValue(Last(s))
  }

  function Pow16(n: nat): nat {
    if n == 0 then 1 else 16 * Pow16(n - 1)
  }

  lemma HexWordLast(n: nat, width: nat)
    requires width > 0
    ensures HexWord(n, width)[..width - 1] == HexWord(n / 16, width - 1)
    ensures Last(HexWord(n, width)) == HexDigit(n % 16)
  {
  }

  lemma DigitRoundTrip(n: nat)
    requires n < 16
    ensures HexValue(HexDigit(n)) == n
  {
  }

  lemma {:induction false} HexRoundTrip(n: nat, width: nat)
    requires n < Pow16(width)
    ensures ParseHex(HexWord(n, width)) == n
  {
    if width > 0 {
      HexRoundTrip(n / 16, width - 1);
      HexWordLast(n, width);
      DigitRoundTrip(n % 16);
    }
  }

  lemma {:induction false} PowersOf16(m: nat, n: nat)
    ensures Pow16(m + n) == Pow16(m) * Pow16(n)
  {
    if m > 0 {
      PowersOf16(m - 1, n);
      MulAssoc(16, Pow16(m - 1), Pow16(n));
    }
  }

  lemma Word16()
    ensures Pow16(16) == 0x1_0000_0000_0000_0000
  {
    assert Pow16(4) == 0x10000;
    assert Pow16(8) == 0x1_0000_0000 by {
      PowersOf16(4, 4);
    }
    PowersOf16(8, 8);
  }

  lemma Word256()
    ensures Pow16(64) == UINT256_MAX + 1
  {
    assert Pow16(32) == 0x1_0000_0000_0000_0000 * 0x1_0000_0000_0000_0000 by {
      Word16();
      PowersOf16(16, 16);
    }
    PowersOf16(32, 32);
  }

  predicate IsAddress(value: string) {
    |value| == 42 && value[0] == '0' && value[1] == 'x' && forall i :: 2 <= i < 42 ==> IsHex(value[i])
  }

  lemma AddressExactly(value: string)
    ensures IsAddress(value) <==>
              |value| == 42 && value[..2] == "0x" && forall c :: c in value[2..] ==> c in "0123456789abcdefABCDEF"
  {
    forall c: char ensures IsHex(c) <==> c in "0123456789abcdefABCDEF" {
      HexDigitsExactly(c);
    }
    if |value| == 42 {
      assert forall i :: 2 <= i < 42 ==> value[i] == value[2..][i - 2];
    }
  }

  lemma HexDigitsExactly(c: char)
    ensures IsHex(c) <==> c in "0123456789abcdefABCDEF"
  {
    var digits := "0123456789abcdefABCDEF";
    if '0' <= c <= '9' {
      assert digits[c as int - '0' as int] == c;
    } else if 'a' <= c <= 'f' {
      assert digits[c as int - 'a' as int + 10] == c;
    } else if 'A' <= c <= 'F' {
      assert digits[c as int - 'A' as int + 16] == c;
    }
  }

  function Zeros(n: nat): string {
    seq(n, i => '0')
  }

  const SELECTOR := "0xa9059cbb"

  /** `build_usdc_transfer_calldata`. */
  function Build(recipient: string, amount: Amount): Result<string, ArcError> {
    if !IsAddress(recipient) then Err(BadAddress)
    else if UnitsOf(amount).Err? then Err(UnitsOf(amount).error)
    else Ok(SELECTOR + Zeros(24) + Lower(recipient)[2..] + HexWord(UnitsOf(amount).value, 64))
  }

  /** What a contract reads back from `transfer(address,uint256)` calldata. */
  function Decode(data: string): Option<(string, nat)> {
    if |data| == 138 && data[..10] == SELECTOR && data[10..34] == Zeros(24)
    then Some(("0x" + data[34..74], ParseHex(data[74..])))
    else None
  }

  /** Fixed length, and decoding gives back the lower-cased recipient and the base
      units. */
  lemma DecodesToPayment(recipient: string, amount: Amount)
    requires Build(recipient, amount).Ok?
    ensures UnitsOf(amount).Ok?
    ensures var data := Build(recipient, amount).value;
            && |data| == 138 && Decode(data) == Some((Lower(recipient), UnitsOf(amount).value))
            && data[..10] == "0xa9059cbb" && data[10..34] == "000000000000000000000000"
            && data[34..74] == Lower(recipient)[2..] && ParseHex(data[74..]) == UnitsOf(amount).value
  {
    var data, word := Build(recipient, amount).value, HexWord(UnitsOf(amount).value, 64);
    if UnitsOf(amount).Ok? {
      UnitsShift(amount);
      Word256();
      HexRoundTrip(UnitsOf(amount).value, 64);
    }
    assert data[..10] == SELECTOR && data[10..34] == Zeros(24);
    assert data[34..74] == Lower(recipient)[2..] && data[74..] == word;
    assert Lower(recipient) == "0x" + Lower(recipient)[2..];
  }

  /** The same number of dollars. */
  predicate SameValue(a: Amount, b: Amount) {
    if a.exponent >= b.exponent then a.coefficient * Pow10(a.exponent - b.exponent) == b.coefficient
    else a.coefficient == b.coefficient * Pow10(b.exponent - a.exponent)
  }

  /** Two amounts that convert exactly have the same units exactly when they are
      the same amount. */
  lemma SameUnitsSameValue(a: Amount, u: nat, b: Amount, v: nat)
    requires a.coefficient > 0 && b.coefficient > 0
    requires ExactUnits(a, u) && ExactUnits(b, v)
    ensures u == v <==> SameValue(a, b)
  {
    if a.exponent >= b.exponent {
      OrderedUnits(a, u, b, v);
    } else {
      OrderedUnits(b, v, a, u);
    }
  }

  lemma OrderedUnits(a: Amount, u: nat, b: Amount, v: nat)
    requires a.coefficient > 0 && b.coefficient > 0 && a.exponent >= b.exponent
    requires ExactUnits(a, u) && ExactUnits(b, v)
    ensures u == v <==> a.coefficient * Pow10(a.exponent - b.exponent) == b.coefficient
  {
    var d := a.exponent - b.exponent;
    var shifted := a.coefficient * Pow10(d);
    assert shifted * SCALE == ScaledCoefficient(a) * Pow10(d) by {
      assert a.coefficient * Pow10(d) * SCALE == a.coefficient * SCALE * Pow10(d);
    }
    CancelFactor(shifted, b.coefficient, SCALE);
    if b.exponent >= 0 {
      PowAdd(d, b.exponent);
      MulAssoc(ScaledCoefficient(a), Pow10(d), Pow10(b.exponent));
      CancelFactor(shifted * SCALE, ScaledCoefficient(b), Pow10(b.exponent));
    } else {
      UnitsAtLower(a, u, d);
      CancelFactor(u, v, Pow10(-b.exponent));
    }
  }

  /** The units of `a` at a smaller, negative exponent. */
  lemma UnitsAtLower(a: Amount, u: nat, d: nat)
    requires a.coefficient > 0 && ExactUnits(a, u) && a.exponent - d < 0
    ensures u * Pow10(-(a.exponent - d)) == ScaledCoefficient(a) * Pow10(d)
  {
    var e := a.exponent;
    if e >= 0 {
      PowAdd(e, d - e);
      MulAssoc(ScaledCoefficient(a), Pow10(e), Pow10(d - e));
    } else {
      PowAdd(-e, d);
      MulAssoc(u, Pow10(-e), Pow10(d));
    }
  }

  /** Distinct payments have distinct calldata, within the working precision: equal
      calldata means the same recipient, letter case aside, and the same amount. */
  lemma CalldataIsInjective(r: string, a: Amount, s: string, b: Amount)
    requires Build(r, a).Ok? && Build(s, b).Ok?
    requires UnitsOf(a).Ok? && UnitsOf(b).Ok?
    requires a.coefficient > 0 && b.coefficient > 0 && FitsPrecision(a) && FitsPrecision(b)
    ensures Build(r, a) == Build(s, b) <==> Lower(r) == Lower(s) && SameValue(a, b)
  {
    DecodesToPayment(r, a);
    DecodesToPayment(s, b);
    UnitsExactly(a);
    UnitsExactly(b);
    SameUnitsSameValue(a, UnitsOf(a).value, b, UnitsOf(b).value);
  }

  // ---------------------------------------------------------------- transactions

  datatype Transaction = Transaction(chainId: int, from: string, to: string, valueWei: int, data: string)

  const ARC_CHAIN_ID := 5042
  const USDC_ADDRESS := "0x3600000000000000000000000000000000000000"

  function BuildTransaction(sender: string, recipient: string, amount: Amount): Result<Transaction, ArcError> {
    if !IsAddress(sender) then Err(BadAddress)
    else if !IsAddress(recipient) then Err(BadAddress)
    else if Build(Lower(recipient), amount).Err? then Err(Build(Lower(recipient), amount).error)
    else Ok(Transaction(ARC_CHAIN_ID, Lower(sender), USDC_ADDRESS, 0, Build(Lower(recipient), amount).value))
  }

  /** `validate_arc_usdc_transfer`, field by field. */
  function Validate(t: Transaction, sender: string, recipient: string, amount: Amount): Option<ArcError> {
    var expected := BuildTransaction(sender, recipient, amount);
    if expected.Err? then Some(expected.error)
    else if t.chainId != expected.value.chainId || t.from != expected.value.from || t.to != expected.value.to
         || t.valueWei != expected.value.valueWei || t.data != expected.value.data then Some(FieldDiffers)
    else None
  }

  lemma LowerKeepsAddress(value: string)
    requires IsAddress(value)
    ensures IsAddress(Lower(value)) && Lower(Lower(value)) == Lower(value)
  {
    forall i | 2 <= i < 42 ensures IsHex(Lower(value)[i]) {
      assert IsHex(value[i]);
    }
  }

  /** The validator accepts a transaction exactly if it moves no native value on Arc,
      from this sender to the USDC contract, with calldata that a contract reads as
      a transfer of exactly these units to this recipient. */
  lemma ValidatesExactly(t: Transaction, sender: string, recipient: string, amount: Amount)
    ensures Validate(t, sender, recipient, amount).None? <==>
              && IsAddress(sender) && IsAddress(recipient) && UnitsOf(amount).Ok?
              && t.chainId == 5042 && t.from == Lower(sender) && t.valueWei == 0
              && t.to == "0x3600000000000000000000000000000000000000"
              && LowerHex(t.data) && Decode(t.data) == Some((Lower(recipient), UnitsOf(amount).value))
  {
    if IsAddress(sender) && IsAddress(recipient) && UnitsOf(amount).Ok? {
      LowerKeepsAddress(recipient);
      var data := Build(Lower(recipient), amount).value;
      DecodesToPayment(Lower(recipient), amount);
      BuildIsLowerHex(recipient, amount);
      if LowerHex(t.data) && Decode(t.data) == Decode(data) {
        DecodeIsInjective(t.data, data);
      }
    }
  }

  predicate IsLowerHex(c: char) {
    '0' <= c <= '9' || 'a' <= c <= 'f'
  }

  /** Lower-case hexadecimal after the first two characters. */
  predicate LowerHex(data: string) {
    forall i :: 2 <= i < |data| ==> IsLowerHex(data[i])
  }

  lemma {:induction false} HexWordIsLowerHex(n: nat, width: nat)
    ensures forall c :: c in HexWord(n, width) ==> IsLowerHex(c)
  {
    if width > 0 {
      HexWordIsLowerHex(n / 16, width - 1);
    }
  }

  lemma BuildIsLowerHex(recipient: string, amount: Amount)
    requires IsAddress(recipient) && UnitsOf(amount).Ok? && Build(Lower(recipient), amount).Ok?
    ensures LowerHex(Build(Lower(recipient), amount).value)
  {
    var data := Build(Lower(recipient), amount).value;
    HexWordIsLowerHex(UnitsOf(amount).value, 64);
    LowerKeepsAddress(recipient);
    forall i | 2 <= i < |data| ensures IsLowerHex(data[i]) {
      if 34 <= i < 74 {
        assert data[i] == Lower(Lower(recipient))[i - 32];
        assert IsHex(recipient[i - 32]);
      } else if i >= 74 {
        assert data[i] == HexWord(UnitsOf(amount).value, 64)[i - 74];
      }
    }
  }

  lemma DigitIsInjective(c: char, d: char)
    requires IsLowerHex(c) && IsLowerHex(d) && HexValue(c) == HexValue(d)
    ensures c == d
  {
  }

  lemma {:induction false} ParseIsInjective(s: string, t: string)
    requires |s| == |t| && ParseHex(s) == ParseHex(t)
    requires (forall i :: 0 <= i < |s| ==> IsLowerHex(s[i])) && (forall i :: 0 <= i < |t| ==> IsLowerHex(t[i]))
    ensures s == t
  {
    if s != "" {
      var n := |s| - 1;
      assert 16 * ParseHex(s[..n]) + HexValue(s[n]) == 16 * ParseHex(t[..n]) + HexValue(t[n]);
      ParseIsInjective(s[..n], t[..n]);
      DigitIsInjective(s[n], t[n]);
      assert s == s[..n] + [s[n]] && t == t[..n] + [t[n]];
    }
  }

  lemma DecodeIsInjective(s: string, t: string)
    requires LowerHex(s) && LowerHex(t)
    requires Decode(s).Some? && Decode(s) == Decode(t)
    ensures s == t
  {
    assert ("0x" + s[34..74])[2..] == s[34..74] && ("0x" + t[34..74])[2..] == t[34..74];
    ParseIsInjective(s[74..], t[74..]);
    assert s == s[..10] + s[10..34] + s[34..74] + s[74..];
    assert t == t[..10] + t[10..34] + t[34..74] + t[74..];
  }
}
