/**
  * A person's debt: an exact decimal (java.math.BigDecimal) of at most two
  * decimal places when read from text, within ±999999999999. Sums and
  * differences are exact and are not range-checked.
  */
module Debts {
  import opened Wrappers
  import opened Text

  /** A BigDecimal: the number unscaled × 10^(−scale). Equality compares both parts. */
  datatype Decimal = Decimal(unscaled: int, scale: int)

  /** Debt wraps one BigDecimal; Debt.equals is BigDecimal.equals, so 1.0 and 1.00 differ. */
  datatype Debt = Debt(value: Decimal)

  /** Debt.MESSAGE_CONSTRAINTS, thrown by checkArgument as IllegalArgumentException. */
  datatype DebtError = InvalidDebt

  const MaxDebt := Decimal(999999999999, 0)
  const MinDebt := Decimal(-999999999999, 0)

  function Pow10(n: nat): (r: nat)
    ensures r >= 1
  {
    if n == 0 then 1 else 10 * Pow10(n - 1)
  }

  lemma {:induction false} Pow10Add(a: nat, b: nat)
    ensures Pow10(a + b) == Pow10(a) * Pow10(b)
  {
    if b > 0 {
      Pow10Add(a, b - 1);
      calc {
        Pow10(a + b);
        10 * Pow10(a + b - 1);
        10 * (Pow10(a) * Pow10(b - 1));
        Pow10(a) * (10 * Pow10(b - 1));
      }
    }
  }

  function MaxInt(a: int, b: int): int {
    if a < b then b else a
  }

  /** The unscaled value that denotes the same number at the finer scale `s`. */
  function AtScale(d: Decimal, s: int): int
    requires s >= d.scale
  {
    d.unscaled * Pow10(s - d.scale)
  }

  /** The number a decimal denotes. */
  function Value(d: Decimal): real {
    if d.scale >= 0 then d.unscaled as real / Pow10(d.scale) as real
    else (d.unscaled * Pow10(-d.scale)) as real
  }

  lemma CastMul(a: int, b: int)
    ensures (a * b) as real == a as real * b as real
  {
  }

  lemma DivCancel(x: real, p: real, q: real)
    requires p > 0.0 && q > 0.0
    ensures (x * q) / (p * q) == x / p
  {
    var r := x / p;
    assert r * p == x;
    assert x * q == r * (p * q);
  }

  lemma DivOrder(x: real, y: real, p: real)
    requires p > 0.0
    ensures x < y <==> x / p < y / p
    ensures x == y <==> x / p == y / p
  {
  }

  lemma DivAddSub(x: real, y: real, p: real)
    requires p > 0.0
    ensures (x + y) / p == x / p + y / p
    ensures (x - y) / p == x / p - y / p
  {
  }

  lemma ScaleDown(u: int, p: nat, q: nat)
    requires p > 0 && q > 0
    ensures (u * q) as real / (p * q) as real == u as real / p as real
  {
    CastMul(u, q);
    CastMul(p, q);
    DivCancel(u as real, p as real, q as real);
  }

  lemma ScaleUp(w: int, p: nat)
    requires p > 0
    ensures (w * p) as real / p as real == w as real
  {
    CastMul(w, p);
  }

  lemma MulRegroup(u: int, a: int, b: int)
    ensures u * (a * b) == (u * b) * a
  {
  }

  /** Rescaling keeps the number: at any scale t >= 0 at or above its own, d is AtScale(d, t) / 10^t. */
  lemma ValueAtScale(d: Decimal, t: int)
    requires t >= 0 && t >= d.scale
    ensures Value(d) == AtScale(d, t) as real / Pow10(t) as real
  {
    var u := d.unscaled;
    var pt := Pow10(t);
    if d.scale >= 0 {
      var p, q := Pow10(d.scale), Pow10(t - d.scale);
      Pow10Add(d.scale, t - d.scale);
      assert pt == p * q;
      ScaleDown(u, p, q);
    } else {
      var e := Pow10(-d.scale);
      Pow10Add(t, -d.scale);
      assert AtScale(d, t) == u * (pt * e);
      MulRegroup(u, pt, e);
      ScaleUp(u * e, pt);
    }
  }

  /** A decimal of scale 0 is the integer it holds. */
  lemma ValueOfInteger(n: int)
    ensures Value(Decimal(n, 0)) == n as real
  {
    assert Pow10(0) == 1;
  }

  /** Refining a scale multiplies the unscaled value by the matching power of ten. */
  lemma AtScaleRefine(d: Decimal, s: int, t: int)
    requires t >= s >= d.scale
    ensures AtScale(d, t) == AtScale(d, s) * Pow10(t - s)
  {
    Pow10Add(s - d.scale, t - s);
  }

  lemma MulPositive(x: int, y: int, c: int)
    requires c > 0
    ensures x < y <==> x * c < y * c
    ensures x == y <==> x * c == y * c
  {
    if x < y {
      assert y * c - x * c == (y - x) * c;
    } else if y < x {
      assert x * c - y * c == (x - y) * c;
    }
  }

  /** BigDecimal.compareTo: numeric comparison, blind to scale; -1, 0 or 1. */
  function CompareTo(a: Decimal, b: Decimal): (c: int)
    ensures -1 <= c <= 1
  {
    var m := MaxInt(a.scale, b.scale);
    var x, y := AtScale(a, m), AtScale(b, m);
    if x < y then -1 else if x == y then 0 else 1
  }

  /** compareTo orders decimals by the numbers they denote. */
  lemma CompareToIsNumeric(a: Decimal, b: Decimal)
    ensures CompareTo(a, b) == -1 <==> Value(a) < Value(b)
    ensures CompareTo(a, b) == 0 <==> Value(a) == Value(b)
    ensures CompareTo(a, b) == 1 <==> Value(a) > Value(b)
  {
    var m := MaxInt(a.scale, b.scale);
    var t := MaxInt(m, 0);
    var p := Pow10(t);
    AtScaleRefine(a, m, t);
    AtScaleRefine(b, m, t);
    MulPositive(AtScale(a, m), AtScale(b, m), Pow10(t - m));
    ValueAtScale(a, t);
    ValueAtScale(b, t);
    var x, y := AtScale(a, t), AtScale(b, t);
    DivOrder(x as real, y as real, p as real);
    DivOrder(y as real, x as real, p as real);
  }

  /** Debt.isValidDebt on the result of BigDecimal's parser; Null stands for a NumberFormatException. */
  predicate IsValidDebt(parsed: Nullable<Decimal>) {
    && parsed.Present?
    && parsed.value.scale <= 2
    && CompareTo(parsed.value, MaxDebt) != 1
    && CompareTo(parsed.value, MinDebt) != -1
  }

  /** A valid debt is a parsed decimal with at most two places, within ±999999999999. */
  lemma IsValidDebtMeaning(parsed: Nullable<Decimal>)
    ensures IsValidDebt(parsed) <==>
      && parsed.Present?
      && parsed.value.scale <= 2
      && -999999999999.0 <= Value(parsed.value) <= 999999999999.0
  {
    ValueOfInteger(999999999999);
    ValueOfInteger(-999999999999);
    if parsed.Present? {
      CompareToIsNumeric(parsed.value, MaxDebt);
      CompareToIsNumeric(parsed.value, MinDebt);
    }
  }

  /** Debt(String): rejects what isValidDebt rejects, else keeps the parsed decimal as it is. */
  function FromString(parsed: Nullable<Decimal>): (r: Result<Debt, DebtError>)
    ensures r.Ok? <==> IsValidDebt(parsed)
    ensures r.Ok? ==> r.value.value == parsed.value
  {
    if IsValidDebt(parsed) then Ok(Debt(parsed.value)) else Err(InvalidDebt)
  }

  /** Debt.isDebtOutOfRange. */
  predicate IsDebtOutOfRange(d: Debt) {
    !(CompareTo(d.value, MaxDebt) != 1 && CompareTo(d.value, MinDebt) != -1)
  }

  /** Out of range means above 999999999999 or below -999999999999; no debt read from text is. */
  lemma OutOfRangeMeaning(d: Debt, parsed: Nullable<Decimal>)
    ensures IsDebtOutOfRange(d) <==> Value(d.value) > 999999999999.0 || Value(d.value) < -999999999999.0
    ensures FromString(parsed).Ok? ==> !IsDebtOutOfRange(FromString(parsed).value)
  {
    ValueOfInteger(999999999999);
    ValueOfInteger(-999999999999);
    CompareToIsNumeric(d.value, MaxDebt);
    CompareToIsNumeric(d.value, MinDebt);
    IsValidDebtMeaning(parsed);
    if parsed.Present? {
      CompareToIsNumeric(parsed.value, MaxDebt);
      CompareToIsNumeric(parsed.value, MinDebt);
    }
  }

  /** Debt.add: BigDecimal.add at the larger scale, through the unchecked constructor. */
  function Add(first: Debt, second: Debt): (r: Debt)
    ensures r.value.scale == MaxInt(first.value.scale, second.value.scale)
  {
    var m := MaxInt(first.value.scale, second.value.scale);
    Debt(Decimal(AtScale(first.value, m) + AtScale(second.value, m), m))
  }

  /** Debt.subtract: BigDecimal.subtract at the larger scale, unchecked. */
  function Subtract(first: Debt, second: Debt): (r: Debt)
    ensures r.value.scale == MaxInt(first.value.scale, second.value.scale)
  {
    var m := MaxInt(first.value.scale, second.value.scale);
    Debt(Decimal(AtScale(first.value, m) - AtScale(second.value, m), m))
  }

  /** A sum is exact: its value is the sum of the operands' values. */
  lemma AddExact(first: Debt, second: Debt)
    ensures Value(Add(first, second).value) == Value(first.value) + Value(second.value)
  {
    var a, b := first.value, second.value;
    var m := MaxInt(a.scale, b.scale);
    var t := MaxInt(m, 0);
    var sum := Add(first, second).value;
    AtScaleRefine(a, m, t);
    AtScaleRefine(b, m, t);
    AtScaleRefine(sum, m, t);
    assert AtScale(sum, t) == AtScale(a, t) + AtScale(b, t);
    ValueAtScale(a, t);
    ValueAtScale(b, t);
    ValueAtScale(sum, t);
    DivAddSub(AtScale(a, t) as real, AtScale(b, t) as real, Pow10(t) as real);
  }

  /** A difference is exact: its value is the difference of the operands' values. */
  lemma SubtractExact(first: Debt, second: Debt)
    ensures Value(Subtract(first, second).value) == Value(first.value) - Value(second.value)
  {
    var a, b := first.value, second.value;
    var m := MaxInt(a.scale, b.scale);
    var t := MaxInt(m, 0);
    var diff := Subtract(first, second).value;
    AtScaleRefine(a, m, t);
    AtScaleRefine(b, m, t);
    AtScaleRefine(diff, m, t);
    assert AtScale(diff, t) == AtScale(a, t) - AtScale(b, t);
    ValueAtScale(a, t);
    ValueAtScale(b, t);
    ValueAtScale(diff, t);
    DivAddSub(AtScale(a, t) as real, AtScale(b, t) as real, Pow10(t) as real);
  }

  /** Sums and differences are exact, and stay within two places when both operands are. */
  lemma AddSubtractExact(first: Debt, second: Debt)
    ensures Value(Add(first, second).value) == Value(first.value) + Value(second.value)
    ensures Value(Subtract(first, second).value) == Value(first.value) - Value(second.value)
    ensures first.value.scale <= 2 && second.value.scale <= 2 ==>
      Add(first, second).value.scale <= 2 && Subtract(first, second).value.scale <= 2
  {
    AddExact(first, second);
    SubtractExact(first, second);
  }

  /** Adding a debt and then subtracting it gives back the same number. */
  lemma AddThenSubtract(first: Debt, second: Debt)
    ensures Value(Subtract(Add(first, second), second).value) == Value(first.value)
  {
    AddSubtractExact(first, second);
    AddSubtractExact(Add(first, second), second);
  }

  /** Debt.equals compares unscaled value and scale: 1.0 and 1.00 are the same number yet unequal debts. */
  lemma EqualityIsRepresentational()
    ensures Value(Decimal(10, 1)) == Value(Decimal(100, 2))
    ensures CompareTo(Decimal(10, 1), Decimal(100, 2)) == 0
    ensures Debt(Decimal(10, 1)) != Debt(Decimal(100, 2))
  {
    assert Pow10(1) == 10 && Pow10(2) == 100;
  }

  /** Products and quotients of non-negative numbers are non-negative. */
  lemma NonNegativeArithmetic(a: int, b: int)
    requires a >= 0 && b > 0
    ensures a * b >= 0 && a / b >= 0
  {
  }

  /** Whole cents of a non-negative decimal, rounded half up as %.2f does for BigDecimal. */
  function Cents(d: Decimal): nat
    requires d.unscaled >= 0
  {
    if d.scale <= 2 then
      NonNegativeArithmetic(d.unscaled, Pow10(2 - d.scale));
      AtScale(d, 2)
    else
      var q := Pow10(d.scale - 2);
      NonNegativeArithmetic(2 * d.unscaled + q, 2 * q);
      (2 * d.unscaled + q) / (2 * q)
  }

  /** Beyond two places the cents are the nearest whole number of cents, a half rounding up. */
  lemma CentsRounding(d: Decimal)
    requires d.unscaled >= 0 && d.scale > 2
    ensures var q := Pow10(d.scale - 2);
      2 * d.unscaled - q < 2 * Cents(d) * q <= 2 * d.unscaled + q
  {
    var q := Pow10(d.scale - 2);
    var c := Cents(d);
    var n := 2 * d.unscaled + q;
    assert c * (2 * q) <= n < c * (2 * q) + 2 * q;
  }

  /** "ddd.dd": the integer part, a point and exactly two digits. */
  function FormatCents(c: nat): string {
    NatToString(c / 100) + "." + [DigitChar(c / 10 % 10), DigitChar(c % 10)]
  }

  /** Debt.toUi: "$" and two places for a non-negative value, "-$" and two places of |value| otherwise. */
  function ToUi(d: Debt): string {
    if d.value.unscaled >= 0 then "$" + FormatCents(Cents(d.value))
    else "-$" + FormatCents(Cents(Magnitude(d.value)))
  }

  /** Reads "ddd.dd" back as a number of cents. */
  function ParseCents(t: string): Nullable<nat> {
    if |t| >= 4 && t[|t| - 3] == '.' && IsDigits(t[..|t| - 3]) && IsDigits(t[|t| - 2..]) then
      Present(DigitsValue(t[..|t| - 3]) * 100 + DigitsValue(t[|t| - 2..]))
    else Null
  }

  /** Reads a displayed debt back as a signed number of cents. */
  function ParseUi(s: string): Nullable<int> {
    if |s| >= 2 && s[..2] == "-$" then
      match ParseCents(s[2..])
      case Null => Null
      case Present(c) =>
        var negated: int := -(c as int);
        Present(negated)
    else if |s| >= 1 && s[0] == '$' then
      match ParseCents(s[1..])
      case Null => Null
      case Present(c) => Present(c)
    else Null
  }

  lemma FormatCentsRoundTrip(c: nat)
    ensures ParseCents(FormatCents(c)) == Present(c)
  {
    var t := FormatCents(c);
    var whole := NatToString(c / 100);
    assert t[..|t| - 3] == whole;
    assert t[|t| - 2..] == [DigitChar(c / 10 % 10), DigitChar(c % 10)];
    NatToStringRoundTrip(c / 100);
    TwoDigits(c / 10 % 10, c % 10);
    DigitSplit(c);
  }

  lemma TwoDigits(a: int, b: int)
    requires 0 <= a < 10 && 0 <= b < 10
    ensures DigitsValue([DigitChar(a), DigitChar(b)]) == 10 * a + b
  {
    var s := [DigitChar(a), DigitChar(b)];
    assert s[..1] == [DigitChar(a)] && s[..1][..0] == [];
    assert DigitsValue(s[..1][..0]) == 0;
    assert DigitsValue(s[..1]) == a;
    assert DigitsValue(s) == DigitsValue(s[..1]) * 10 + b;
  }

  lemma DigitSplit(c: nat)
    ensures (c / 100) * 100 + (c / 10 % 10) * 10 + c % 10 == c
  {
    var q := c / 10;
    assert c == 10 * q + c % 10;
    assert q == 10 * (q / 10) + q % 10;
    assert c / 100 == q / 10;
  }

  /**
    * What toUi shows is the debt to the cent: reading the text back gives the
    * value in cents, exactly for any debt of at most two places.
    */
  lemma ToUiShowsCents(d: Debt)
    ensures d.value.unscaled >= 0 ==> ParseUi(ToUi(d)) == Present(Cents(d.value) as int)
    ensures d.value.unscaled < 0 ==>
      ParseUi(ToUi(d)) == Present(0 - Cents(Magnitude(d.value)))
    ensures d.value.scale <= 2 ==> ParseUi(ToUi(d)) == Present(AtScale(d.value, 2))
    ensures d.value.scale <= 2 ==> Value(d.value) == AtScale(d.value, 2) as real / 100.0
  {
    var s := ToUi(d);
    if d.value.unscaled >= 0 {
      FormatCentsRoundTrip(Cents(d.value));
      assert s[1..] == FormatCents(Cents(d.value));
      assert s[..2] != "-$" by {
        assert s[0] == '$';
      }
    } else {
      var m := Magnitude(d.value);
      FormatCentsRoundTrip(Cents(m));
      assert s[..2] == "-$" && s[2..] == FormatCents(Cents(m));
    }
    if d.value.scale <= 2 {
      ExactCents(d.value);
    }
  }

  /** BigDecimal.abs: the magnitude at the same scale. */
  function Magnitude(d: Decimal): (m: Decimal)
    ensures m.unscaled >= 0 && m.scale == d.scale
  {
    Decimal(if d.unscaled < 0 then -d.unscaled else d.unscaled, d.scale)
  }

  /** Up to two places the cents are exact. */
  lemma ExactCents(d: Decimal)
    requires d.scale <= 2
    ensures d.unscaled >= 0 ==> Cents(d) == AtScale(d, 2)
    ensures d.unscaled < 0 ==> 0 - Cents(Magnitude(d)) == AtScale(d, 2)
    ensures Value(d) == AtScale(d, 2) as real / 100.0
  {
    ValueAtScale(d, 2);
    assert Pow10(2) == 100;
    var e := Pow10(2 - d.scale);
    assert (-d.unscaled) * e == -(d.unscaled * e);
  }
}
