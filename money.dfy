/**
 * The Money value object of the cart module: an amount quantized to two
 * decimal places and a currency code.  Every constructor call rounds the
 * amount half away from zero (Python's ROUND_HALF_UP) to whole cents, so the
 * model keeps the amount as an integer number of cents.  Amounts handed to the
 * constructor and scalars handed to multiplication and division are exact
 * rationals (`real`).
 */
module ValueObjects {
  import opened Wrappers

  datatype Money = Money(cents: int, currency: string)

  /** The currency a Money gets when none is given. */
  const DefaultCurrency: string := "BRL"

  /** The decimal amount of `m`, in currency units. */
  function Amount(m: Money): real
  {
    m.cents as real / 100.0
  }

  // ---------------------------------------------------------------------------
  // Rounding
  // ---------------------------------------------------------------------------

  /** `c` is `x` rounded to the nearest integer, ties going away from zero. */
  ghost predicate RoundsHalfAwayFromZero(x: real, c: int)
  {
    && x - 0.5 <= c as real <= x + 0.5
    && (c as real == x - 0.5 ==> x < 0.0)
    && (c as real == x + 0.5 ==> x > 0.0)
  }

  function RoundHalfAwayFromZero(x: real): (c: int)
    ensures RoundsHalfAwayFromZero(x, c)
  {
    if x >= 0.0 then (x + 0.5).Floor else -((0.5 - x).Floor)
  }

  /** The rounding relation determines its result: any integer it admits is the one computed. */
  lemma RoundingIsUnique(x: real, c: int)
    requires RoundsHalfAwayFromZero(x, c)
    ensures c == RoundHalfAwayFromZero(x)
  {
  }

  /** A whole number is left alone by rounding. */
  lemma RoundingWholeIsExact(n: int)
    ensures RoundHalfAwayFromZero(n as real) == n
  {
    RoundingIsUnique(n as real, n);
  }

  /** Rounding is monotone. */
  lemma RoundingIsMonotone(x: real, y: real)
    requires x <= y
    ensures RoundHalfAwayFromZero(x) <= RoundHalfAwayFromZero(y)
  {
  }

  /** A value between two whole numbers rounds to a whole number between them. */
  lemma RoundingStaysBetween(x: real, lo: int, hi: int)
    requires lo as real <= x <= hi as real
    ensures lo <= RoundHalfAwayFromZero(x) <= hi
  {
    RoundingIsMonotone(lo as real, x);
    RoundingIsMonotone(x, hi as real);
    RoundingWholeIsExact(lo);
    RoundingWholeIsExact(hi);
  }

  // ---------------------------------------------------------------------------
  // Construction
  // ---------------------------------------------------------------------------

  /** `Money(amount, currency)`: the amount is quantized to cents, half away from zero; the currency defaults to BRL. */
  function FromAmount(amount: real, currency: string := DefaultCurrency): (m: Money)
    ensures m.currency == currency
    ensures RoundsHalfAwayFromZero(amount * 100.0, m.cents)
  {
    Money(RoundHalfAwayFromZero(amount * 100.0), currency)
  }

  /** Re-constructing a Money from its own amount gives the same Money. */
  lemma ConstructionIsIdempotent(m: Money)
    ensures FromAmount(Amount(m), m.currency) == m
  {
    assert Amount(m) * 100.0 == m.cents as real;
    RoundingWholeIsExact(m.cents);
  }

  /** A tie on the half cent goes away from zero on both sides. */
  lemma ConstructionRoundsTiesAwayFromZero()
    ensures FromAmount(-0.005, DefaultCurrency).cents == -1
    ensures FromAmount(10.005, DefaultCurrency).cents == 1001
    ensures FromAmount(0.004, DefaultCurrency).cents == 0
  {
  }

  // ---------------------------------------------------------------------------
  // Arithmetic
  // ---------------------------------------------------------------------------

  function Add(a: Money, b: Money): (r: Result<Money, Error>)
    ensures r.Failure? <==> a.currency != b.currency
    ensures r.Failure? ==> r.error == CurrencyMismatch(a.currency, b.currency)
    ensures r.Success? ==> r.value == Money(a.cents + b.cents, a.currency)
  {
    if a.currency != b.currency then
      Failure(CurrencyMismatch(a.currency, b.currency))
    else
      var sum := Amount(a) + Amount(b);
      assert sum * 100.0 == (a.cents + b.cents) as real;
      RoundingWholeIsExact(a.cents + b.cents);
      Success(FromAmount(sum, a.currency))
  }

  function Sub(a: Money, b: Money): (r: Result<Money, Error>)
    ensures r.Failure? <==> a.currency != b.currency
    ensures r.Failure? ==> r.error == CurrencyMismatch(a.currency, b.currency)
    ensures r.Success? ==> r.value == Money(a.cents - b.cents, a.currency)
  {
    if a.currency != b.currency then
      Failure(CurrencyMismatch(a.currency, b.currency))
    else
      var difference := Amount(a) - Amount(b);
      assert difference * 100.0 == (a.cents - b.cents) as real;
      RoundingWholeIsExact(a.cents - b.cents);
      Success(FromAmount(difference, a.currency))
  }

  /** Subtracting what was added gives back the original Money. */
  lemma AddThenSubRoundTrip(a: Money, b: Money)
    requires a.currency == b.currency
    ensures Add(a, b).Success? && Sub(Add(a, b).value, b) == Success(a)
  {
  }

  /** Multiplication by a scalar: the exact product, rounded to cents, in the same currency. */
  function Mul(a: Money, k: real): (r: Money)
    ensures r.currency == a.currency
    ensures RoundsHalfAwayFromZero(a.cents as real * k, r.cents)
  {
    var product := Amount(a) * k;
    assert product * 100.0 == a.cents as real * k;
    FromAmount(product, a.currency)
  }

  /** Division by a scalar; a zero divisor is refused before anything else happens. */
  function Div(a: Money, k: real): (r: Result<Money, Error>)
    ensures r.Failure? <==> k == 0.0
    ensures r.Failure? ==> r.error == DivisionByZero
    ensures r.Success? ==> r.value.currency == a.currency
    ensures r.Success? ==> RoundsHalfAwayFromZero(a.cents as real / k, r.value.cents)
  {
    if k == 0.0 then
      Failure(DivisionByZero)
    else
      var quotient := Amount(a) / k;
      assert quotient * 100.0 == a.cents as real / k;
      Success(FromAmount(quotient, a.currency))
  }

  /** The cents of a product are the exact product of the cents and the scalar, rounded. */
  lemma MulRoundsExactProduct(a: Money, k: real)
    ensures Mul(a, k).cents == RoundHalfAwayFromZero(a.cents as real * k)
  {
    RoundingIsUnique(a.cents as real * k, Mul(a, k).cents);
  }

  /** Multiplying by a whole number is exact on cents. */
  lemma MulByWholeIsExact(a: Money, n: int)
    ensures Mul(a, n as real) == Money(a.cents * n, a.currency)
  {
    var m := Mul(a, n as real);
    assert a.cents as real * n as real == (a.cents * n) as real;
    RoundingIsUnique((a.cents * n) as real, m.cents);
    RoundingWholeIsExact(a.cents * n);
  }

  lemma WholeMultipleDivides(x: int, n: int)
    requires n != 0
    ensures (x * n) as real / n as real == x as real
  {
    var c, d := x as real, n as real;
    assert (x * n) as real == c * d;
    assert c * d / d == c;
  }

  /** Dividing by a non-zero whole number undoes multiplying by it. */
  lemma MulThenDivRoundTrip(a: Money, n: int)
    requires n != 0
    ensures Div(Mul(a, n as real), n as real) == Success(a)
  {
    MulByWholeIsExact(a, n);
    var q := Div(Money(a.cents * n, a.currency), n as real);
    WholeMultipleDivides(a.cents, n);
    RoundingIsUnique(a.cents as real, q.value.cents);
    RoundingWholeIsExact(a.cents);
  }

  // ---------------------------------------------------------------------------
  // Comparison
  // ---------------------------------------------------------------------------

  /** `==`: structural; a currency mismatch gives false rather than an error. */
  predicate Equals(a: Money, b: Money)
    ensures Equals(a, b) <==> a == b
  {
    a.currency == b.currency && a.cents == b.cents
  }

  function Lt(a: Money, b: Money): (r: Result<bool, Error>)
    ensures r.Failure? <==> a.currency != b.currency
    ensures r.Failure? ==> r.error == CurrencyMismatch(a.currency, b.currency)
    ensures r.Success? ==> (r.value <==> Amount(a) < Amount(b))
  {
    if a.currency != b.currency then Failure(CurrencyMismatch(a.currency, b.currency))
    else Success(a.cents < b.cents)
  }

  function Le(a: Money, b: Money): (r: Result<bool, Error>)
    ensures r.Failure? <==> a.currency != b.currency
    ensures r.Failure? ==> r.error == CurrencyMismatch(a.currency, b.currency)
    ensures r.Success? ==> (r.value <==> Amount(a) <= Amount(b))
  {
    if a.currency != b.currency then Failure(CurrencyMismatch(a.currency, b.currency))
    else Success(a.cents <= b.cents)
  }

  function Gt(a: Money, b: Money): (r: Result<bool, Error>)
    ensures r.Failure? <==> a.currency != b.currency
    ensures r.Failure? ==> r.error == CurrencyMismatch(a.currency, b.currency)
    ensures r.Success? ==> (r.value <==> Amount(a) > Amount(b))
  {
    if a.currency != b.currency then Failure(CurrencyMismatch(a.currency, b.currency))
    else Success(a.cents > b.cents)
  }

  function Ge(a: Money, b: Money): (r: Result<bool, Error>)
    ensures r.Failure? <==> a.currency != b.currency
    ensures r.Failure? ==> r.error == CurrencyMismatch(a.currency, b.currency)
    ensures r.Success? ==> (r.value <==> Amount(a) >= Amount(b))
  {
    if a.currency != b.currency then Failure(CurrencyMismatch(a.currency, b.currency))
    else Success(a.cents >= b.cents)
  }

  /** Within one currency the four orderings and equality agree with one another. */
  lemma OrderingsAgree(a: Money, b: Money)
    requires a.currency == b.currency
    ensures Gt(a, b) == Lt(b, a) && Ge(a, b) == Le(b, a)
    ensures Le(a, b).value <==> Lt(a, b).value || Equals(a, b)
    ensures Ge(a, b).value <==> !Lt(a, b).value
    ensures Lt(a, b).value || Equals(a, b) || Gt(a, b).value
    ensures !(Lt(a, b).value && Gt(a, b).value) && !(Lt(a, b).value && Equals(a, b)) && !(Gt(a, b).value && Equals(a, b))
  {
  }

  /** `is_zero`: the amount equals zero. */
  predicate IsZero(m: Money)
    ensures IsZero(m) <==> Amount(m) == 0.0
  {
    m.cents == 0
  }

  /** `is_positive`: the amount is above zero. */
  predicate IsPositive(m: Money)
    ensures IsPositive(m) <==> Amount(m) > 0.0
  {
    m.cents > 0
  }

  /** `is_negative`: the amount is below zero. */
  predicate IsNegative(m: Money)
    ensures IsNegative(m) <==> Amount(m) < 0.0
  {
    m.cents < 0
  }

  /** Exactly one of the three sign tests holds. */
  lemma SignsAreExclusive(m: Money)
    ensures IsZero(m) || IsPositive(m) || IsNegative(m)
    ensures !(IsZero(m) && IsPositive(m)) && !(IsZero(m) && IsNegative(m)) && !(IsPositive(m) && IsNegative(m))
    ensures IsZero(m) <==> Amount(m) == 0.0
    ensures IsPositive(m) <==> Amount(m) > 0.0
  {
  }

  // ---------------------------------------------------------------------------
  // Rendering
  // ---------------------------------------------------------------------------

  predicate IsDigit(ch: char)
  {
    '0' <= ch <= '9'
  }

  function DigitChar(d: int): (ch: char)
    requires 0 <= d <= 9
    ensures IsDigit(ch) && ch as int - '0' as int == d
  {
    ('0' as int + d) as char
  }

  /** The decimal numeral of `n`, without leading zeros. */
  function NatToString(n: nat): (s: string)
    ensures |s| >= 1
    ensures forall i :: 0 <= i < |s| ==> IsDigit(s[i])
    decreases n
  {
    if n < 10 then [DigitChar(n)] else NatToString(n / 10) + [DigitChar(n % 10)]
  }

  /** The value of a numeral. */
  function StringToNat(s: string): nat
    requires forall i :: 0 <= i < |s| ==> IsDigit(s[i])
  {
    if |s| == 0 then 0
    else
      assert IsDigit(s[|s| - 1]);
      StringToNat(s[..|s| - 1]) * 10 + (s[|s| - 1] as int - '0' as int)
  }

  lemma {:induction false} NumeralRoundTrip(n: nat)
    ensures StringToNat(NatToString(n)) == n
    decreases n
  {
    if n >= 10 {
      var s := NatToString(n);
      assert s[..|s| - 1] == NatToString(n / 10);
      NumeralRoundTrip(n / 10);
    }
  }

  function Abs(x: int): nat
  {
    if x < 0 then -x else x
  }

  /** `f'{amount:.2f}'`: an optional minus sign, the whole units, a point and two digits. */
  function FormatAmount(cents: int): (s: string)
    ensures |s| >= 4 && s[|s| - 3] == '.' && IsDigit(s[|s| - 2]) && IsDigit(s[|s| - 1])
    ensures s[0] == '-' <==> cents < 0
  {
    var units := Abs(cents) / 100;
    var fraction := Abs(cents) % 100;
    (if cents < 0 then "-" else "") + NatToString(units) + "." + [DigitChar(fraction / 10), DigitChar(fraction % 10)]
  }

  /** The numeral of a positive number does not start with '0'. */
  lemma {:induction false} NumeralHasNoLeadingZero(n: nat)
    requires n > 0
    ensures NatToString(n)[0] != '0'
    decreases n
  {
    if n >= 10 {
      assert NatToString(n)[0] == NatToString(n / 10)[0];
      NumeralHasNoLeadingZero(n / 10);
    }
  }

  /**
   * FormatAmount writes one canonical string per amount: a minus sign exactly
   * for a negative amount, then whole units without leading zeros ("0" for
   * none), a point and exactly two digits.
   */
  lemma FormatAmountIsCanonical(cents: int)
    ensures var s := FormatAmount(cents);
            && |s| >= 4
            && (s[0] == '-' <==> cents < 0)
            && s[|s| - 3] == '.' && IsDigit(s[|s| - 2]) && IsDigit(s[|s| - 1])
            && var units := if cents < 0 then s[1..|s| - 3] else s[..|s| - 3];
            && |units| >= 1
            && (forall i :: 0 <= i < |units| ==> IsDigit(units[i]))
            && (units[0] == '0' <==> units == "0")
  {
    var n := Abs(cents) / 100;
    var numeral := NatToString(n);
    var sign := if cents < 0 then "-" else "";
    var s := FormatAmount(cents);
    assert s == sign + numeral + "." + [DigitChar(Abs(cents) % 100 / 10), DigitChar(Abs(cents) % 100 % 10)];
    var units := if cents < 0 then s[1..|s| - 3] else s[..|s| - 3];
    assert units == numeral;
    if cents >= 0 {
      assert s[0] == numeral[0];
    }
    if n > 0 {
      NumeralHasNoLeadingZero(n);
    } else {
      assert numeral == "0";
    }
  }

  /** Reads back the part before the point: an optional minus sign and a numeral. */
  function ParseUnits(whole: string): Option<(bool, nat)>
  {
    if |whole| == 0 then None
    else
      var negative := whole[0] == '-';
      var digits := if negative then whole[1..] else whole;
      if |digits| == 0 || exists i :: 0 <= i < |digits| && !IsDigit(digits[i]) then None
      else Some((negative, StringToNat(digits)))
  }

  /** Reads back a string in the shape FormatAmount writes. */
  function ParseAmount(s: string): Option<int>
  {
    if |s| < 4 || s[|s| - 3] != '.' || !IsDigit(s[|s| - 2]) || !IsDigit(s[|s| - 1]) then None
    else
      match ParseUnits(s[..|s| - 3])
      case None => None
      case Some((negative, units)) =>
        var magnitude := units * 100 + (s[|s| - 2] as int - '0' as int) * 10 + (s[|s| - 1] as int - '0' as int);
        Some(if negative then -magnitude else magnitude)
  }

  /** The sign and numeral FormatAmount writes before the point read back to the sign and the whole units. */
  lemma SignedNumeralRoundTrip(negative: bool, units: nat)
    ensures ParseUnits((if negative then "-" else "") + NatToString(units)) == Some((negative, units))
  {
    var numeral := NatToString(units);
    var whole := (if negative then "-" else "") + numeral;
    if negative {
      assert whole[0] == '-' && whole[1..] == numeral;
    } else {
      assert whole == numeral && whole[0] != '-';
    }
    NumeralRoundTrip(units);
  }

  lemma FormatThenParseRoundTrip(cents: int)
    ensures ParseAmount(FormatAmount(cents)) == Some(cents)
  {
    var units := Abs(cents) / 100;
    var fraction := Abs(cents) % 100;
    var whole := (if cents < 0 then "-" else "") + NatToString(units);
    var tail := [DigitChar(fraction / 10), DigitChar(fraction % 10)];
    var s := whole + "." + tail;
    assert s == FormatAmount(cents);
    assert s[..|s| - 3] == whole;
    assert s[|s| - 3] == '.' && s[|s| - 2] == tail[0] && s[|s| - 1] == tail[1];
    SignedNumeralRoundTrip(cents < 0, units);
    assert units * 100 + (fraction / 10) * 10 + fraction % 10 == Abs(cents);
  }

  /** The prefix `__str__` puts before the amount: `R$` for BRL, the code otherwise. */
  function CurrencySymbol(currency: string): (s: string)
    ensures currency == "BRL" ==> s == "R$"
    ensures currency != "BRL" ==> s == currency
  {
    if currency == "BRL" then "R$" else currency
  }

  /** `__str__`: `R$ <amount>` for BRL, `<code> <amount>` otherwise, the amount to two places. */
  function ToString(m: Money): (s: string)
    ensures |s| > |CurrencySymbol(m.currency)| + 1
    ensures m.currency == "BRL" ==> s[..3] == "R$ "
    ensures m.currency != "BRL" ==> s[..|m.currency| + 1] == m.currency + " "
    ensures s[|CurrencySymbol(m.currency)| + 1..] == FormatAmount(m.cents)
    ensures ParseAmount(s[|CurrencySymbol(m.currency)| + 1..]) == Some(m.cents)
  {
    var s := CurrencySymbol(m.currency) + " " + FormatAmount(m.cents);
    assert s[|CurrencySymbol(m.currency)| + 1..] == FormatAmount(m.cents);
    FormatThenParseRoundTrip(m.cents);
    s
  }
}
