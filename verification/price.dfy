/** The `price` column: a `DecimalField` with two decimal places and a
    variant-dependent `max_digits`. Input is checked the way the REST
    framework's `DecimalField.validate_precision` checks it, on the digits as
    written, and the stored value is kept as integer cents. */
module Price {
  import opened Wrappers

  /** A Python `Decimal` as `as_tuple()` shows it: a sign, the decimal digits
      of `coefficient` (no leading zeros; zero has the single digit 0), and
      an exponent. `NonFinite` stands for NaN and the infinities. */
  datatype DecimalInput = Finite(negative: bool, coefficient: nat, exponent: int) | NonFinite

  datatype PrecisionError = NotANumber | MaxDigits | MaxDecimalPlaces | MaxWholeDigits

  /** `decimal_places=2` on both variants. */
  const DecimalPlaces: nat := 2

  function Pow10(k: nat): (r: nat)
    ensures r >= 1
  {
    if k == 0 then 1 else 10 * Pow10(k - 1)
  }

  lemma {:induction false} Pow10Add(a: nat, b: nat)
    ensures Pow10(a + b) == Pow10(a) * Pow10(b)
  {
    if a > 0 {
      Pow10Add(a - 1, b);
    }
  }

  lemma {:induction false} Pow10Monotone(a: nat, b: nat)
    requires a <= b
    ensures Pow10(a) <= Pow10(b)
  {
    if a < b {
      Pow10Monotone(a, b - 1);
    }
  }

  function Abs(x: int): nat {
    if x < 0 then -x else x
  }

  /** The length of the digit tuple of `n`: `n` needs exactly `d` digits. */
  function NumDigits(n: nat): (d: nat)
    ensures d >= 1
    ensures n < Pow10(d)
    ensures d > 1 ==> Pow10(d - 1) <= n
  {
    if n < 10 then 1 else 1 + NumDigits(n / 10)
  }

  /** Fewer than `10^k` means at most `k` digits. */
  lemma DigitsBelow(n: nat, k: nat)
    requires 1 <= k && n < Pow10(k)
    ensures NumDigits(n) <= k
  {
    var d := NumDigits(n);
    if d > k {
      Pow10Monotone(k, d - 1);
    }
  }

  lemma MulNat(a: nat, b: nat)
    ensures a * b >= 0
  {
  }

  lemma MulStrict(a: nat, b: nat, c: nat)
    requires a < b && c > 0
    ensures a * c < b * c
  {
  }

  /** The value of a finite decimal in cents, when it has at most two
      decimal places. */
  function Cents(negative: bool, coefficient: nat, exponent: int): int
    requires exponent >= -(DecimalPlaces as int)
  {
    var magnitude := coefficient * Pow10(exponent + DecimalPlaces);
    if negative then -magnitude else magnitude
  }

  /** `DecimalField(max_digits=maxDigits, decimal_places=2)` applied to a
      submitted value. An accepted value has at most two decimal places as
      written and fewer than `10^maxDigits` cents in magnitude; the result is
      that value in cents. */
  function ToCents(maxDigits: nat, d: DecimalInput): (r: Result<int, PrecisionError>)
    requires maxDigits >= DecimalPlaces
    ensures d.NonFinite? ==> r == Err(NotANumber)
    ensures r.Ok? ==> d.Finite? && d.exponent >= -(DecimalPlaces as int)
    ensures r.Ok? ==> r.value == Cents(d.negative, d.coefficient, d.exponent)
    ensures r.Ok? ==> Abs(r.value) < Pow10(maxDigits)
  {
    match d
    case NonFinite => Err(NotANumber)
    case Finite(negative, coefficient, exponent) =>
      var n := NumDigits(coefficient);
      // total digits, whole digits and decimal places, as validate_precision counts them
      var total := if exponent >= 0 then n + exponent else if n > -exponent then n else -exponent;
      var whole := if exponent >= 0 then n + exponent else if n > -exponent then n + exponent else 0;
      var places := if exponent >= 0 then 0 else -exponent;
      if total > maxDigits then Err(MaxDigits)
      else if places > DecimalPlaces then Err(MaxDecimalPlaces)
      else if whole > maxDigits - DecimalPlaces then Err(MaxWholeDigits)
      else
        assert n + exponent + DecimalPlaces <= maxDigits;
        CentsBound(maxDigits, negative, coefficient, exponent);
        Ok(Cents(negative, coefficient, exponent))
  }

  /** A number of `n` digits shifted left by `k` places has at most `n + k`
      digits. */
  lemma ShiftBound(c: nat, n: nat, k: nat, maxDigits: nat)
    requires c < Pow10(n) && n + k <= maxDigits
    ensures 0 <= c * Pow10(k) < Pow10(maxDigits)
  {
    MulNat(c, Pow10(k));
    MulStrict(c, Pow10(n), Pow10(k));
    Pow10Add(n, k);
    Pow10Monotone(n + k, maxDigits);
  }

  /** Every accepted decimal fits in `maxDigits` digits of cents. */
  lemma CentsBound(maxDigits: nat, negative: bool, coefficient: nat, exponent: int)
    requires exponent >= -(DecimalPlaces as int)
    requires NumDigits(coefficient) + exponent + DecimalPlaces <= maxDigits
    ensures Abs(Cents(negative, coefficient, exponent)) < Pow10(maxDigits)
  {
    var k: nat := exponent + DecimalPlaces;
    var magnitude := coefficient * Pow10(k);
    ShiftBound(coefficient, NumDigits(coefficient), k, maxDigits);
    assert Abs(Cents(negative, coefficient, exponent)) == magnitude;
  }

  /** The decimal a client sends for a given number of cents: `cents / 100`
      written with exactly two decimal places. */
  function FromCents(cents: int): DecimalInput {
    Finite(cents < 0, Abs(cents), -(DecimalPlaces as int))
  }

  /** Every amount of fewer than `10^maxDigits` cents, written with two
      decimals, is accepted and stored unchanged. */
  lemma CentsAccepted(maxDigits: nat, cents: int)
    requires maxDigits >= DecimalPlaces
    requires Abs(cents) < Pow10(maxDigits)
    ensures ToCents(maxDigits, FromCents(cents)) == Ok(cents)
  {
    DigitsBelow(Abs(cents), maxDigits);
  }

  /** A price the 5-digit column accepts is accepted, with the same value,
      by the 8-digit column. */
  lemma NarrowerAcceptsLess(d: DecimalInput)
    requires ToCents(5, d).Ok?
    ensures ToCents(8, d) == ToCents(5, d)
  {
  }

  /** 1000.00 fits eight digits but not five. */
  lemma ThousandNeedsWideColumn()
    ensures ToCents(5, FromCents(100000)).Err?
    ensures ToCents(8, FromCents(100000)) == Ok(100000)
  {
    CentsAccepted(8, 100000);
  }

  /** Precision is judged on the digits as written: `1.500` has three
      decimal places and is refused although it equals `1.50`. */
  lemma TrailingZerosCount()
    ensures ToCents(8, Finite(false, 1500, -3)) == Err(MaxDecimalPlaces)
    ensures ToCents(8, Finite(false, 150, -2)) == Ok(150)
  {
  }
}
