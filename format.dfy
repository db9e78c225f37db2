/** Display formatting of numbers (lib/utils/format.ts): magnitude
    abbreviation with a "K"/"M" suffix and signed percentages.

    JavaScript's `Number.prototype.toFixed` is modelled in two halves: the
    choice of the scaled integer `n` (the value times 10^f, rounded) is an
    abstract `Rounding` passed in by the caller, and the rendering of `n` as
    digits with exactly `f` of them after the decimal point is concrete. */
module Format {

  /** Chooses, for a non-negative value `x` and a digit count `f`, the
      integer `n` that `toFixed(f)` renders as n / 10^f. */
  type Rounding = (real, nat) -> nat

  function Pow10(f: nat): (p: nat)
    ensures p >= 1
  {
    if f == 0 then 1 else 10 * Pow10(f - 1)
  }

  /** A rounding that lands within half a unit of the last place, as
      `toFixed` does. */
  ghost predicate Faithful(round: Rounding)
  {
    forall x: real, f: nat :: 0.0 <= x ==>
      -0.5 <= (round(x, f) as real) - x * (Pow10(f) as real) <= 0.5
  }

  /** The rule ECMAScript states for `toFixed` (the nearest n, the larger one
      on a tie), applied to the exact value rather than to a binary double. */
  function NearestTiesUp(x: real, f: nat): (n: nat)
    ensures 0.0 <= x ==> -0.5 < (n as real) - x * (Pow10(f) as real) <= 0.5
  {
    if x < 0.0 then 0
    else
      var y := x * (Pow10(f) as real) + 0.5;
      assert y.Floor as real > y - 1.0;
      y.Floor
  }

  lemma NearestTiesUpIsFaithful()
    ensures Faithful(NearestTiesUp)
  {
    forall x: real, f: nat | 0.0 <= x
      ensures -0.5 <= (NearestTiesUp(x, f) as real) - x * (Pow10(f) as real) <= 0.5
    {
    }
  }

  // ----- digit strings -----

  predicate IsDigit(c: char) { '0' <= c <= '9' }

  predicate AllDigits(s: string)
  {
    forall i :: 0 <= i < |s| ==> IsDigit(s[i])
  }

  function DigitChar(d: nat): (c: char)
    requires d < 10
    ensures IsDigit(c) && (c as int) - ('0' as int) == d
  {
    (('0' as int) + d) as char
  }

  /** The number a digit string denotes (the inverse of `NatToString`). */
  function DigitsValue(s: string): nat
    requires AllDigits(s)
  {
    if s == [] then 0
    else 10 * DigitsValue(s[..|s| - 1]) + ((s[|s| - 1] as int) - ('0' as int))
  }

  /** `n.toString()` for a non-negative integer: no leading zeros. */
  function NatToString(n: nat): (r: string)
    ensures |r| >= 1 && AllDigits(r)
    ensures DigitsValue(r) == n
    ensures r[0] == '0' ==> r == "0"
    decreases n
  {
    if n < 10 then [DigitChar(n)]
    else
      var r := NatToString(n / 10) + [DigitChar(n % 10)];
      assert r[..|r| - 1] == NatToString(n / 10);
      r
  }

  /** Text of the form "-"? digit+ . */
  predicate IsIntegerText(s: string)
  {
    if |s| > 0 && s[0] == '-' then |s| >= 2 && AllDigits(s[1..])
    else |s| >= 1 && AllDigits(s)
  }

  function IntegerValue(s: string): int
    requires IsIntegerText(s)
  {
    if s[0] == '-' then 0 - DigitsValue(s[1..]) else DigitsValue(s)
  }

  /** No superfluous leading zero and no signed zero: the digits after an
      optional '-' start with '0' only when the whole text is "0". */
  predicate CanonicalInteger(s: string)
    requires IsIntegerText(s)
  {
    var d := if s[0] == '-' then s[1..] else s;
    d[0] == '0' ==> s == "0"
  }

  /** `num.toString()` for an integer `num`. */
  function IntToString(i: int): (r: string)
    ensures IsIntegerText(r) && IntegerValue(r) == i
    ensures r[0] == '-' <==> i < 0
    ensures CanonicalInteger(r)
  {
    if i < 0 then
      var r := "-" + NatToString(-i);
      assert r[1..] == NatToString(-i);
      r
    else NatToString(i)
  }

  function Zeros(k: nat): (z: string)
    ensures |z| == k && AllDigits(z)
  {
    if k == 0 then [] else Zeros(k - 1) + ['0']
  }

  lemma {:induction false} DigitsAppend(a: string, d: char)
    requires AllDigits(a) && IsDigit(d)
    ensures AllDigits(a + [d])
    ensures DigitsValue(a + [d]) == 10 * DigitsValue(a) + ((d as int) - ('0' as int))
  {
    assert (a + [d])[..|a + [d]| - 1] == a;
  }

  /** Leading zeros do not change the value of a digit string. */
  lemma {:induction false} LeadingZeros(k: nat, m: string)
    requires AllDigits(m)
    ensures AllDigits(Zeros(k) + m)
    ensures DigitsValue(Zeros(k) + m) == DigitsValue(m)
    decreases |m|, k
  {
    if m == [] {
      assert Zeros(k) + m == Zeros(k);
      if k > 0 {
        LeadingZeros(k - 1, []);
        assert Zeros(k - 1) + [] == Zeros(k - 1);
        DigitsAppend(Zeros(k - 1), '0');
      }
    } else {
      var init := m[..|m| - 1];
      assert m == init + [m[|m| - 1]];
      LeadingZeros(k, init);
      assert Zeros(k) + m == (Zeros(k) + init) + [m[|m| - 1]];
      DigitsAppend(Zeros(k) + init, m[|m| - 1]);
      DigitsAppend(init, m[|m| - 1]);
    }
  }

  // ----- fixed-point text -----

  /** Digits with exactly `f` of them after a single '.', none when f == 0. */
  predicate IsFixed(s: string, f: nat)
  {
    if f == 0 then |s| >= 1 && AllDigits(s)
    else
      && |s| >= f + 2
      && AllDigits(s[..|s| - f - 1])
      && s[|s| - f - 1] == '.'
      && AllDigits(s[|s| - f..])
  }

  /** The scaled integer a fixed-point text denotes: its digits with the
      point removed. */
  function FixedValue(s: string, f: nat): nat
    requires IsFixed(s, f)
  {
    if f == 0 then DigitsValue(s)
    else
      var digits := s[..|s| - f - 1] + s[|s| - f..];
      assert forall i :: 0 <= i < |digits| ==>
        digits[i] == if i < |s| - f - 1 then s[i] else s[i + 1];
      DigitsValue(digits)
  }

  /** No superfluous leading zero before the point: the whole part is "0"
      or starts with a non-zero digit. */
  predicate CanonicalFixed(s: string, f: nat)
    requires IsFixed(s, f)
  {
    if f == 0 then (s[0] == '0' ==> s == "0")
    else (s[0] == '0' ==> s[1] == '.')
  }

  /** Left-pads a digit string with zeros to at least `width` digits. */
  function PadZeros(m: string, width: nat): (p: string)
    requires AllDigits(m)
    ensures AllDigits(p) && |p| >= width && DigitsValue(p) == DigitsValue(m)
    ensures |m| >= width ==> p == m
    ensures |m| < width ==> |p| == width
  {
    if |m| < width then
      LeadingZeros(width - |m|, m);
      Zeros(width - |m|) + m
    else m
  }

  /** Inserting the point before the last `f` digits gives fixed-point text
      that denotes the same scaled integer. */
  lemma InsertPoint(p: string, f: nat)
    requires AllDigits(p) && |p| >= f + 1 && f > 0
    ensures IsFixed(p[..|p| - f] + "." + p[|p| - f..], f)
    ensures FixedValue(p[..|p| - f] + "." + p[|p| - f..], f) == DigitsValue(p)
  {
    var whole, frac := p[..|p| - f], p[|p| - f..];
    assert AllDigits(whole) && AllDigits(frac);
    PointValue(whole, frac);
    assert whole + frac == p;
  }

  lemma PointValue(whole: string, frac: string)
    requires AllDigits(whole) && AllDigits(frac) && |whole| >= 1 && |frac| >= 1
    ensures IsFixed(whole + "." + frac, |frac|)
    ensures FixedValue(whole + "." + frac, |frac|) == DigitsValue(whole + frac)
  {
    var r := whole + "." + frac;
    var f := |frac|;
    PointParts(whole, frac);
    assert IsFixed(r, f);
    assert r[..|r| - f - 1] + r[|r| - f..] == whole + frac;
  }

  lemma PointParts(whole: string, frac: string)
    requires AllDigits(whole) && AllDigits(frac) && |whole| >= 1 && |frac| >= 1
    ensures var r := whole + "." + frac;
      && |r| >= |frac| + 2
      && r[..|r| - |frac| - 1] == whole
      && r[|r| - |frac| - 1] == '.'
      && r[|r| - |frac|..] == frac
  {
  }

  /** Renders the scaled integer `n` with `f` digits after the point,
      padding with zeros so that at least one digit precedes it. */
  function FixedDigits(n: nat, f: nat): (r: string)
    ensures IsFixed(r, f) && FixedValue(r, f) == n
    ensures CanonicalFixed(r, f)
  {
    var m := NatToString(n);
    if f == 0 then m
    else
      var p := PadZeros(m, f + 1);
      InsertPoint(p, f);
      var r := p[..|p| - f] + "." + p[|p| - f..];
      assert r[0] == p[0];
      assert |p| == f + 1 ==> r[1] == '.';
      r
  }

  function Abs(x: real): real { if x < 0.0 then -x else x }

  /** `x.toFixed(f)`: a '-' for a negative value (even one that rounds to
      zero), then the digits of the rounded magnitude. */
  function ToFixed(x: real, f: nat, round: Rounding): (r: string)
    requires f <= 100
    ensures |r| >= 1
    ensures r[0] == '-' <==> x < 0.0
    ensures IsFixed(if x < 0.0 then r[1..] else r, f)
    ensures FixedValue(if x < 0.0 then r[1..] else r, f) == round(Abs(x), f)
    ensures CanonicalFixed(if x < 0.0 then r[1..] else r, f)
  {
    var digits := FixedDigits(round(Abs(x), f), f);
    if x < 0.0 then
      assert ("-" + digits)[1..] == digits;
      "-" + digits
    else digits
  }

  // ----- the two exported formatters -----

  lemma FixedChars(s: string, f: nat)
    requires IsFixed(s, f)
    ensures forall i :: 0 <= i < |s| ==> IsDigit(s[i]) || s[i] == '.'
  {
    if f > 0 {
      var k := |s| - f - 1;
      assert forall i :: 0 <= i < k ==> s[i] == s[..k][i];
      assert forall i :: k < i < |s| ==> s[i] == s[k + 1..][i - k - 1];
    }
  }

  lemma IntegerChars(s: string)
    requires IsIntegerText(s)
    ensures forall i :: 0 <= i < |s| ==> IsDigit(s[i]) || (i == 0 && s[i] == '-')
  {
    if s[0] == '-' {
      assert forall i :: 0 < i < |s| ==> s[i] == s[1..][i - 1];
    }
  }

  /** Appending a one-character suffix to a mantissa. */
  lemma Suffixed(mantissa: string, c: char)
    requires IsFixed(mantissa, 1)
    ensures var r := mantissa + [c];
      && r[..|r| - 1] == mantissa
      && r[|r| - 1] == c
      && forall i :: 0 <= i < |r| - 1 ==> IsDigit(r[i]) || r[i] == '.'
  {
    FixedChars(mantissa, 1);
  }

  /** `formatNumber`: thresholds are tested on the raw value, largest
      first. */
  function FormatNumber(num: int, round: Rounding): (r: string)
    ensures |r| >= 2 || (|r| >= 1 && num < 1000)
    ensures r[|r| - 1] == 'M' <==> num >= 1000000
    ensures r[|r| - 1] == 'K' <==> 1000 <= num < 1000000
    ensures num >= 1000 ==> IsFixed(r[..|r| - 1], 1)
    ensures num >= 1000000 ==>
      FixedValue(r[..|r| - 1], 1) == round(num as real / 1000000.0, 1)
    ensures 1000 <= num < 1000000 ==>
      FixedValue(r[..|r| - 1], 1) == round(num as real / 1000.0, 1)
    ensures num < 1000 ==> IsIntegerText(r) && IntegerValue(r) == num
    ensures num >= 1000 ==> CanonicalFixed(r[..|r| - 1], 1)
    ensures num < 1000 ==> CanonicalInteger(r)
    ensures num < 1000 ==> (r[0] == '-' <==> num < 0)
    ensures forall i :: 0 <= i < |r| - 1 ==> r[i] != 'K' && r[i] != 'M'
  {
    if num >= 1000000 then
      var mantissa := ToFixed(num as real / 1000000.0, 1, round);
      Suffixed(mantissa, 'M');
      mantissa + "M"
    else if num >= 1000 then
      var mantissa := ToFixed(num as real / 1000.0, 1, round);
      Suffixed(mantissa, 'K');
      mantissa + "K"
    else
      var r := IntToString(num);
      IntegerChars(r);
      r
  }

  /** `formatPercentage`: "+" exactly for a non-negative value, then
      `value.toFixed(decimals)`, then "%". */
  function FormatPercentage(value: real, decimals: nat, round: Rounding): (r: string)
    requires decimals <= 100
    ensures |r| >= 3
    ensures r[0] == '+' <==> value >= 0.0
    ensures r[0] == '-' <==> value < 0.0
    ensures r[|r| - 1] == '%'
    ensures IsFixed(r[1..|r| - 1], decimals)
    ensures FixedValue(r[1..|r| - 1], decimals) == round(Abs(value), decimals)
    ensures CanonicalFixed(r[1..|r| - 1], decimals)
  {
    var fixed := ToFixed(value, decimals, round);
    if value >= 0.0 then
      var r := "+" + fixed + "%";
      assert r[1..|r| - 1] == fixed;
      r
    else
      var r := fixed + "%";
      assert r[1..|r| - 1] == fixed[1..];
      r
  }

  /** The decimals a caller gets by omitting the argument. */
  const DefaultPercentageDecimals: nat := 1

  // ----- what the digits mean, for a faithful rounding -----

  lemma FaithfulAt(round: Rounding, x: real, f: nat)
    requires Faithful(round) && 0.0 <= x
    ensures -0.5 <= (round(x, f) as real) - x * (Pow10(f) as real) <= 0.5
  {
  }

  lemma MulNonNegative(a: real, b: real)
    requires a >= 0.0 && b >= 0.0
    ensures a * b >= 0.0
  {
  }

  /** A scaled integer within half a tenth of num / unit, times unit, is
      within half a unit of 10 * num. */
  lemma TenthsBound(num: int, unit: int, n: nat)
    requires unit > 0
    requires -0.5 <= (n as real) - (num as real / unit as real) * 10.0 <= 0.5
    ensures -unit <= 2 * (n * unit - 10 * num) <= unit
  {
    var u := unit as real;
    var q := num as real / u;
    var d := (n as real) - q * 10.0;
    assert q * u == num as real;
    assert (n as real) * u == (n * unit) as real;
    assert d * u == (n as real) * u - 10.0 * (q * u);
    assert d * u == (n * unit - 10 * num) as real;
    MulNonNegative(d + 0.5, u);
    MulNonNegative(0.5 - d, u);
    assert (d + 0.5) * u == d * u + 0.5 * u;
    assert (0.5 - d) * u == 0.5 * u - d * u;
  }

  /** In the K and M branches the mantissa is num / unit to within half a
      tenth, for unit 1000 and 1000000 respectively. */
  lemma FormatNumberMantissa(num: int, round: Rounding)
    requires Faithful(round)
    requires num >= 1000
    ensures var r := FormatNumber(num, round);
      var unit: int := if num >= 1000000 then 1000000 else 1000;
      -unit <= 2 * (FixedValue(r[..|r| - 1], 1) * unit - 10 * num) <= unit
  {
    if num >= 1000000 {
      FaithfulAt(round, num as real / 1000000.0, 1);
      TenthsBound(num, 1000000, round(num as real / 1000000.0, 1));
    } else {
      FaithfulAt(round, num as real / 1000.0, 1);
      TenthsBound(num, 1000, round(num as real / 1000.0, 1));
    }
  }

  /** The digits of a percentage are |value| scaled by 10^decimals to within
      half a unit. */
  lemma FormatPercentageDigits(value: real, decimals: nat, round: Rounding)
    requires Faithful(round)
    requires decimals <= 100
    ensures var r := FormatPercentage(value, decimals, round);
      -0.5 <= (FixedValue(r[1..|r| - 1], decimals) as real)
              - Abs(value) * (Pow10(decimals) as real) <= 0.5
  {
    FaithfulAt(round, Abs(value), decimals);
  }

  // ----- worked values -----

  lemma FormatNumberPlain(round: Rounding)
    ensures FormatNumber(999, round) == "999"
    ensures FormatNumber(-1500, round) == "-1500"
    ensures FormatNumber(0, round) == "0"
  {
    assert NatToString(999) == "999";
    assert NatToString(1500) == "1500";
  }

  lemma FormatNumberThousands(round: Rounding)
    requires Faithful(round)
    ensures FormatNumber(1500, round) == "1.5K"
    ensures FormatNumber(45000, round) == "45.0K"
  {
    FaithfulAt(round, 1.5, 1);
    assert round(1.5, 1) == 15;
    assert NatToString(15) == "15";
    assert PadZeros("15", 2) == "15";
    FaithfulAt(round, 45.0, 1);
    assert round(45.0, 1) == 450;
    assert NatToString(450) == "450";
    assert PadZeros("450", 2) == "450";
  }

  lemma FormatNumberMillions(round: Rounding)
    requires Faithful(round)
    ensures FormatNumber(1234567, round) == "1.2M"
    ensures FormatNumber(2500000, round) == "2.5M"
  {
    FaithfulAt(round, 1.234567, 1);
    assert round(1.234567, 1) == 12;
    assert NatToString(12) == "12";
    assert PadZeros("12", 2) == "12";
    FaithfulAt(round, 2.5, 1);
    assert round(2.5, 1) == 25;
    assert NatToString(25) == "25";
    assert PadZeros("25", 2) == "25";
  }

  /** Because the branch is chosen on the raw value, a value just under a
      million renders with a four-digit K mantissa under every faithful
      rounding (999.999 has a single faithful rounding to tenths). */
  lemma FormatNumberBelowMillion(round: Rounding)
    requires Faithful(round)
    ensures FormatNumber(999999, round) == "1000.0K"
  {
    FaithfulAt(round, 999.999, 1);
    assert round(999.999, 1) == 10000;
    assert NatToString(10000) == "10000";
    assert PadZeros("10000", 2) == "10000";
  }

  lemma FormatPercentageExamples()
    ensures FormatPercentage(5.25, DefaultPercentageDecimals, NearestTiesUp) == "+5.3%"
    ensures FormatPercentage(-5.25, DefaultPercentageDecimals, NearestTiesUp) == "-5.3%"
  {
    assert NearestTiesUp(5.25, 1) == 53;
    assert NatToString(53) == "53";
    assert PadZeros("53", 2) == "53";
  }

  /** A negative value that rounds to zero still carries its '-'. */
  lemma FormatPercentageNegativeZero()
    ensures FormatPercentage(-0.01, 1, NearestTiesUp) == "-0.0%"
  {
    assert NearestTiesUp(0.01, 1) == 0;
    assert NatToString(0) == "0";
    assert Zeros(1) == "0";
    assert PadZeros("0", 2) == "00";
  }
}
