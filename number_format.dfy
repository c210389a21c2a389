/**
  Conversion of a number to the text shown in the amount field:
  ECMA-262 section 6.1.6.1.20, Number::toString(x, 10), applied to exact
  decimals. `Normalize` gives every decimal value one representation, so
  two numbers are equal exactly when their normal forms are.
 */
module NumberFormat {
  import opened AmountText

  /** Multiplying by 10^a and then by 10^b is multiplying by 10^(a + b). */
  lemma {:induction false} MulPow(c: int, a: nat, b: nat)
    ensures (c * Pow10(a)) * Pow10(b) == c * Pow10(a + b)
  {
    if b > 0 {
      MulPow(c, a, b - 1);
      var q := c * Pow10(a + b - 1);
      assert (c * Pow10(a)) * Pow10(b) == ((c * Pow10(a)) * Pow10(b - 1)) * 10;
      assert c * Pow10(a + b) == q * 10;
    }
  }

  lemma MulPowAt(c: int, a: nat, b: nat, n: nat)
    requires n == a + b
    ensures (c * Pow10(a)) * Pow10(b) == c * Pow10(n)
  {
    MulPow(c, a, b);
  }

  lemma TimesTen(c: int)
    ensures (c * 10) % 10 == 0 && (c * 10) / 10 == c
  {
  }

  /**
    The canonical representation of a decimal: no trailing zero in `units`
    unless the scale is already zero. NormalizeValue shows that it denotes
    the same value as `x`.
   */
  function Normalize(x: Number): (r: Number)
    decreases if x.Finite? then x.scale else 0
    ensures r.NaN? <==> x.NaN?
    ensures r.Finite? ==> r.scale <= x.scale && (r.scale == 0 || r.units % 10 != 0)
  {
    match x
    case NaN => NaN
    case Finite(u, s) => if s > 0 && u % 10 == 0 then Normalize(Finite(u / 10, s - 1)) else x
  }

  /** Normalizing only removes common factors of ten: the value is unchanged. */
  lemma {:induction false} NormalizeValue(x: Number)
    requires x.Finite?
    ensures Normalize(x).units * Pow10(x.scale - Normalize(x).scale) == x.units
    decreases x.scale
  {
    var u, s := x.units, x.scale;
    if s > 0 && u % 10 == 0 {
      var y := Finite(u / 10, s - 1);
      NormalizeValue(y);
      var r := Normalize(y);
      assert Pow10(s - r.scale) == Pow10(s - 1 - r.scale) * 10;
      ShiftDigit(r.units, Pow10(s - 1 - r.scale), 0, 0);
    }
  }

  /** Scaling units and scale by the same power of ten does not change the normal form. */
  lemma {:induction false} NormalizeShift(a: int, r: nat, j: nat)
    ensures Normalize(Finite(a * Pow10(j), r + j)) == Normalize(Finite(a, r))
  {
    if j > 0 {
      var c := a * Pow10(j - 1);
      assert a * Pow10(j) == c * 10 by {
        ShiftDigit(a, Pow10(j - 1), 0, 0);
      }
      TimesTen(c);
      NormalizeShift(a, r, j - 1);
    }
  }

  /** Equal normal forms is equal value: x = y as rationals exactly when Normalize(x) == Normalize(y). */
  lemma NormalizeDecidesValue(x: Number, y: Number)
    requires x.Finite? && y.Finite?
    ensures Normalize(x) == Normalize(y) <==> x.units * Pow10(y.scale) == y.units * Pow10(x.scale)
  {
    if x.units * Pow10(y.scale) == y.units * Pow10(x.scale) {
      EqualValueEqualNormal(x, y);
    }
    if Normalize(x) == Normalize(y) {
      EqualNormalEqualValue(x, y);
    }
  }

  lemma EqualValueEqualNormal(x: Number, y: Number)
    requires x.Finite? && y.Finite?
    requires x.units * Pow10(y.scale) == y.units * Pow10(x.scale)
    ensures Normalize(x) == Normalize(y)
  {
    NormalizeShift(x.units, x.scale, y.scale);
    NormalizeShift(y.units, y.scale, x.scale);
    assert x.scale + y.scale == y.scale + x.scale;
  }

  lemma EqualNormalEqualValue(x: Number, y: Number)
    requires x.Finite? && y.Finite? && Normalize(x) == Normalize(y)
    ensures x.units * Pow10(y.scale) == y.units * Pow10(x.scale)
  {
    var n := Normalize(x);
    var a, b := x.scale - n.scale, y.scale - n.scale;
    NormalizeValueAt(x, n.units, a);
    NormalizeValueAt(y, n.units, b);
    CrossMultiply(n.units, x.units, y.units, a, b, x.scale, y.scale, x.scale + y.scale - n.scale);
  }

  lemma NormalizeValueAt(x: Number, c: int, d: nat)
    requires x.Finite? && c == Normalize(x).units && d == x.scale - Normalize(x).scale
    ensures c * Pow10(d) == x.units
  {
    NormalizeValue(x);
  }

  /** xu = c * 10^a and yu = c * 10^b are equal values at scales xs and ys when a + ys = b + xs. */
  lemma CrossMultiply(c: int, xu: int, yu: int, a: nat, b: nat, xs: nat, ys: nat, n: nat)
    requires a + ys == n && b + xs == n
    requires c * Pow10(a) == xu && c * Pow10(b) == yu
    ensures xu * Pow10(ys) == yu * Pow10(xs)
  {
    MulPowAt(c, a, ys, n);
    MulPowAt(c, b, xs, n);
  }

  /** Removes the trailing zero digits of a positive integer. */
  function StripZeros(u: nat): (r: (nat, nat))
    requires u > 0
    ensures r.0 > 0 && r.0 % 10 != 0
  {
    if u % 10 != 0 then (u, 0)
    else
      var r := StripZeros(u / 10);
      (r.0, r.1 + 1)
  }

  /** StripZeros(u) = (m, t) factors u as m * 10^t. */
  lemma {:induction false} StripZerosValue(u: nat)
    requires u > 0
    ensures StripZeros(u).0 * Pow10(StripZeros(u).1) == u
  {
    if u % 10 == 0 {
      StripZerosValue(u / 10);
      var r := StripZeros(u / 10);
      ShiftDigit(r.0, Pow10(r.1), 0, 0);
    }
  }

  /**
    The exponent n of Number::toString for a positive decimal units / 10^scale:
    with k the number of significant digits s, the value is s * 10^(n - k).
   */
  function DecimalExponent(u: nat, scale: nat): int
    requires u > 0
  {
    var (m, t) := StripZeros(u);
    |ToDigits(m)| + t - scale
  }

  /** Number::toString(x) in radix 10. */
  function NumberToString(x: Number): (r: string)
    ensures |r| >= 1
  {
    match x
    case NaN => "NaN"
    case Finite(u, s) =>
      if u == 0 then "0"
      else if u < 0 then "-" + PositiveToString(-u, s)
      else PositiveToString(u, s)
  }

  /** Number::toString for a positive value, steps 5 to 9. */
  function PositiveToString(u: nat, scale: nat): (r: string)
    requires u > 0
    ensures |r| >= 1
  {
    var (m, t) := StripZeros(u);
    var ds := ToDigits(m);
    var k := |ds|;
    var n := k + t - scale;
    if k <= n <= 21 then ds + Zeros(n - k)
    else if 0 < n <= 21 then ds[..n] + "." + ds[n..]
    else if -6 < n <= 0 then "0" + "." + (Zeros(-n) + ds)
    else
      var e := n - 1;
      var exponent := "e" + (if e >= 0 then "+" else "-") + ToDigits(if e >= 0 then e else -e);
      if k == 1 then ds + exponent else ds[..1] + "." + ds[1..] + exponent
  }

  /**
    Without exponent notation (-6 < n <= 21), the text shown for a
    non-negative number reads back, through Number(), as the same value.
   */
  lemma NumberToStringRoundTrip(x: Number)
    requires x.Finite? && x.units >= 0
    requires x.units == 0 || -6 < DecimalExponent(x.units, x.scale) <= 21
    ensures IsAmountText(NumberToString(x))
    ensures Normalize(NumberOf(NumberToString(x))) == Normalize(x)
  {
    if x.units == 0 {
      ZeroRoundTrip(x.scale);
    } else {
      PositiveRoundTrip(x.units, x.scale);
    }
  }

  lemma ZeroRoundTrip(s: nat)
    ensures IsAmountText("0") && Normalize(NumberOf("0")) == Normalize(Finite(0, s))
  {
    NumberOfDigits("0");
    assert DigitsValue("0") == 0;
    NormalizeShift(0, 0, s);
  }

  lemma PositiveRoundTrip(u: nat, s: nat)
    requires u > 0 && -6 < DecimalExponent(u, s) <= 21
    ensures IsAmountText(PositiveToString(u, s))
    ensures Normalize(NumberOf(PositiveToString(u, s))) == Normalize(Finite(u, s))
  {
    var (m, t) := StripZeros(u);
    var ds := ToDigits(m);
    var k := |ds|;
    var n := k + t - s;
    assert n == DecimalExponent(u, s);
    StripZerosValue(u);
    var text := PositiveToString(u, s);
    if k <= n {
      assert text == ds + Zeros(n - k);
      IntegerCase(ds, m, t, s, n - k, u);
    } else if 0 < n {
      assert text == ds[..n] + "." + ds[n..];
      InnerCase(ds, m, t, s, n, u);
    } else {
      assert text == "0" + "." + (Zeros(-n) + ds);
      LeadingCase(ds, m, t, s, -n, u);
    }
  }

  /** Normal forms agree for m at scale r and m * 10^t at scale r + t. */
  lemma ScaledNormal(m: int, t: nat, u: int, r: nat, s: nat)
    requires m * Pow10(t) == u && s == r + t
    ensures Normalize(Finite(m, r)) == Normalize(Finite(u, s))
  {
    NormalizeShift(m, r, t);
  }

  /** Case n >= k: the digits followed by j = n - k zeros. */
  lemma IntegerCase(ds: string, m: nat, t: nat, s: nat, j: nat, u: nat)
    requires AllDigits(ds) && |ds| >= 1 && DigitsValue(ds) == m
    requires m * Pow10(t) == u && t == j + s
    ensures IsAmountText(ds + Zeros(j))
    ensures Normalize(NumberOf(ds + Zeros(j))) == Normalize(Finite(u, s))
  {
    var text := ds + Zeros(j);
    AllDigitsAppend(ds, Zeros(j));
    NumberOfDigits(text);
    DigitsValueAppend(ds, Zeros(j));
    ZerosValue(j);
    var v := m * Pow10(j);
    assert DigitsValue(text) == v;
    MulPowAt(m, j, s, t);
    ScaledNormal(v, s, u, 0, s);
  }

  /** Case 0 < n < k: the point falls inside the digits. */
  lemma InnerCase(ds: string, m: nat, t: nat, s: nat, n: nat, u: nat)
    requires AllDigits(ds) && 0 < n < |ds| && DigitsValue(ds) == m
    requires m * Pow10(t) == u && t + (|ds| - n) == s
    ensures IsAmountText(ds[..n] + "." + ds[n..])
    ensures Normalize(NumberOf(ds[..n] + "." + ds[n..])) == Normalize(Finite(u, s))
  {
    SplitDigitsValue(ds, n, m);
    ScaledNormal(m, t, u, |ds| - n, s);
  }

  /** Reading digits with a point after the first n gives their value at scale |ds| - n. */
  lemma SplitDigitsValue(ds: string, n: nat, m: nat)
    requires AllDigits(ds) && 1 <= |ds| && n <= |ds| && DigitsValue(ds) == m
    ensures IsAmountText(ds[..n] + "." + ds[n..])
    ensures NumberOf(ds[..n] + "." + ds[n..]) == Finite(m, |ds| - n)
  {
    var a, b := ds[..n], ds[n..];
    DigitSlices(ds, n);
    DottedValue(a, b, ds, m);
  }

  lemma DottedValue(a: string, b: string, ds: string, m: nat)
    requires AllDigits(a) && AllDigits(b) && a + b == ds && |ds| >= 1 && DigitsValue(ds) == m
    ensures IsAmountText(a + "." + b) && NumberOf(a + "." + b) == Finite(m, |b|)
  {
    NumberOfDotted(a, b);
  }

  lemma DigitSlices(ds: string, n: nat)
    requires AllDigits(ds) && n <= |ds|
    ensures AllDigits(ds[..n]) && AllDigits(ds[n..]) && ds[..n] + ds[n..] == ds
  {
    assert forall i :: n <= i < |ds| ==> ds[n..][i - n] == ds[i];
  }

  /** Case -6 < n <= 0: "0.", z = -n zeros, then the digits. */
  lemma LeadingCase(ds: string, m: nat, t: nat, s: nat, z: nat, u: nat)
    requires AllDigits(ds) && DigitsValue(ds) == m
    requires m * Pow10(t) == u && t + z + |ds| == s
    ensures IsAmountText("0" + "." + (Zeros(z) + ds))
    ensures Normalize(NumberOf("0" + "." + (Zeros(z) + ds))) == Normalize(Finite(u, s))
  {
    NumberOfFraction(z, ds);
    ScaledNormal(m, t, u, z + |ds|, s);
  }
}
