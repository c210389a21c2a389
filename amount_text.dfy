/**
  The text of the amount field of the new-transaction form and the two
  ECMAScript conversions the app applies to it: `Number(amount)` in the form
  (ECMA-262 section 7.1.4.1.1, StringToNumber) and `parseFloat(amount)` in the
  ledger store (ECMA-262 section 19.2.4, parseFloat).

  Numbers are exact decimals: `Finite(units, scale)` stands for
  units / 10^scale. IEEE-754 rounding is not modelled.
 */
module AmountText {

  /** A JavaScript number as far as this app produces one. */
  datatype Number = NaN | Finite(units: int, scale: nat)

  predicate IsDigit(c: char) { '0' <= c <= '9' }

  /** The characters the amount field keeps: the class `[0-9.]`. */
  predicate IsAmountChar(c: char) { IsDigit(c) || c == '.' }

  predicate IsAmountText(s: string) { forall i :: 0 <= i < |s| ==> IsAmountChar(s[i]) }

  predicate AllDigits(s: string) { forall i :: 0 <= i < |s| ==> IsDigit(s[i]) }

  predicate HasDigit(s: string) { exists i :: 0 <= i < |s| && IsDigit(s[i]) }

  /** Number of occurrences of `c` in `s`. */
  function Count(s: string, c: char): (n: nat)
    ensures n <= |s|
  {
    if s == [] then 0 else (if s[0] == c then 1 else 0) + Count(s[1..], c)
  }

  // ---------------------------------------------------------------------
  // The keystroke sanitiser: text.replace(/[^0-9.]/g, "")
  // ---------------------------------------------------------------------

  /** Drops every character outside `[0-9.]`. */
  function Sanitize(text: string): (r: string)
    ensures IsAmountText(r)
    ensures |r| <= |text|
  {
    if text == [] then []
    else (if IsAmountChar(text[0]) then [text[0]] else []) + Sanitize(text[1..])
  }

  lemma CountAppend(a: string, b: string, c: char)
    ensures Count(a + b, c) == Count(a, c) + Count(b, c)
  {
    if a == [] {
      assert a + b == b;
    } else {
      assert (a + b)[0] == a[0];
      assert (a + b)[1..] == a[1..] + b;
      CountAppend(a[1..], b, c);
    }
  }

  /** The sanitiser works character by character: it keeps the kept characters in their order. */
  lemma {:induction false} SanitizeAppend(a: string, b: string)
    ensures Sanitize(a + b) == Sanitize(a) + Sanitize(b)
  {
    if a == [] {
      assert a + b == b;
    } else {
      var h := if IsAmountChar(a[0]) then [a[0]] else [];
      assert (a + b)[0] == a[0];
      assert (a + b)[1..] == a[1..] + b;
      assert Sanitize(a + b) == h + Sanitize(a[1..] + b);
      SanitizeAppend(a[1..], b);
      assert Sanitize(a) == h + Sanitize(a[1..]);
      assert h + (Sanitize(a[1..]) + Sanitize(b)) == (h + Sanitize(a[1..])) + Sanitize(b);
    }
  }

  /** One character is kept exactly when it is a digit or '.'. */
  lemma SanitizeChar(c: char)
    ensures Sanitize([c]) == if IsAmountChar(c) then [c] else []
  {
    assert [c][1..] == [];
  }

  /** Text already made of digits and '.' passes through unchanged. */
  lemma {:induction false} SanitizeKeepsAmountText(s: string)
    requires IsAmountText(s)
    ensures Sanitize(s) == s
  {
    if s != [] {
      SanitizeKeepsAmountText(s[1..]);
      assert [s[0]] + s[1..] == s;
    }
  }

  /** Sanitising twice is sanitising once. */
  lemma SanitizeIdempotent(text: string)
    ensures Sanitize(Sanitize(text)) == Sanitize(text)
  {
    SanitizeKeepsAmountText(Sanitize(text));
  }

  // ---------------------------------------------------------------------
  // Decimal digit strings
  // ---------------------------------------------------------------------

  function DigitOf(c: char): (d: nat)
    ensures d < 10
  {
    if IsDigit(c) then c as int - '0' as int else 0
  }

  function DigitChar(d: nat): (c: char)
    requires d < 10
    ensures IsDigit(c) && DigitOf(c) == d
  {
    ['0', '1', '2', '3', '4', '5', '6', '7', '8', '9'][d]
  }

  function Pow10(n: nat): (p: nat)
    ensures p >= 1
  {
    if n == 0 then 1 else 10 * Pow10(n - 1)
  }

  /** The value of a string of decimal digits, most significant first. */
  function DigitsValue(ds: string): (v: nat)
  {
    if ds == [] then 0 else DigitsValue(ds[..|ds| - 1]) * 10 + DigitOf(ds[|ds| - 1])
  }

  lemma {:induction false} DigitsValueAppend(a: string, b: string)
    ensures DigitsValue(a + b) == DigitsValue(a) * Pow10(|b|) + DigitsValue(b)
  {
    if b == [] {
      assert a + b == a;
    } else {
      var b' := b[..|b| - 1];
      assert (a + b)[..|a + b| - 1] == a + b';
      assert (a + b)[|a + b| - 1] == b[|b| - 1];
      DigitsValueAppend(a, b');
      var x, p, v, d := DigitsValue(a), Pow10(|b'|), DigitsValue(b'), DigitOf(b[|b| - 1]);
      assert DigitsValue(a + b) == (x * p + v) * 10 + d;
      assert DigitsValue(b) == v * 10 + d;
      assert Pow10(|b|) == p * 10;
      ShiftDigit(x, p, v, d);
    }
  }

  lemma ShiftDigit(x: int, p: int, v: int, d: int)
    ensures (x * p + v) * 10 + d == x * (p * 10) + (v * 10 + d)
  {
  }

  function Zeros(n: nat): (z: string)
    ensures |z| == n && AllDigits(z)
    ensures forall i :: 0 <= i < n ==> z[i] == '0'
  {
    if n == 0 then [] else Zeros(n - 1) + ['0']
  }

  /** Leading zeros do not change the value of a digit string. */
  lemma {:induction false} LeadingZerosValue(n: nat, ds: string)
    ensures DigitsValue(Zeros(n) + ds) == DigitsValue(ds)
  {
    DigitsValueAppend(Zeros(n), ds);
    ZerosValue(n);
  }

  lemma {:induction false} ZerosValue(n: nat)
    ensures DigitsValue(Zeros(n)) == 0
  {
    if n > 0 {
      assert Zeros(n)[..n - 1] == Zeros(n - 1);
      ZerosValue(n - 1);
    }
  }

  /** The shortest decimal digits of `m` (a single "0" for zero). */
  function ToDigits(m: nat): (ds: string)
    ensures |ds| >= 1 && AllDigits(ds)
    ensures m > 0 ==> ds[0] != '0'
    ensures DigitsValue(ds) == m
  {
    if m < 10 then [DigitChar(m)]
    else
      var prefix := ToDigits(m / 10);
      var ds := prefix + [DigitChar(m % 10)];
      assert ds[..|ds| - 1] == prefix;
      ds
  }

  // ---------------------------------------------------------------------
  // Number(s) on amount text
  // ---------------------------------------------------------------------

  /** Position of the first '.', or |s| when there is none. */
  function DotIndex(s: string): (k: nat)
    ensures k <= |s|
    ensures forall i :: 0 <= i < k ==> s[i] != '.'
    ensures k < |s| ==> s[k] == '.'
  {
    if s == [] || s[0] == '.' then 0 else 1 + DotIndex(s[1..])
  }

  /**
    The ECMAScript StrUnsignedDecimalLiteral productions that can be written
    with digits and '.' only: `DecimalDigits`, `DecimalDigits . DecimalDigits?`
    and `. DecimalDigits`. Digits before the first '.', digits after it, and
    at least one digit in all.
   */
  predicate IsDecimalLiteral(s: string)
  {
    var k := DotIndex(s);
    && AllDigits(s[..k])
    && (if k == |s| then k > 0 else |s| > 1 && AllDigits(s[k + 1..]))
  }

  /** The digits after the first '.', or "" without one. */
  function Fraction(s: string): string
  {
    var k := DotIndex(s);
    if k < |s| then s[k + 1..] else ""
  }

  /**
    `Number(s)` for text made of digits and '.': the empty string is 0, a
    decimal literal is its value, anything else is NaN.
   */
  function NumberOf(s: string): (r: Number)
    requires IsAmountText(s)
  {
    if s == "" then Finite(0, 0)
    else if IsDecimalLiteral(s) then
      Finite(DigitsValue(s[..DotIndex(s)] + Fraction(s)), |Fraction(s)|)
    else NaN
  }

  /** Number() rejects amount text exactly when it is non-empty and has no digit or several '.'. */
  lemma NumberOfNaN(s: string)
    requires IsAmountText(s)
    ensures NumberOf(s).NaN? <==> s != "" && !(HasDigit(s) && Count(s, '.') <= 1)
  {
    NumberValidity(s);
  }

  lemma CountZero(s: string, c: char)
    ensures Count(s, c) == 0 <==> forall i :: 0 <= i < |s| ==> s[i] != c
  {
    if s != [] {
      CountZero(s[1..], c);
      assert forall i :: 1 <= i < |s| ==> s[i] == s[1..][i - 1];
    }
  }

  /** Text of digits and '.' is a decimal literal exactly when it has a digit and at most one '.'. */
  lemma NumberValidity(s: string)
    requires IsAmountText(s)
    ensures IsDecimalLiteral(s) <==> HasDigit(s) && Count(s, '.') <= 1
  {
    if IsDecimalLiteral(s) {
      LiteralHasDigitAndOneDot(s);
    }
    if HasDigit(s) && Count(s, '.') <= 1 {
      DigitAndOneDotIsLiteral(s);
    }
  }

  lemma LiteralHasDigitAndOneDot(s: string)
    requires IsDecimalLiteral(s)
    ensures HasDigit(s) && Count(s, '.') <= 1
  {
    var k := DotIndex(s);
    if k == |s| {
      assert s[..k] == s;
      assert IsDigit(s[0]);
      CountZero(s, '.');
    } else {
      SplitAtDot(s, k);
      CountZero(s[..k], '.');
      CountZero(s[k + 1..], '.');
      if k > 0 {
        assert s[..k][0] == s[0];
        assert IsDigit(s[0]);
      } else {
        assert s[k + 1..][0] == s[k + 1];
        assert IsDigit(s[k + 1]);
      }
    }
  }

  /** Splitting at a '.' counts it once plus the dots on either side. */
  lemma SplitAtDot(s: string, k: nat)
    requires k < |s| && s[k] == '.'
    ensures Count(s, '.') == Count(s[..k], '.') + 1 + Count(s[k + 1..], '.')
  {
    assert s == s[..k] + [s[k]] + s[k + 1..];
    CountAppend(s[..k] + [s[k]], s[k + 1..], '.');
    CountAppend(s[..k], [s[k]], '.');
    assert Count([s[k]], '.') == 1 by { assert [s[k]][1..] == []; }
  }

  lemma DigitAndOneDotIsLiteral(s: string)
    requires IsAmountText(s) && HasDigit(s) && Count(s, '.') <= 1
    ensures IsDecimalLiteral(s)
  {
    var k := DotIndex(s);
    assert AllDigits(s[..k]) by {
      forall i | 0 <= i < k ensures IsDigit(s[..k][i]) { assert IsAmountChar(s[i]); }
    }
    if k < |s| {
      SplitAtDot(s, k);
      CountZero(s[k + 1..], '.');
      var f := s[k + 1..];
      assert AllDigits(f) by {
        forall i | 0 <= i < |f| ensures IsDigit(f[i]) {
          assert f[i] == s[k + 1 + i];
          assert IsAmountChar(s[k + 1 + i]);
        }
      }
      var d :| 0 <= d < |s| && IsDigit(s[d]);
      assert d != k;
    } else {
      var d :| 0 <= d < |s| && IsDigit(s[d]);
    }
  }

  lemma AllDigitsNoDot(s: string)
    requires AllDigits(s)
    ensures DotIndex(s) == |s| && Count(s, '.') == 0
  {
    assert DotIndex(s) < |s| ==> IsDigit(s[DotIndex(s)]);
    CountZero(s, '.');
  }

  /** Number() of a non-empty digit string is its integer value. */
  lemma NumberOfDigits(s: string)
    requires s != "" && AllDigits(s)
    ensures IsAmountText(s) && NumberOf(s) == Finite(DigitsValue(s), 0)
  {
    AllDigitsNoDot(s);
    assert s[..|s|] + "" == s;
  }

  /** Number() of `a.b`, with a digit on at least one side, is the value of `ab` over 10^|b|. */
  lemma NumberOfDotted(a: string, b: string)
    requires AllDigits(a) && AllDigits(b) && |a| + |b| >= 1
    ensures IsAmountText(a + "." + b)
    ensures NumberOf(a + "." + b) == Finite(DigitsValue(a + b), |b|)
  {
    var s := a + "." + b;
    assert s[|a|] == '.';
    assert s[..|a|] == a;
    assert s[|a| + 1..] == b;
    assert forall i :: 0 <= i < |s| ==> IsAmountChar(s[i]) by {
      forall i | 0 <= i < |s| ensures IsAmountChar(s[i]) {
        if i < |a| { assert s[i] == a[i]; } else if i > |a| { assert s[i] == b[i - |a| - 1]; }
      }
    }
    var k := DotIndex(s);
    assert k == |a|;
  }

  lemma AllDigitsAppend(a: string, b: string)
    requires AllDigits(a) && AllDigits(b)
    ensures AllDigits(a + b)
  {
    forall i | 0 <= i < |a + b| ensures IsDigit((a + b)[i]) {
      if i < |a| { assert (a + b)[i] == a[i]; } else { assert (a + b)[i] == b[i - |a|]; }
    }
  }

  lemma ZeroPrefixValue(z: nat, ds: string)
    ensures DigitsValue("0" + (Zeros(z) + ds)) == DigitsValue(ds)
  {
    DigitsValueAppend("0", Zeros(z) + ds);
    assert DigitsValue("0") == 0 by { assert "0"[..0] == []; }
    LeadingZerosValue(z, ds);
  }

  /** Number() of "0." followed by z zeros and the digits ds. */
  lemma NumberOfFraction(z: nat, ds: string)
    requires AllDigits(ds)
    ensures IsAmountText("0" + "." + (Zeros(z) + ds))
    ensures NumberOf("0" + "." + (Zeros(z) + ds)) == Finite(DigitsValue(ds), z + |ds|)
  {
    AllDigitsAppend(Zeros(z), ds);
    NumberOfZeroDotted(Zeros(z) + ds);
    ZeroPrefixValue(z, ds);
  }

  lemma NumberOfZeroDotted(b: string)
    requires AllDigits(b)
    ensures IsAmountText("0" + "." + b)
    ensures NumberOf("0" + "." + b) == Finite(DigitsValue("0" + b), |b|)
  {
    assert AllDigits("0") by { assert "0"[0] == '0'; }
    NumberOfDotted("0", b);
  }

  // ---------------------------------------------------------------------
  // parseFloat(s)
  // ---------------------------------------------------------------------

  /** Length of the longest prefix of decimal digits. */
  function LeadingDigits(s: string): (n: nat)
    ensures n <= |s| && AllDigits(s[..n])
    ensures n < |s| ==> !IsDigit(s[n])
  {
    if s == [] || !IsDigit(s[0]) then 0
    else
      var n := 1 + LeadingDigits(s[1..]);
      assert forall i :: 1 <= i < n ==> s[..n][i] == s[1..][..n - 1][i - 1];
      n
  }

  /**
    `parseFloat(s)`: the value of the longest prefix of `s` of the form
    digits, optionally followed by '.' and digits, with at least one digit;
    NaN when there is no such prefix.
   */
  function ParseFloat(s: string): (r: Number)
    ensures r.NaN? <==> s == "" || (!IsDigit(s[0]) && !(|s| > 1 && s[0] == '.' && IsDigit(s[1])))
    ensures r.Finite? ==> r.units >= 0
  {
    var i := LeadingDigits(s);
    if i < |s| && s[i] == '.' then
      var j := LeadingDigits(s[i + 1..]);
      if i + j == 0 then NaN else Finite(DigitsValue(s[..i] + s[i + 1..i + 1 + j]), j)
    else if i == 0 then NaN
    else Finite(DigitsValue(s[..i]), 0)
  }

  /** The digit prefix ends where the digits end. */
  lemma LeadingDigitsUpTo(s: string, k: nat)
    requires k <= |s| && AllDigits(s[..k]) && (k < |s| ==> !IsDigit(s[k]))
    ensures LeadingDigits(s) == k
  {
    var i := LeadingDigits(s);
    assert forall t :: 0 <= t < k ==> IsDigit(s[t]) by {
      forall t | 0 <= t < k ensures IsDigit(s[t]) { assert s[..k][t] == s[t]; }
    }
    assert forall t :: 0 <= t < i ==> IsDigit(s[t]) by {
      forall t | 0 <= t < i ensures IsDigit(s[t]) { assert s[..i][t] == s[t]; }
    }
  }

  /** On a literal the form accepted, parseFloat and Number agree. */
  lemma ParseFloatAgreesWithNumber(s: string)
    requires IsAmountText(s) && s != "" && NumberOf(s).Finite?
    ensures ParseFloat(s) == NumberOf(s)
  {
    var k := DotIndex(s);
    LeadingDigitsUpTo(s, k);
    if k < |s| {
      var f := s[k + 1..];
      LeadingDigitsUpTo(f, |f|);
      assert f[..|f|] == f;
      assert s[k + 1..k + 1 + |f|] == f;
    } else {
      assert s[..k] + "" == s[..k];
    }
  }
}
