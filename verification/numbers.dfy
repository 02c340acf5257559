/** Python's `float()` on the score text of a report, as an exact rational.
    Only plain decimal spellings are accepted: optional surrounding
    whitespace, an optional sign, and digits with at most one point.  The
    `[^<\n]+` capture of deep_analysis can yield `1e0`, `inf`, `nan` or
    `1_0`, which Python reads and this reading rejects; the `[0-9.]+`
    capture of compare_models cannot. */
module Numbers {
  import opened Wrappers
  import opened Text

  predicate IsDigit(c: char) {
    '0' <= c <= '9'
  }

  predicate AllDigits(s: string) {
    forall k :: 0 <= k < |s| ==> IsDigit(s[k])
  }

  function DigitValue(c: char): nat
    requires IsDigit(c)
  {
    c as int - '0' as int
  }

  /** The value of a string of decimal digits (0 for the empty string). */
  function DigitsValue(ds: string): nat
    requires AllDigits(ds)
    decreases |ds|
  {
    if |ds| == 0 then 0
    else 10 * DigitsValue(ds[..|ds| - 1]) + DigitValue(ds[|ds| - 1])
  }

  function Pow10(n: nat): (p: nat)
    ensures p > 0
  {
    if n == 0 then 1 else 10 * Pow10(n - 1)
  }

  /** The unsigned decimal syntax `float()` accepts from the character class
      `[0-9.]`: at least one digit, only digits and points, and at most one
      point. */
  predicate DecimalSyntax(t: string) {
    && (exists k :: 0 <= k < |t| && IsDigit(t[k]))
    && (forall k :: 0 <= k < |t| ==> IsDigit(t[k]) || t[k] == '.')
    && (forall a, b :: 0 <= a < b < |t| && t[a] == '.' ==> t[b] != '.')
  }

  /** `t` with its points removed. */
  function Unpointed(t: string): (u: string)
    ensures (forall k :: 0 <= k < |t| ==> IsDigit(t[k]) || t[k] == '.') ==> AllDigits(u)
    decreases |t|
  {
    if |t| == 0 then ""
    else
      var rest := Unpointed(t[1..]);
      assert forall k :: 1 <= k < |t| ==> t[1..][k - 1] == t[k];
      (if t[0] == '.' then "" else [t[0]]) + rest
  }

  /** The number of characters after the first point, 0 without one. */
  function FracLen(t: string): nat
    decreases |t|
  {
    if |t| == 0 then 0 else if t[0] == '.' then |t| - 1 else FracLen(t[1..])
  }

  /** `float(t)` for unsigned decimal text, None where Python raises
      ValueError.  The value is the number the digits spell once the point
      is removed, scaled down by ten to the number of fraction digits. */
  function ParseUnsigned(t: string): (r: Option<real>)
    ensures r.Some? <==> DecimalSyntax(t)
    ensures r.Some? ==> r.value >= 0.0
    ensures r.Some? ==> r.value == DigitsValue(Unpointed(t)) as real / Pow10(FracLen(t)) as real
  {
    match Find(t, ".", 0)
    case None =>
      NoPointSyntax(t);
      if |t| > 0 && AllDigits(t) then
        NoPointValue(t);
        Some(DigitsValue(t) as real)
      else None
    case Some(i) =>
      var whole, frac := t[..i], t[i + 1..];
      FirstPoint(t, i);
      if AllDigits(whole) && AllDigits(frac) && |whole| + |frac| > 0 then
        PointAccepted(t, i);
        PointValue(t, i);
        QuotientNonNegative(DigitsValue(whole + frac), Pow10(|frac|));
        Some(DigitsValue(whole + frac) as real / Pow10(|frac|) as real)
      else
        PointRejected(t, i);
        None
  }

  lemma QuotientNonNegative(d: nat, p: nat)
    requires p > 0
    ensures d as real / p as real >= 0.0
  {
  }

  /** Without a point, the syntax is a non-empty run of digits. */
  lemma NoPointSyntax(t: string)
    requires forall j: nat :: !OccursAt(t, ".", j)
    ensures DecimalSyntax(t) <==> |t| > 0 && AllDigits(t)
  {
    forall k | 0 <= k < |t| ensures t[k] != '.' {
      assert !OccursAt(t, ".", k);
    }
    if |t| > 0 && AllDigits(t) {
      assert IsDigit(t[0]);
    }
  }

  /** The first occurrence of `"."` is at `i`. */
  lemma FirstPoint(t: string, i: nat)
    requires OccursAt(t, ".", i) && forall j :: 0 <= j < i ==> !OccursAt(t, ".", j)
    ensures i < |t| && t[i] == '.'
    ensures forall k :: 0 <= k < i ==> t[k] != '.'
  {
    assert t[i] == '.' by { assert t[i..i + 1] == "."; }
    forall k | 0 <= k < i ensures t[k] != '.' {
      assert !OccursAt(t, ".", k);
    }
  }

  /** Digits on both sides of a point, at least one in all, are decimal
      syntax. */
  lemma PointAccepted(t: string, i: nat)
    requires i < |t| && t[i] == '.' && |t| > 1
    requires AllDigits(t[..i]) && AllDigits(t[i + 1..])
    ensures DecimalSyntax(t)
  {
    assert forall k :: 0 <= k < i ==> t[..i][k] == t[k];
    assert forall k :: i < k < |t| ==> t[i + 1..][k - i - 1] == t[k];
    if i > 0 {
      assert IsDigit(t[0]);
    } else {
      assert IsDigit(t[i + 1]);
    }
  }

  /** Without a point the digits are the whole text and there is no
      fraction. */
  lemma {:induction false} NoPointValue(t: string)
    requires forall k :: 0 <= k < |t| ==> t[k] != '.'
    ensures Unpointed(t) == t && FracLen(t) == 0
    decreases |t|
  {
    if |t| > 0 {
      NoPointValue(t[1..]);
      assert t == [t[0]] + t[1..];
    }
  }

  /** Removing the points of `a + b` removes those of `a` and of `b`. */
  lemma {:induction false} UnpointedAppend(a: string, b: string)
    ensures Unpointed(a + b) == Unpointed(a) + Unpointed(b)
    decreases |a|
  {
    if |a| > 0 {
      assert (a + b)[1..] == a[1..] + b;
      UnpointedAppend(a[1..], b);
    } else {
      assert a + b == b;
    }
  }

  /** The first point at `i` leaves `|t| - i - 1` fraction characters. */
  lemma {:induction false} FracLenAt(t: string, i: nat)
    requires i < |t| && t[i] == '.' && forall k :: 0 <= k < i ==> t[k] != '.'
    ensures FracLen(t) == |t| - i - 1
    decreases i
  {
    if i > 0 {
      FracLenAt(t[1..], i - 1);
    }
  }

  /** Appending digits `b` shifts the value of `a` by `|b|` places. */
  lemma {:induction false} DigitsAppend(a: string, b: string)
    requires AllDigits(a) && AllDigits(b)
    ensures AllDigits(a + b)
    ensures DigitsValue(a + b) == DigitsValue(a) * Pow10(|b|) + DigitsValue(b)
    decreases |b|
  {
    var ab := a + b;
    if |b| == 0 {
      assert ab == a;
    } else {
      var b' := b[..|b| - 1];
      assert ab[..|ab| - 1] == a + b';
      assert ab[|ab| - 1] == b[|b| - 1];
      DigitsAppend(a, b');
      assert DigitsValue(ab) == 10 * DigitsValue(a + b') + DigitValue(b[|b| - 1]);
      ShiftPlace(DigitsValue(a), Pow10(|b'|), DigitsValue(b'), DigitValue(b[|b| - 1]));
    }
  }

  /** One more digit place: `10 * (v * p + w) + d == v * (10 * p) + (10 * w + d)`. */
  lemma ShiftPlace(v: int, p: int, w: int, d: int)
    ensures 10 * (v * p + w) + d == v * (10 * p) + (10 * w + d)
  {
  }

  /** Around the first point at `i`, the text without its points is the
      digits before it followed by the digits after it, and those after it
      are the fraction. */
  lemma PointValue(t: string, i: nat)
    requires i < |t| && t[i] == '.' && forall k :: 0 <= k < i ==> t[k] != '.'
    requires AllDigits(t[..i]) && AllDigits(t[i + 1..])
    ensures AllDigits(t[..i] + t[i + 1..])
    ensures Unpointed(t) == t[..i] + t[i + 1..]
    ensures FracLen(t) == |t[i + 1..]|
  {
    DigitsAppend(t[..i], t[i + 1..]);
    var whole, frac := t[..i], t[i + 1..];
    assert t == whole + "." + frac;
    UnpointedAround(whole, frac);
    FracLenAt(t, i);
  }

  /** Removing the point between two runs of digits joins them. */
  lemma UnpointedAround(whole: string, frac: string)
    requires AllDigits(whole) && AllDigits(frac)
    ensures Unpointed(whole + "." + frac) == whole + frac
  {
    NoPointValue(whole);
    NoPointValue(frac);
    UnpointedAppend(whole, ".");
    assert Unpointed(".") == "" by { assert "."[1..] == ""; }
    assert Unpointed(whole + ".") == whole by { assert whole + "" == whole; }
    UnpointedAppend(whole + ".", frac);
  }

  /** The texts `float()` reads as exactly 1.0: decimal syntax whose digits,
      point removed, spell ten to the number of fraction digits (`1`, `1.`,
      `1.0`, `01.00`, ...). */
  lemma ReadsAsOne(t: string)
    ensures ParseUnsigned(t) == Some(1.0) <==>
              DecimalSyntax(t) && DigitsValue(Unpointed(t)) == Pow10(FracLen(t))
  {
    if DecimalSyntax(t) {
      UnitQuotient(DigitsValue(Unpointed(t)) as real, Pow10(FracLen(t)) as real);
    }
  }

  /** A quotient by a positive `p` is 1 exactly when the dividend is `p`. */
  lemma UnitQuotient(d: real, p: real)
    requires p > 0.0
    ensures d / p == 1.0 <==> d == p
  {
  }

  /** A lone point, or anything but digits before the first point or
      after it, is not decimal syntax. */
  lemma PointRejected(t: string, i: nat)
    requires i < |t| && t[i] == '.' && forall k :: 0 <= k < i ==> t[k] != '.'
    requires !(AllDigits(t[..i]) && AllDigits(t[i + 1..]) && |t| > 1)
    ensures !DecimalSyntax(t)
  {
    var whole, frac := t[..i], t[i + 1..];
    if |t| == 1 {
      assert t == ".";
    } else if !AllDigits(whole) {
      var k :| 0 <= k < |whole| && !IsDigit(whole[k]);
      assert whole[k] == t[k];
    } else {
      var k :| 0 <= k < |frac| && !IsDigit(frac[k]);
      assert frac[k] == t[i + 1 + k];
      assert t[i + 1 + k] != '.' ==> !IsDigit(t[i + 1 + k]);
    }
  }

  /** An optional sign followed by unsigned decimal syntax. */
  predicate FloatSyntax(s: string) {
    DecimalSyntax(s) || (|s| > 0 && (s[0] == '+' || s[0] == '-') && DecimalSyntax(s[1..]))
  }

  /** Python's `float(text)`: surrounding whitespace is ignored and one sign
      is allowed in front of the unsigned decimal. */
  function ParseFloat(text: string): (r: Option<real>)
    ensures r.Some? <==> FloatSyntax(Strip(text))
    ensures r.Some? ==> |Strip(text)| > 0
    ensures r.Some? && Strip(text)[0] == '-' ==>
              ParseUnsigned(Strip(text)[1..]).Some? && r.value == -ParseUnsigned(Strip(text)[1..]).value
    ensures r.Some? && Strip(text)[0] == '+' ==> r == ParseUnsigned(Strip(text)[1..])
    ensures r.Some? && Strip(text)[0] != '-' && Strip(text)[0] != '+' ==> r == ParseUnsigned(Strip(text))
    ensures r.Some? && r.value < 0.0 ==> Strip(text)[0] == '-'
  {
    var s := Strip(text);
    if |s| > 0 && (s[0] == '+' || s[0] == '-') then
      match ParseUnsigned(s[1..])
      case Some(v) => Some(if s[0] == '-' then -v else v)
      case None => None
    else ParseUnsigned(s)
  }

  /** The decimal digits of `n`, most significant first. */
  function Show(n: nat): (ds: string)
    ensures |ds| > 0 && AllDigits(ds)
  {
    var d := ['0' + (n % 10) as char];
    if n < 10 then d else Show(n / 10) + d
  }

  lemma {:induction false} ShowValue(n: nat)
    ensures DigitsValue(Show(n)) == n
    decreases n
  {
    var ds := Show(n);
    if n >= 10 {
      ShowValue(n / 10);
      assert ds[..|ds| - 1] == Show(n / 10);
    }
  }

  /** Reading back a number written as `<digits>.0`, Python's `str` of a
      whole float and the form assumed for `Score:` lines, gives the number
      itself. */
  lemma ParseShown(n: nat)
    ensures ParseUnsigned(Show(n) + ".0") == Some(n as real)
  {
    var ds := Show(n);
    var t := ds + ".0";
    assert OccursAt(t, ".", |ds|) by { assert t[|ds|..|ds| + 1] == "."; }
    forall k | 0 <= k < |ds|
      ensures !OccursAt(t, ".", k)
    {
      assert t[k] == ds[k];
      assert t[k..k + 1][0] == t[k];
    }
    assert Find(t, ".", 0) == Some(|ds|);
    assert t[..|ds|] == ds;
    assert t[|ds| + 1..] == "0";
    ShowValue(n);
    assert DigitsValue("0") == 0 by { assert "0"[..0] == ""; }
  }
}
