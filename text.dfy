/** The display text of decimals: BigDecimal's string constructor (restricted to the
    plain notation the calculator ever shows), toPlainString, and the normal form that
    stripTrailingZeros followed by setScale(0) produces. */
module DecimalText {
  import opened Decimals

  datatype Option<T> = None | Some(value: T)

  // ---------------------------------------------------------------------------
  // Digit strings.

  predicate IsDigit(c: char)
  {
    '0' <= c <= '9'
  }

  predicate AllDigits(s: string)
  {
    forall i :: 0 <= i < |s| ==> IsDigit(s[i])
  }

  function DigitChar(n: nat): (c: char)
    requires n < 10
    ensures IsDigit(c) && c as int - '0' as int == n
  {
    ('0' as int + n) as char
  }

  /** The number a string of decimal digits spells, most significant digit first. */
  function DigitsToNat(s: string): nat
    requires AllDigits(s)
  {
    if |s| == 0 then 0
    else DigitsToNat(s[..|s| - 1]) * 10 + (s[|s| - 1] as int - '0' as int)
  }

  /** The shortest decimal spelling of n. */
  function NatToDigits(n: nat): (s: string)
    ensures |s| >= 1 && AllDigits(s)
    ensures s[|s| - 1] == DigitChar(n % 10)
  {
    if n < 10 then [DigitChar(n)] else NatToDigits(n / 10) + [DigitChar(n % 10)]
  }

  lemma {:induction false} DigitsRoundTrip(n: nat)
    ensures DigitsToNat(NatToDigits(n)) == n
  {
    if n >= 10 {
      var s := NatToDigits(n);
      assert s[..|s| - 1] == NatToDigits(n / 10);
      DigitsRoundTrip(n / 10);
    }
  }

  function Zeros(k: nat): (s: string)
    ensures |s| == k && AllDigits(s)
    ensures forall i :: 0 <= i < k ==> s[i] == '0'
  {
    seq(k, _ => '0')
  }

  lemma {:induction false} ZerosValue(k: nat)
    ensures DigitsToNat(Zeros(k)) == 0
  {
    if k > 0 {
      assert Zeros(k)[..k - 1] == Zeros(k - 1);
      ZerosValue(k - 1);
    }
  }

  /** Leading zeros do not change the number a digit string spells. */
  lemma {:induction false} LeadingZeros(k: nat, s: string)
    requires AllDigits(s)
    ensures AllDigits(Zeros(k) + s)
    ensures DigitsToNat(Zeros(k) + s) == DigitsToNat(s)
  {
    var t := Zeros(k) + s;
    assert AllDigits(t) by {
      forall i | 0 <= i < |t| ensures IsDigit(t[i]) {
        if i < k { assert t[i] == Zeros(k)[i]; } else { assert t[i] == s[i - k]; }
      }
    }
    if |s| == 0 {
      assert t == Zeros(k);
      ZerosValue(k);
    } else {
      assert t[..|t| - 1] == Zeros(k) + s[..|s| - 1];
      assert t[|t| - 1] == s[|s| - 1];
      LeadingZeros(k, s[..|s| - 1]);
    }
  }

  lemma AllDigitsConcat(a: string, b: string)
    requires AllDigits(a) && AllDigits(b)
    ensures AllDigits(a + b)
  {
    var t := a + b;
    forall i | 0 <= i < |t| ensures IsDigit(t[i]) {
      if i < |a| { assert t[i] == a[i]; } else { assert t[i] == b[i - |a|]; }
    }
  }

  /** Digits written after others shift them |b| places left. */
  lemma {:induction false} DigitsAppend(a: string, b: string)
    requires AllDigits(a) && AllDigits(b)
    ensures AllDigits(a + b)
    ensures DigitsToNat(a + b) == DigitsToNat(a) * Pow10(|b|) + DigitsToNat(b)
    decreases |b|
  {
    AllDigitsConcat(a, b);
    if |b| == 0 {
      assert a + b == a;
    } else {
      var n := |b| - 1;
      var g := b[..n];
      assert (a + b)[..|a + b| - 1] == a + g;
      assert (a + b)[|a + b| - 1] == b[n];
      DigitsAppend(a, g);
      ShiftDigit(DigitsToNat(a), DigitsToNat(g), Pow10(n), b[n] as int - '0' as int);
    }
  }

  lemma ShiftDigit(x: int, y: int, p: int, d: int)
    ensures (x * p + y) * 10 + d == x * (10 * p) + (y * 10 + d)
  {}

  // ---------------------------------------------------------------------------
  // toPlainString.

  /** The digits of |d.unscaled|, padded with leading zeros so that at least one digit
      stands before the decimal point. */
  function Padded(d: Dec): (p: string)
    ensures |p| > d.scale && AllDigits(p)
    ensures DigitsToNat(p) == Abs(d.unscaled)
  {
    var digits := NatToDigits(Abs(d.unscaled));
    var pad := if |digits| > d.scale then 0 else d.scale + 1 - |digits|;
    DigitsRoundTrip(Abs(d.unscaled));
    LeadingZeros(pad, digits);
    Zeros(pad) + digits
  }

  function Sign(d: Dec): string
  {
    if d.unscaled < 0 then "-" else ""
  }

  /** The integer digits and, when the scale is positive, '.' and exactly scale
      fractional digits. */
  function Magnitude(d: Dec): string
  {
    Layout(Padded(d), d.scale)
  }

  /** The digits p with a point placed before the last scale of them. */
  function Layout(p: string, scale: nat): string
    requires |p| > scale
  {
    if scale == 0 then p else p[..|p| - scale] + "." + p[|p| - scale..]
  }

  /** BigDecimal.toPlainString for a scale of zero or more: an optional '-', then the
      magnitude. */
  function PlainString(d: Dec): string
  {
    Sign(d) + Magnitude(d)
  }

  // ---------------------------------------------------------------------------
  // The string constructor, new BigDecimal(String).

  /** The index of the first c in s, or |s| when there is none. */
  function IndexOf(s: string, c: char): (i: nat)
    ensures i <= |s|
    ensures i < |s| ==> s[i] == c
    ensures forall j :: 0 <= j < i ==> s[j] != c
  {
    if |s| == 0 then 0
    else if s[0] == c then 0
    else 1 + IndexOf(s[1..], c)
  }

  /** Digits with at most one '.', and at least one digit: the unscaled value is the
      digits read without the point, the scale the number of digits after it. */
  function ParseUnsigned(body: string): Option<Dec>
  {
    var k := IndexOf(body, '.');
    var whole := body[..k];
    var fraction := if k < |body| then body[k + 1..] else "";
    if AllDigits(whole) && AllDigits(fraction) && |whole| + |fraction| >= 1 then
      Some(Dec(DigitsToNat(whole + fraction), |fraction|))
    else
      None
  }

  /** new BigDecimal(s) on plain notation: an optional sign, then an unsigned decimal.
      None stands for the NumberFormatException thrown on anything else. */
  function Parse(s: string): Option<Dec>
  {
    if |s| > 0 && (s[0] == '-' || s[0] == '+') then
      match ParseUnsigned(s[1..])
      case None => None
      case Some(m) => Some(if s[0] == '-' then Neg(m) else m)
    else
      ParseUnsigned(s)
  }

  lemma IndexOfSplit(a: string, b: string, c: char)
    requires forall i :: 0 <= i < |a| ==> a[i] != c
    requires |b| == 0 || b[0] == c
    ensures IndexOf(a + b, c) == |a|
    decreases |a|
  {
    if |a| > 0 {
      assert (a + b)[1..] == a[1..] + b;
      IndexOfSplit(a[1..], b, c);
    } else {
      assert a + b == b;
    }
  }

  lemma NoPoint(w: string)
    requires AllDigits(w)
    ensures forall i :: 0 <= i < |w| ==> w[i] != '.'
  {
    forall i | 0 <= i < |w| ensures w[i] != '.' { assert IsDigit(w[i]); }
  }

  /** Digits alone read back as a whole number. */
  lemma UnsignedWhole(w: string)
    requires AllDigits(w) && |w| >= 1
    ensures ParseUnsigned(w) == Some(Dec(DigitsToNat(w), 0))
  {
    NoPoint(w);
    IndexOfSplit(w, "", '.');
    assert w + "" == w;
    assert w[..|w|] == w;
  }

  /** Digits, '.', digits read back with as many fractional digits as follow the point. */
  lemma UnsignedPoint(w: string, f: string)
    requires AllDigits(w) && AllDigits(f) && |w| >= 1
    ensures ParseUnsigned(w + "." + f) == Some(Dec(DigitsToNat(w + f), |f|))
  {
    var body := w + "." + f;
    NoPoint(w);
    assert body == w + ("." + f);
    IndexOfSplit(w, "." + f, '.');
    assert body[..|w|] == w;
    assert body[|w| + 1..] == f;
  }

  lemma SplitDigits(p: string, k: nat)
    requires AllDigits(p) && k <= |p|
    ensures AllDigits(p[..k]) && AllDigits(p[k..]) && p[..k] + p[k..] == p
  {
    assert forall i :: 0 <= i < k ==> p[..k][i] == p[i];
    assert forall i :: 0 <= i < |p| - k ==> p[k..][i] == p[k + i];
  }

  /** The magnitude reads back as |unscaled| at the same scale. */
  lemma ParseLayout(p: string, scale: nat)
    requires AllDigits(p) && |p| > scale
    ensures ParseUnsigned(Layout(p, scale)) == Some(Dec(DigitsToNat(p), scale))
    ensures |Layout(p, scale)| >= 1 && IsDigit(Layout(p, scale)[0])
  {
    var k := |p| - scale;
    SplitDigits(p, k);
    if scale == 0 {
      UnsignedWhole(p);
    } else {
      UnsignedPoint(p[..k], p[k..]);
      assert Layout(p, scale)[0] == p[0];
    }
  }

  lemma ParseMagnitude(d: Dec)
    ensures ParseUnsigned(Magnitude(d)) == Some(Dec(Abs(d.unscaled), d.scale))
    ensures |Magnitude(d)| >= 1 && IsDigit(Magnitude(d)[0])
  {
    ParseLayout(Padded(d), d.scale);
  }

  lemma ParseNegative(m: string, v: Dec)
    requires ParseUnsigned(m) == Some(v)
    ensures Parse("-" + m) == Some(Neg(v))
  {
    assert ("-" + m)[1..] == m;
  }

  lemma ParseNonNegative(m: string, v: Dec)
    requires |m| >= 1 && IsDigit(m[0]) && ParseUnsigned(m) == Some(v)
    ensures Parse(m) == Some(v)
  {}

  /** Reading back a plain string gives the same unscaled value and scale. */
  lemma ParsePlain(d: Dec)
    ensures Parse(PlainString(d)) == Some(d)
  {
    ParseMagnitude(d);
    if d.unscaled < 0 {
      ParseNegative(Magnitude(d), Dec(Abs(d.unscaled), d.scale));
      assert PlainString(d) == "-" + Magnitude(d);
      assert Neg(Dec(Abs(d.unscaled), d.scale)) == d;
    } else {
      assert PlainString(d) == Magnitude(d);
      ParseNonNegative(Magnitude(d), Dec(Abs(d.unscaled), d.scale));
    }
  }

  // ---------------------------------------------------------------------------
  // stripTrailingZeros, then setScale(0) when the scale went negative.

  /** No trailing zero can be taken off the fraction. */
  predicate Canonical(d: Dec)
  {
    d.scale == 0 || d.unscaled % 10 != 0
  }

  lemma DropZero(u: int, s: nat)
    requires s > 0 && u % 10 == 0
    ensures Value(Dec(u / 10, s - 1)) == Value(Dec(u, s))
  {
    ValueRescale(u / 10, s - 1, 1);
    assert (u / 10) * Pow10(1) == u;
  }

  /** The fraction with its trailing zeros removed, but never a negative scale. */
  function Normalize(d: Dec): (r: Dec)
    ensures r.scale <= d.scale && Canonical(r)
    decreases d.scale
  {
    if d.scale > 0 && d.unscaled % 10 == 0 then Normalize(Dec(d.unscaled / 10, d.scale - 1)) else d
  }

  /** Taking trailing zeros off keeps the value. */
  lemma {:induction false} NormalizeValue(d: Dec)
    ensures Value(Normalize(d)) == Value(d)
    decreases d.scale
  {
    if d.scale > 0 && d.unscaled % 10 == 0 {
      DropZero(d.unscaled, d.scale);
      NormalizeValue(Dec(d.unscaled / 10, d.scale - 1));
    }
  }

  /** setDisplay: the text the calculator writes for a value. */
  function Format(d: Dec): string
  {
    PlainString(Normalize(d))
  }

  // ---------------------------------------------------------------------------
  // Properties of the normal form.

  lemma CanonicalOrdered(x: Dec, y: Dec)
    requires Canonical(x) && Canonical(y) && Value(x) == Value(y) && x.scale <= y.scale
    ensures x == y
  {
    var k := y.scale - x.scale;
    ShiftValue(x.unscaled, x.scale, k);
    assert x.scale + k == y.scale;
    SameScale(Shift(x.unscaled, k), y.unscaled, y.scale);
    if k > 0 {
      ShiftTen(x.unscaled, k);
      assert false;
    }
    assert Shift(x.unscaled, 0) == x.unscaled;
  }

  /** Each value has exactly one canonical representation. */
  lemma CanonicalUnique(x: Dec, y: Dec)
    requires Canonical(x) && Canonical(y) && Value(x) == Value(y)
    ensures x == y
  {
    if x.scale <= y.scale {
      CanonicalOrdered(x, y);
    } else {
      CanonicalOrdered(y, x);
    }
  }

  /** The normal form, and so the text setDisplay writes, depends only on the value. */
  lemma NormalizeByValue(a: Dec, b: Dec)
    requires Value(a) == Value(b)
    ensures Normalize(a) == Normalize(b)
    ensures Format(a) == Format(b)
  {
    NormalizeValue(a);
    NormalizeValue(b);
    CanonicalUnique(Normalize(a), Normalize(b));
  }

  lemma ValueWhole(u: int)
    ensures Value(Dec(u, 0)) == u as real
  {
    RealDivOne(u as real);
  }

  /** The normal form has no fractional digits exactly when the value is whole. */
  lemma WholeIffScaleZero(d: Dec)
    ensures IsInteger(Value(d)) <==> Normalize(d).scale == 0
  {
    var n := Normalize(d);
    NormalizeValue(d);
    if n.scale == 0 {
      ValueWhole(n.unscaled);
    } else if IsInteger(Value(d)) {
      ValueWhole(Value(d).Floor);
      CanonicalUnique(Dec(Value(d).Floor, 0), n);
    }
  }

  // ---------------------------------------------------------------------------
  // The shape of display texts.

  function Count(s: string, c: char): nat
  {
    if |s| == 0 then 0 else Count(s[..|s| - 1], c) + (if s[|s| - 1] == c then 1 else 0)
  }

  lemma {:induction false} CountAppend(a: string, b: string, c: char)
    ensures Count(a + b, c) == Count(a, c) + Count(b, c)
    decreases |b|
  {
    if |b| == 0 {
      assert a + b == a;
    } else {
      assert (a + b)[..|a + b| - 1] == a + b[..|b| - 1];
      CountAppend(a, b[..|b| - 1], c);
    }
  }

  lemma {:induction false} CountDigits(s: string)
    requires AllDigits(s)
    ensures Count(s, '.') == 0
    decreases |s|
  {
    if |s| > 0 {
      var t := s[..|s| - 1];
      assert AllDigits(t) by {
        forall i | 0 <= i < |t| ensures IsDigit(t[i]) { assert t[i] == s[i]; }
      }
      CountDigits(t);
    }
  }

  /** Digits and '.', with a '-' allowed in front: the characters a typed or formatted
      number is made of. */
  predicate NumberChars(s: string)
  {
    forall i :: 0 <= i < |s| ==> IsDigit(s[i]) || s[i] == '.' || (i == 0 && s[i] == '-')
  }

  lemma LayoutShape(p: string, scale: nat)
    requires AllDigits(p) && |p| > scale
    ensures |Layout(p, scale)| >= 1 && Layout(p, scale)[|Layout(p, scale)| - 1] == p[|p| - 1]
    ensures forall i :: 0 <= i < |Layout(p, scale)| ==> IsDigit(Layout(p, scale)[i]) || Layout(p, scale)[i] == '.'
    ensures Count(Layout(p, scale), '.') == if scale == 0 then 0 else 1
  {
    var k := |p| - scale;
    SplitDigits(p, k);
    if scale == 0 {
      CountDigits(p);
    } else {
      var l := p[..k] + "." + p[k..];
      CountDigits(p[..k]);
      CountDigits(p[k..]);
      CountAppend(p[..k], ".", '.');
      CountAppend(p[..k] + ".", p[k..], '.');
      assert Count(".", '.') == 1 by { assert "."[..0] == ""; }
      forall i | 0 <= i < |l| ensures IsDigit(l[i]) || l[i] == '.' {
        if i < k { assert l[i] == p[i]; } else if i > k { assert l[i] == p[i - 1]; }
      }
    }
  }

  lemma PlainShape(d: Dec)
    ensures |PlainString(d)| >= 1 && NumberChars(PlainString(d))
    ensures Count(PlainString(d), '.') == if d.scale == 0 then 0 else 1
    ensures PlainString(d)[|PlainString(d)| - 1] == DigitChar(Abs(d.unscaled) % 10)
  {
    var p := Padded(d);
    var l := Layout(p, d.scale);
    LayoutShape(p, d.scale);
    CountAppend(Sign(d), l, '.');
    assert Count(Sign(d), '.') == 0 by { if d.unscaled < 0 { assert "-"[..0] == ""; } }
    var s := PlainString(d);
    assert s == Sign(d) + l;
    forall i | 0 <= i < |s| ensures IsDigit(s[i]) || s[i] == '.' || (i == 0 && s[i] == '-') {
      if i >= |Sign(d)| { assert s[i] == l[i - |Sign(d)|]; }
    }
    assert p[|p| - 1] == NatToDigits(Abs(d.unscaled))[|NatToDigits(Abs(d.unscaled))| - 1];
  }

  lemma LastDigitNonZero(u: int)
    requires u % 10 != 0
    ensures DigitChar(Abs(u) % 10) != '0'
  {}

  /** How setDisplay writes a value: a number in plain notation with the same value,
      a '.' exactly when the value is not whole, and then no trailing zero. */
  lemma FormatShape(d: Dec)
    ensures |Format(d)| >= 1 && NumberChars(Format(d))
    ensures Parse(Format(d)) == Some(Normalize(d))
    ensures Value(Normalize(d)) == Value(d)
    ensures Count(Format(d), '.') == if IsInteger(Value(d)) then 0 else 1
    ensures !IsInteger(Value(d)) ==> Format(d)[|Format(d)| - 1] != '0'
  {
    var n := Normalize(d);
    NormalizeValue(d);
    PlainShape(n);
    ParsePlain(n);
    WholeIffScaleZero(d);
    if n.scale > 0 {
      LastDigitNonZero(n.unscaled);
    }
  }
}
