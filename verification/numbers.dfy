/**
 Numbers as text: `String.toDouble()` restricted to the strings the keypad
 and the rendered history can produce, and the two `DecimalFormat`
 patterns `"#"` and `"#.0##"` with their default HALF_EVEN rounding,
 all on exact reals.
 */
module Numbers {
  import opened Wrappers

  predicate IsDigit(c: char) {
    '0' <= c <= '9'
  }

  predicate AllDigits(s: string) {
    forall i :: 0 <= i < |s| ==> IsDigit(s[i])
  }

  function DigitChar(d: nat): (c: char)
    requires d < 10
    ensures IsDigit(c) && c as int - '0' as int == d
  {
    ('0' as int + d) as char
  }

  /** The value of a run of decimal digits, most significant first. */
  function DigitsValue(s: string): nat
    requires AllDigits(s)
    decreases |s|
  {
    if s == [] then 0
    else 10 * DigitsValue(s[..|s| - 1]) + (s[|s| - 1] as int - '0' as int)
  }

  lemma DigitsValueSnoc(s: string, d: nat)
    requires AllDigits(s) && d < 10
    ensures AllDigits(s + [DigitChar(d)])
    ensures DigitsValue(s + [DigitChar(d)]) == 10 * DigitsValue(s) + d
  {
    assert (s + [DigitChar(d)])[..|s|] == s;
  }

  function Pow10(k: nat): (r: nat)
    ensures r >= 1
  {
    if k == 0 then 1 else 10 * Pow10(k - 1)
  }

  /** Decimal digits of `n`, no leading zero. */
  function NatToString(n: nat): (r: string)
    ensures |r| >= 1 && AllDigits(r)
    ensures DigitsValue(r) == n
    ensures |r| == 1 || r[0] != '0'
    decreases n
  {
    if n < 10 then [DigitChar(n)]
    else
      var r := NatToString(n / 10) + [DigitChar(n % 10)];
      DigitsValueSnoc(NatToString(n / 10), n % 10);
      r
  }

  /** A whole number with a leading '-' when negative. */
  function IntToString(n: int): string {
    if n < 0 then "-" + NatToString(-n) else NatToString(n)
  }

  lemma DigitsHaveNoDot(s: string)
    requires AllDigits(s)
    ensures '.' !in s && ' ' !in s
  {
    forall i | 0 <= i < |s| ensures s[i] != '.' && s[i] != ' ' {
      assert IsDigit(s[i]);
    }
  }

  /** Position of the first '.' in `s`. */
  function DotIndex(s: string): (i: nat)
    requires '.' in s
    ensures i < |s| && s[i] == '.'
    ensures forall j :: 0 <= j < i ==> s[j] != '.'
  {
    if s[0] == '.' then 0 else 1 + DotIndex(s[1..])
  }

  /** The value of `whole "." fraction`. */
  function DecimalValue(whole: string, fraction: string): (r: real)
    requires AllDigits(whole) && AllDigits(fraction)
    ensures r >= 0.0
  {
    DigitsValue(whole) as real + DigitsValue(fraction) as real / Pow10(|fraction|) as real
  }

  lemma NoSpaceAroundDot(t: string, i: nat)
    requires i < |t| && t[i] == '.'
    requires AllDigits(t[..i]) && AllDigits(t[i + 1..])
    ensures ' ' !in t
  {
    DigitsHaveNoDot(t[..i]);
    DigitsHaveNoDot(t[i + 1..]);
    assert t == t[..i] + "." + t[i + 1..];
  }

  /** Digits with at most one '.', at least one digit: `5`, `5.`, `.5`, `5.25`. */
  function ParseUnsigned(t: string): (r: Option<real>)
    ensures r.Some? ==> r.value >= 0.0 && t != []
  {
    if '.' !in t then
      if |t| > 0 && AllDigits(t) then Some(DigitsValue(t) as real) else None
    else
      var i := DotIndex(t);
      var whole, fraction := t[..i], t[i + 1..];
      if |whole| + |fraction| > 0 && AllDigits(whole) && AllDigits(fraction) then
        Some(DecimalValue(whole, fraction))
      else None
  }

  /** Digits and one '.' leave no room for a space. */
  lemma UnsignedHasNoSpace(t: string)
    requires ParseUnsigned(t).Some?
    ensures ' ' !in t
  {
    if '.' !in t {
      DigitsHaveNoDot(t);
    } else {
      NoSpaceAroundDot(t, DotIndex(t));
    }
  }

  /** `String.toDouble()` on an optional sign followed by an unsigned decimal.
      A number has no space in it, a lone non-digit character is never one,
      and only a leading '-' makes the value negative. */
  function ParseNumber(token: string): (r: Option<real>)
    ensures r.Some? ==> token != []
    ensures |token| == 1 && !IsDigit(token[0]) ==> r.None?
    ensures r.Some? && r.value < 0.0 ==> token[0] == '-'
    ensures r.Some? && token[0] == '-' ==> r.value <= 0.0
  {
    if |token| > 0 && (token[0] == '-' || token[0] == '+') then
      match ParseUnsigned(token[1..])
      case Some(v) =>
        assert token == [token[0]] + token[1..];
        if token[0] == '-' then Some(-v) else Some(v)
      case None => None
    else ParseUnsigned(token)
  }

  /** A number holds no space, so it stays one token when the history is split. */
  lemma NumberHasNoSpace(token: string)
    requires ParseNumber(token).Some?
    ensures ' ' !in token
  {
    if |token| > 0 && (token[0] == '-' || token[0] == '+') {
      UnsignedHasNoSpace(token[1..]);
      assert token == [token[0]] + token[1..];
    } else {
      UnsignedHasNoSpace(token);
    }
  }

  /** The strings `toDouble()` is asked to read, written as a grammar:
      digits and '.', at most one '.', at least one digit. */
  predicate UnsignedSyntax(u: string) {
    && (forall i :: 0 <= i < |u| ==> IsDigit(u[i]) || u[i] == '.')
    && (forall i, j :: 0 <= i < j < |u| && u[i] == '.' ==> u[j] != '.')
    && (exists i :: 0 <= i < |u| && IsDigit(u[i]))
  }

  predicate HasSign(token: string) {
    |token| > 0 && (token[0] == '-' || token[0] == '+')
  }

  /** An optional leading sign, then an unsigned decimal. */
  predicate NumberSyntax(token: string) {
    if HasSign(token) then UnsignedSyntax(token[1..]) else UnsignedSyntax(token)
  }

  lemma UnsignedSyntaxIff(u: string)
    ensures ParseUnsigned(u).Some? <==> UnsignedSyntax(u)
  {
    if '.' !in u {
      if ParseUnsigned(u).Some? {
        assert IsDigit(u[0]);
      }
      if UnsignedSyntax(u) {
        forall j | 0 <= j < |u| ensures IsDigit(u[j]) {
          assert u[j] in u;
        }
      }
    } else {
      var i := DotIndex(u);
      var whole, fraction := u[..i], u[i + 1..];
      if UnsignedSyntax(u) {
        forall j | 0 <= j < |whole| ensures IsDigit(whole[j]) {
          assert whole[j] == u[j];
        }
        forall j | 0 <= j < |fraction| ensures IsDigit(fraction[j]) {
          assert fraction[j] == u[i + 1 + j];
        }
        var k :| 0 <= k < |u| && IsDigit(u[k]);
        assert k != i;
      }
      if ParseUnsigned(u).Some? {
        forall j | 0 <= j < i ensures IsDigit(u[j]) {
          assert u[j] == whole[j];
        }
        forall j | i < j < |u| ensures IsDigit(u[j]) {
          assert u[j] == fraction[j - i - 1];
        }
        if |whole| > 0 {
          assert IsDigit(u[0]) by { assert u[0] == whole[0]; }
        } else {
          assert IsDigit(u[i + 1]) by { assert u[i + 1] == fraction[0]; }
        }
      }
    }
  }

  /** `toDouble()` reads a keypad string exactly when it is an optional
      sign followed by digits and at most one '.', with at least one digit. */
  lemma NumberSyntaxIff(token: string)
    ensures ParseNumber(token).Some? <==> NumberSyntax(token)
  {
    if HasSign(token) {
      UnsignedSyntaxIff(token[1..]);
    } else {
      UnsignedSyntaxIff(token);
    }
  }

  /** A sign in front of an unsigned number negates it or leaves it alone. */
  lemma ParseWithSign(sign: string, u: string)
    requires sign == "" || sign == "+" || sign == "-"
    requires !HasSign(u) && ParseUnsigned(u).Some?
    ensures ParseNumber(sign + u) == Some(if sign == "-" then -ParseUnsigned(u).value else ParseUnsigned(u).value)
  {
    if sign == "" {
      assert sign + u == u;
    } else {
      assert (sign + u)[1..] == u;
    }
  }

  /** A sign and a nonempty run of digits read as the digits' value, negated
      after '-'. */
  lemma ParseSignedDigits(sign: string, d: string)
    requires sign == "" || sign == "+" || sign == "-"
    requires d != [] && AllDigits(d)
    ensures ParseNumber(sign + d) == Some(if sign == "-" then -(DigitsValue(d) as real) else DigitsValue(d) as real)
  {
    DigitsHaveNoDot(d);
    assert IsDigit(d[0]);
    ParseWithSign(sign, d);
  }

  /** A sign, digits, '.' and digits, with a digit on at least one side,
      read as `whole.fraction`, negated after '-'. */
  lemma ParseSignedDecimal(sign: string, whole: string, fraction: string)
    requires sign == "" || sign == "+" || sign == "-"
    requires AllDigits(whole) && AllDigits(fraction) && |whole| + |fraction| > 0
    ensures var v := DecimalValue(whole, fraction);
      ParseNumber(sign + whole + "." + fraction) == Some(if sign == "-" then -v else v)
  {
    var u := whole + "." + fraction;
    ParseDecimalText(whole, fraction);
    assert !HasSign(u) by {
      if |whole| > 0 {
        assert u[0] == whole[0];
        assert IsDigit(whole[0]);
      }
    }
    ParseWithSign(sign, u);
    SignedTextRegroup(sign, whole, fraction);
  }

  lemma SignedTextRegroup(sign: string, whole: string, fraction: string)
    ensures sign + whole + "." + fraction == sign + (whole + "." + fraction)
  {
  }

  lemma DotIndexFirst(s: string, k: nat)
    requires k < |s| && s[k] == '.'
    requires forall j :: 0 <= j < k ==> s[j] != '.'
    ensures DotIndex(s) == k
  {
    var i := DotIndex(s);
    assert !(i < k);
    assert !(k < i);
  }

  lemma ParseNatDigits(n: nat)
    ensures ParseUnsigned(NatToString(n)) == Some(n as real)
  {
    DigitsHaveNoDot(NatToString(n));
  }

  /** A whole number typed on the keypad, with or without a sign, reads back as itself. */
  lemma ParseIntToString(n: int)
    ensures ParseNumber(IntToString(n)) == Some(n as real)
    ensures n >= 0 ==> ParseNumber("+" + IntToString(n)) == Some(n as real)
  {
    var a: nat := if n < 0 then -n else n;
    var digits := NatToString(a);
    ParseNatDigits(a);
    assert IsDigit(digits[0]);
    if n < 0 {
      assert ("-" + digits)[1..] == digits;
    } else {
      assert ("+" + digits)[1..] == digits;
    }
  }

  predicate IsInteger(x: real) {
    x == x.Floor as real
  }

  /** Rounding to the nearest whole number, ties to the even neighbour
      (`RoundingMode.HALF_EVEN`, the `DecimalFormat` default). */
  function RoundHalfEven(x: real): (n: int)
    ensures -0.5 <= n as real - x <= 0.5
    ensures (n as real - x == 0.5 || x - n as real == 0.5) ==> n % 2 == 0
    ensures IsInteger(x) ==> n as real == x
  {
    var f := x.Floor;
    var d := x - f as real;
    if d < 0.5 then f
    else if d > 0.5 then f + 1
    else if f % 2 == 0 then f
    else f + 1
  }

  /** The '-' `DecimalFormat` writes before any negative value, even one
      that rounds to zero. */
  function Sign(x: real): string {
    if x < 0.0 then "-" else ""
  }

  function Magnitude(n: int): nat {
    if n < 0 then -n else n
  }

  /** `DecimalFormat("#")`: rounded to a whole number. */
  function FormatWhole(x: real): string {
    Sign(x) + NatToString(Magnitude(RoundHalfEven(x)))
  }

  /** Hundreds, tens and units of a number below 1000. */
  function ThreeDigits(t: nat): (d: (nat, nat, nat))
    requires t < 1000
    ensures d.0 < 10 && d.1 < 10 && d.2 < 10 && t == 100 * d.0 + 10 * d.1 + d.2
  {
    var d1 := t / 100;
    var r := t - 100 * d1;
    var d2 := r / 10;
    (d1, d2, r - 10 * d2)
  }

  /** One to three fraction digits of `thousandths / 1000`, trailing zeros
      dropped down to the one digit `"#.0##"` demands. */
  function FractionDigits(thousandths: nat): (r: string)
    requires thousandths < 1000
    ensures 1 <= |r| <= 3 && AllDigits(r)
    ensures |r| > 1 ==> r[|r| - 1] != '0'
  {
    var (d1, d2, d3) := ThreeDigits(thousandths);
    if d3 != 0 then [DigitChar(d1), DigitChar(d2), DigitChar(d3)]
    else if d2 != 0 then [DigitChar(d1), DigitChar(d2)]
    else [DigitChar(d1)]
  }

  lemma ThreeDigitsValue(d1: nat, d2: nat, d3: nat)
    requires d1 < 10 && d2 < 10 && d3 < 10
    ensures DigitsValue([DigitChar(d1), DigitChar(d2), DigitChar(d3)]) == 100 * d1 + 10 * d2 + d3
  {
    DigitsValueSnoc([], d1);
    DigitsValueSnoc([DigitChar(d1)], d2);
    DigitsValueSnoc([DigitChar(d1), DigitChar(d2)], d3);
    assert [] + [DigitChar(d1)] == [DigitChar(d1)];
    assert [DigitChar(d1)] + [DigitChar(d2)] == [DigitChar(d1), DigitChar(d2)];
    assert [DigitChar(d1), DigitChar(d2)] + [DigitChar(d3)] == [DigitChar(d1), DigitChar(d2), DigitChar(d3)];
  }

  lemma TwoDigitsValue(d1: nat, d2: nat)
    requires d1 < 10 && d2 < 10
    ensures DigitsValue([DigitChar(d1), DigitChar(d2)]) == 10 * d1 + d2
  {
    DigitsValueSnoc([], d1);
    DigitsValueSnoc([DigitChar(d1)], d2);
    assert [] + [DigitChar(d1)] == [DigitChar(d1)];
    assert [DigitChar(d1)] + [DigitChar(d2)] == [DigitChar(d1), DigitChar(d2)];
  }

  lemma OneDigitValue(d1: nat)
    requires d1 < 10
    ensures DigitsValue([DigitChar(d1)]) == d1
  {
    DigitsValueSnoc([], d1);
    assert [] + [DigitChar(d1)] == [DigitChar(d1)];
  }

  /** `a / 1000` without sign as `"#.0##"` shows it: integer digits only when
      nonzero, then '.', then `FractionDigits`. */
  function ThousandthsText(a: nat): string {
    (if a / 1000 == 0 then "" else NatToString(a / 1000)) + "." + FractionDigits(a % 1000)
  }

  /** The integer digits `"#.0##"` shows: none for zero. */
  function WholeDigits(q: nat): string {
    if q == 0 then "" else NatToString(q)
  }

  /** The integer digits spell `q`. */
  lemma WholeDigitsValue(q: nat)
    ensures AllDigits(WholeDigits(q)) && DigitsValue(WholeDigits(q)) == q
  {
  }

  /** `DecimalFormat("#.0##")`: rounded to thousandths; no integer digit when
      the whole part is zero (`.5`, `.0`). */
  function FormatFraction(x: real): string {
    Sign(x) + ThousandthsText(Magnitude(RoundHalfEven(x * 1000.0)))
  }

  /** One stack element as the history shows it. */
  function Format(x: real, showDecimal: bool): string {
    if showDecimal then FormatFraction(x) else FormatWhole(x)
  }

  /** The value `Format` actually shows. */
  function Rounded(x: real, showDecimal: bool): real {
    if showDecimal then RoundHalfEven(x * 1000.0) as real / 1000.0 else RoundHalfEven(x) as real
  }

  /** The fraction digits stand for `thousandths / 1000`. */
  lemma FractionDigitsValue(thousandths: nat)
    requires thousandths < 1000
    ensures var f := FractionDigits(thousandths);
            DigitsValue(f) as real / Pow10(|f|) as real == thousandths as real / 1000.0
  {
    var (d1, d2, d3) := ThreeDigits(thousandths);
    var f := FractionDigits(thousandths);
    if d3 != 0 {
      ThreeDigitsValue(d1, d2, d3);
      assert |f| == 3 && Pow10(|f|) == 1000;
    } else if d2 != 0 {
      TwoDigitsValue(d1, d2);
      assert |f| == 2 && Pow10(|f|) == 100;
    } else {
      OneDigitValue(d1);
      assert |f| == 1 && Pow10(|f|) == 10;
    }
  }

  /** `whole "." fraction`, with a digit on at least one side, reads as
      whole plus fraction over its power of ten. */
  lemma ParseDecimalText(whole: string, fraction: string)
    requires AllDigits(whole) && AllDigits(fraction) && |whole| + |fraction| > 0
    ensures ParseUnsigned(whole + "." + fraction) == Some(DecimalValue(whole, fraction))
  {
    var u := whole + "." + fraction;
    DigitsHaveNoDot(whole);
    assert u[|whole|] == '.';
    assert DotIndex(u) == |whole| by {
      forall j | 0 <= j < |whole| ensures u[j] != '.' {
        assert u[j] == whole[j];
      }
      DotIndexFirst(u, |whole|);
    }
    assert u[..|whole|] == whole && u[|whole| + 1..] == fraction;
  }

  /** Reading back the unsigned text of `a / 1000`. */
  lemma ParseThousandthsText(a: nat)
    ensures ParseUnsigned(ThousandthsText(a)) == Some(a as real / 1000.0)
  {
    var q, r := a / 1000, a % 1000;
    var whole := WholeDigits(q);
    var fraction := FractionDigits(r);
    WholeDigitsValue(q);
    calc {
      ParseUnsigned(ThousandthsText(a));
      ParseUnsigned(whole + "." + fraction);
      { ParseDecimalText(whole, fraction); }
      Some(DecimalValue(whole, fraction));
      { FractionDigitsValue(r); }
      Some(q as real + r as real / 1000.0);
      { SplitThousandths(a); }
      Some(a as real / 1000.0);
    }
  }

  /** Whole part plus thousandths is the value. */
  lemma SplitThousandths(a: nat)
    ensures (a / 1000) as real + (a % 1000) as real / 1000.0 == a as real / 1000.0
  {
    var q, r := a / 1000, a % 1000;
    assert a == 1000 * q + r;
    assert a as real == 1000.0 * q as real + r as real;
  }

  /** `Sign(x)` in front of an unsigned text negates its value when `x < 0`. */
  lemma ParseSigned(x: real, body: string, v: real)
    requires body != [] && body[0] != '-' && body[0] != '+'
    requires ParseUnsigned(body) == Some(v)
    ensures ParseNumber(Sign(x) + body) == Some(if x < 0.0 then -v else v)
  {
    if x < 0.0 {
      assert ("-" + body)[1..] == body;
    } else {
      assert Sign(x) + body == body;
    }
  }

  lemma ParseFormatWhole(x: real)
    ensures ParseNumber(FormatWhole(x)) == Some(RoundHalfEven(x) as real)
  {
    var n := RoundHalfEven(x);
    var digits := NatToString(Magnitude(n));
    ParseNatDigits(Magnitude(n));
    assert IsDigit(digits[0]);
    ParseSigned(x, digits, Magnitude(n) as real);
  }

  lemma ThousandthsTextStart(a: nat)
    ensures ThousandthsText(a)[0] != '-' && ThousandthsText(a)[0] != '+'
  {
    var q := a / 1000;
    if q != 0 {
      assert ThousandthsText(a)[0] == NatToString(q)[0];
      assert IsDigit(NatToString(q)[0]);
    }
  }

  lemma ParseFormatFraction(x: real)
    ensures ParseNumber(FormatFraction(x)) == Some(RoundHalfEven(x * 1000.0) as real / 1000.0)
  {
    var m := RoundHalfEven(x * 1000.0);
    var v := Magnitude(m) as real / 1000.0;
    ParseThousandthsText(Magnitude(m));
    ThousandthsTextStart(Magnitude(m));
    ParseSigned(x, ThousandthsText(Magnitude(m)), v);
    assert (if x < 0.0 then -v else v) == m as real / 1000.0;
  }

  /** The history a successful evaluation renders reads back as the value it
      shows: the render -> re-tokenise path loses only the rounding. */
  lemma ParseFormat(x: real, showDecimal: bool)
    ensures ParseNumber(Format(x, showDecimal)) == Some(Rounded(x, showDecimal))
  {
    if showDecimal {
      ParseFormatFraction(x);
    } else {
      ParseFormatWhole(x);
    }
  }

  lemma ScaleInteger(k: int)
    ensures RoundHalfEven(k as real * 1000.0) == k * 1000
  {
    assert k as real * 1000.0 == (k * 1000) as real;
  }

  /** A whole number of units has no thousandths left over. */
  lemma WholeThousandths(w: nat)
    ensures (w * 1000) / 1000 == w && (w * 1000) % 1000 == 0
  {
  }

  /** `"#.0##"` keeps one fraction digit even when it is zero. */
  lemma FractionDigitsZero()
    ensures FractionDigits(0) == "0"
  {
    assert ThreeDigits(0) == (0, 0, 0);
  }

  lemma ThousandthsWhole(w: nat)
    ensures ThousandthsText(w * 1000) == WholeDigits(w) + ".0"
  {
    var a := w * 1000;
    calc {
      ThousandthsText(a);
      (if a / 1000 == 0 then "" else NatToString(a / 1000)) + "." + FractionDigits(a % 1000);
      { WholeThousandths(w); }
      WholeDigits(w) + "." + FractionDigits(0);
      { FractionDigitsZero(); }
      WholeDigits(w) + ".0";
    }
  }

  /** What `"#"` writes: a '-' exactly for a negative value, then the
      decimal digits, without a leading zero, of the nearest whole number's
      magnitude. */
  lemma FormatWholeShape(x: real)
    ensures var s := FormatWhole(x);
      var digits := if x < 0.0 then s[1..] else s;
      && s != [] && (s[0] == '-' <==> x < 0.0)
      && |digits| >= 1 && AllDigits(digits) && (|digits| == 1 || digits[0] != '0')
      && DigitsValue(digits) == Magnitude(RoundHalfEven(x))
  {
    var digits := NatToString(Magnitude(RoundHalfEven(x)));
    assert IsDigit(digits[0]);
    if x < 0.0 {
      assert ("-" + digits)[1..] == digits;
    } else {
      assert "" + digits == digits;
    }
  }

  /** What `"#.0##"` writes: a '-' exactly for a negative value; then the
      integer digits of the value in thousandths, rounded, without a leading
      zero and absent when the magnitude rounds below one; then '.'; then
      the one to three fraction digits. */
  lemma FormatFractionShape(x: real)
    ensures var s := FormatFraction(x);
      var a := Magnitude(RoundHalfEven(x * 1000.0));
      var body := if x < 0.0 then s[1..] else s;
      && s != [] && (s[0] == '-' <==> x < 0.0)
      && '.' in body
      && var i := DotIndex(body);
      && AllDigits(body[..i]) && DigitsValue(body[..i]) == a / 1000
      && (body[..i] == [] <==> a < 1000)
      && (body[..i] == [] || body[0] != '0')
      && body[i + 1..] == FractionDigits(a % 1000)
  {
    var a := Magnitude(RoundHalfEven(x * 1000.0));
    var body := ThousandthsText(a);
    ThousandthsShape(a);
    if x < 0.0 {
      assert ("-" + body)[1..] == body;
    } else {
      assert "" + body == body;
    }
  }

  /** The unsigned text of `a / 1000`: integer digits, absent below one,
      then '.', then the fraction digits. */
  lemma ThousandthsShape(a: nat)
    ensures var body := ThousandthsText(a);
      && '.' in body
      && var i := DotIndex(body);
      && AllDigits(body[..i]) && DigitsValue(body[..i]) == a / 1000
      && (body[..i] == [] <==> a < 1000)
      && (body[..i] == [] || body[0] != '0')
      && body[i + 1..] == FractionDigits(a % 1000)
  {
    var whole, fraction := WholeDigits(a / 1000), FractionDigits(a % 1000);
    var body := whole + "." + fraction;
    WholeDigitsValue(a / 1000);
    DigitsHaveNoDot(whole);
    assert body[|whole|] == '.';
    forall j | 0 <= j < |whole| ensures body[j] != '.' {
      assert body[j] == whole[j];
    }
    DotIndexFirst(body, |whole|);
    assert body[..|whole|] == whole && body[|whole| + 1..] == fraction;
    if whole != [] {
      assert body[0] == whole[0];
    }
    assert ThousandthsText(a) == body;
  }

  /** Whole numbers under `"#"`: their plain digits. */
  lemma FormatWholeInteger(k: int)
    ensures FormatWhole(k as real) == IntToString(k)
  {
    assert RoundHalfEven(k as real) == k;
  }

  lemma FractionShapeOfInteger(k: int)
    ensures FormatFraction(k as real) == Sign(k as real) + ThousandthsText(Magnitude(k) * 1000)
  {
    calc {
      FormatFraction(k as real);
      Sign(k as real) + ThousandthsText(Magnitude(RoundHalfEven(k as real * 1000.0)));
      { ScaleInteger(k); }
      Sign(k as real) + ThousandthsText(Magnitude(k * 1000));
      { assert Magnitude(k * 1000) == Magnitude(k) * 1000; }
      Sign(k as real) + ThousandthsText(Magnitude(k) * 1000);
    }
  }

  /** Whole numbers under `"#.0##"`: their digits and `.0`, or `.0` alone for zero. */
  lemma FormatFractionInteger(k: int)
    ensures k != 0 ==> FormatFraction(k as real) == IntToString(k) + ".0"
    ensures k == 0 ==> FormatFraction(k as real) == ".0"
  {
    FractionShapeOfInteger(k);
    ThousandthsWhole(Magnitude(k));
    if k < 0 {
      assert FormatFraction(k as real) == "-" + (NatToString(-k) + ".0");
    }
  }

  /** Whole numbers are shown exactly under either pattern. */
  lemma RoundedInteger(k: int, showDecimal: bool)
    ensures Rounded(k as real, showDecimal) == k as real
  {
    ScaleInteger(k);
  }
}
