/** Fixed-point decimal rendering (packages/duckdb-wasm/src/format.ts,
    `formatDecimal`): the unscaled integer is printed and `scale` digits are
    split off as the fractional part, with trailing zeros trimmed. */
module Decimal {
  import opened Outcomes
  import opened Text

  function Abs(i: int): nat {
    if i < 0 then -i else i
  }

  /** The digits left of the point: all but the last `scale`, or `"0"` when none remain. */
  function WholePart(digits: string, scale: nat): string
    requires scale > 0
  {
    var whole := DropLast(digits, scale);
    if whole == "" then "0" else whole
  }

  /** The digits right of the point: the last `scale`, trailing zeros removed. */
  function FracPart(digits: string, scale: nat): string
    requires scale > 0
  {
    TrimEnd(TakeLast(digits, scale), '0')
  }

  /** Joins the sign, the whole part and the fractional part, the latter
      with its '.' only when non-empty. */
  function Assemble(sign: string, digits: string, scale: nat): string
    requires scale > 0
  {
    var frac := FracPart(digits, scale);
    sign + WholePart(digits, scale) + (if frac != "" then "." + frac else "")
  }

  /** `formatDecimal` as written: the numeral, sign included, is padded to
      `scale` characters BEFORE the sign is split off. With scale 0 the pad
      to width 0 leaves `String(value)` as it is. */
  function FormatDecimalAsWritten(value: int, scale: nat): (r: string)
    ensures scale == 0 ==> r == IntToString(value)
  {
    var numString := PadStart(IntToString(value), scale, '0');
    if scale == 0 then numString
    else if |numString| > 0 && numString[0] == '-' then Assemble("-", numString[1..], scale)
    else Assemble("", numString, scale)
  }

  /** `formatDecimal` as evidently intended: the sign is split off first and
      only the digits are padded, so the value survives for every input. */
  function FormatDecimal(value: int, scale: nat): string {
    if scale == 0 then IntToString(value)
    else Assemble(if value < 0 then "-" else "", PadStart(NatToString(Abs(value)), scale, '0'), scale)
  }

  // Reading a decimal string back

  /** The parts of `[-]whole[.frac]`; `point` tells whether a '.' was present. */
  datatype DecimalText = DecimalText(negative: bool, whole: string, point: bool, frac: string)

  function SplitDecimal(s: string): DecimalText {
    var negative := |s| > 0 && s[0] == '-';
    SplitBody(negative, if negative then s[1..] else s)
  }

  /** The parts of an unsigned `whole[.frac]`. */
  function SplitBody(negative: bool, body: string): DecimalText {
    var i := IndexOf(body, '.');
    if i < |body| then DecimalText(negative, body[..i], true, body[i + 1..])
    else DecimalText(negative, body, false, "")
  }

  /** The unscaled integer `whole.frac` denotes at the given scale. */
  function Magnitude(whole: string, frac: string, scale: nat): int
    requires AllDigits(whole) && AllDigits(frac) && |frac| <= scale
  {
    DigitsValue(whole) * Pow10(scale) + DigitsValue(frac) * Pow10(scale - |frac|)
  }

  /** The unscaled integer a decimal string denotes at the given scale
      (`"12.345"` at scale 3 is 12345), or `None` when it is not a decimal. */
  function ParseDecimal(s: string, scale: nat): Option<int> {
    var d := SplitDecimal(s);
    if d.whole != "" && AllDigits(d.whole) && AllDigits(d.frac)
       && (d.point ==> d.frac != "") && |d.frac| <= scale
    then
      var magnitude := Magnitude(d.whole, d.frac, scale);
      Some(if d.negative then -magnitude else magnitude)
    else None
  }

  /** The canonical shape of a rendered decimal. */
  predicate WellShaped(r: string, scale: nat, negative: bool) {
    var d := SplitDecimal(r);
    && d.negative == negative
    && d.whole != "" && AllDigits(d.whole)
    && AllDigits(d.frac) && |d.frac| <= scale
    && (d.frac == "" || d.frac[|d.frac| - 1] != '0')
    && (d.point <==> d.frac != "")
    && r == (if negative then "-" else "") + d.whole + (if d.point then "." + d.frac else "")
  }

  lemma SplitDecimalOf(sign: string, whole: string, frac: string)
    requires sign == "" || sign == "-"
    requires whole != "" && AllDigits(whole) && AllDigits(frac)
    ensures SplitDecimal(sign + whole + (if frac != "" then "." + frac else ""))
            == DecimalText(sign == "-", whole, frac != "", frac)
  {
    var tail := if frac != "" then "." + frac else "";
    var body := whole + tail;
    assert body[0] == whole[0] && IsDigit(whole[0]);
    assert sign + whole + tail == sign + body;
    SplitSign(sign, body);
    SplitBodyOf(sign == "-", whole, frac);
  }

  lemma SplitSign(sign: string, body: string)
    requires sign == "" || sign == "-"
    requires body != "" && body[0] != '-'
    ensures SplitDecimal(sign + body) == SplitBody(sign == "-", body)
  {
    var s := sign + body;
    if sign == "-" {
      assert s[0] == '-' && s[1..] == body;
    } else {
      assert s == body;
    }
  }

  lemma SplitBodyOf(negative: bool, whole: string, frac: string)
    requires AllDigits(whole)
    ensures SplitBody(negative, whole + (if frac != "" then "." + frac else ""))
            == DecimalText(negative, whole, frac != "", frac)
  {
    assert '.' !in whole by {
      assert forall k :: 0 <= k < |whole| ==> IsDigit(whole[k]);
    }
    if frac != "" {
      var body := whole + ['.'] + frac;
      assert whole + (if frac != "" then "." + frac else "") == body;
      IndexOfPrefix(whole, '.', frac);
      assert body[..|whole|] == whole && body[|whole| + 1..] == frac;
    } else {
      assert whole + (if frac != "" then "." + frac else "") == whole;
      IndexOfFree(whole, '.');
      assert SplitBody(negative, whole) == DecimalText(negative, whole, false, "");
    }
  }

  /** Splitting `scale` digits off keeps the value: whole * 10^scale + frac
      (re-extended to `scale` digits) is the value of `digits`. */
  lemma PartsValue(digits: string, scale: nat)
    requires scale > 0 && AllDigits(digits) && |digits| >= scale
    ensures WholePart(digits, scale) != "" && AllDigits(WholePart(digits, scale))
    ensures AllDigits(FracPart(digits, scale)) && |FracPart(digits, scale)| <= scale
    ensures Magnitude(WholePart(digits, scale), FracPart(digits, scale), scale) == DigitsValue(digits)
  {
    var cut := |digits| - scale;
    var whole0, raw := digits[..cut], digits[cut..];
    assert DropLast(digits, scale) == whole0;
    assert TakeLast(digits, scale) == raw;
    PrefixDigits(digits, cut);
    var frac := TrimEnd(raw, '0');
    var zeros := Repeat('0', scale - |frac|);
    assert raw == frac + zeros;
    SplitValue(digits, cut);
    ZerosValue(scale - |frac|);
    DigitsValueAppend(frac, zeros);
    var whole := WholePart(digits, scale);
    assert DigitsValue(whole) == DigitsValue(whole0) by {
      if whole0 == "" {
        assert DigitsValue("0") == 10 * DigitsValue("") + DigitValue('0');
      }
    }
    assert DigitsValue(raw) == DigitsValue(frac) * Pow10(scale - |frac|);
  }

  /** What `Assemble` produces from `digits`, and the value it denotes. */
  lemma AssembleMeaning(sign: string, digits: string, scale: nat)
    requires scale > 0 && (sign == "" || sign == "-")
    requires AllDigits(digits) && |digits| >= scale
    ensures WellShaped(Assemble(sign, digits, scale), scale, sign == "-")
    ensures var d := SplitDecimal(Assemble(sign, digits, scale));
            Magnitude(d.whole, d.frac, scale) == DigitsValue(digits)
  {
    PartsValue(digits, scale);
    AssembleParts(sign, WholePart(digits, scale), FracPart(digits, scale), scale);
  }

  /** Joining a digit whole part and a fraction at most `scale` long that
      does not end in '0' gives a well-shaped text with those parts. */
  lemma AssembleParts(sign: string, whole: string, frac: string, scale: nat)
    requires sign == "" || sign == "-"
    requires whole != "" && AllDigits(whole) && AllDigits(frac) && |frac| <= scale
    requires frac == "" || frac[|frac| - 1] != '0'
    ensures var r := sign + whole + (if frac != "" then "." + frac else "");
            && WellShaped(r, scale, sign == "-")
            && SplitDecimal(r).whole == whole && SplitDecimal(r).frac == frac
  {
    SplitDecimalOf(sign, whole, frac);
  }

  /** The shape of every rendered decimal: an optional '-' exactly for
      negative values, a non-empty whole part, and a fractional part of at
      most `scale` digits that never ends in '0' and is shown only when
      non-empty. */
  lemma FormatDecimalShape(value: int, scale: nat)
    ensures WellShaped(FormatDecimal(value, scale), scale, value < 0)
  {
    var n := NatToString(Abs(value));
    if scale == 0 {
      SplitDecimalOf(if value < 0 then "-" else "", n, "");
      assert IntToString(value) == (if value < 0 then "-" else "") + n + "";
    } else {
      PadStartValue(n, scale);
      AssembleMeaning(if value < 0 then "-" else "", PadStart(n, scale, '0'), scale);
    }
  }

  /** A well-shaped string parses to the value its parts denote. */
  lemma ParseWellShaped(r: string, scale: nat, negative: bool)
    requires WellShaped(r, scale, negative)
    ensures var d := SplitDecimal(r);
            var magnitude := Magnitude(d.whole, d.frac, scale);
            ParseDecimal(r, scale) == Some(if negative then -magnitude else magnitude)
  {
  }

  /** Reading the rendering back at the same scale yields the unscaled
      integer: the output denotes value / 10^scale. */
  lemma FormatDecimalRoundTrip(value: int, scale: nat)
    ensures ParseDecimal(FormatDecimal(value, scale), scale) == Some(value)
  {
    if scale == 0 {
      RoundTripUnscaled(value);
    } else {
      RoundTripScaled(value, scale);
    }
  }

  lemma RoundTripUnscaled(value: int)
    ensures ParseDecimal(FormatDecimal(value, 0), 0) == Some(value)
  {
    NatToStringValue(Abs(value));
    FormatDecimalShape(value, 0);
    ParseWellShaped(FormatDecimal(value, 0), 0, value < 0);
    UnscaledParts(value);
  }

  lemma RoundTripScaled(value: int, scale: nat)
    requires scale > 0
    ensures ParseDecimal(FormatDecimal(value, scale), scale) == Some(value)
  {
    FormatDecimalShape(value, scale);
    ParseWellShaped(FormatDecimal(value, scale), scale, value < 0);
    ScaledParts(value, scale);
  }

  lemma UnscaledParts(value: int)
    ensures var d := SplitDecimal(FormatDecimal(value, 0));
            d.whole == NatToString(Abs(value)) && d.frac == ""
  {
    var n := NatToString(Abs(value));
    SplitDecimalOf(if value < 0 then "-" else "", n, "");
    assert FormatDecimal(value, 0) == (if value < 0 then "-" else "") + n + "";
  }

  lemma ScaledParts(value: int, scale: nat)
    requires scale > 0
    ensures var d := SplitDecimal(FormatDecimal(value, scale));
            AllDigits(d.whole) && AllDigits(d.frac) && |d.frac| <= scale
            && Magnitude(d.whole, d.frac, scale) == Abs(value)
  {
    var n := NatToString(Abs(value));
    NatToStringValue(Abs(value));
    PadStartValue(n, scale);
    AssembleMeaning(if value < 0 then "-" else "", PadStart(n, scale, '0'), scale);
  }

  // The discrepancy between the code as written and the intended rendering

  /** The two renderings agree except on negative values with fewer digits
      than the scale. */
  lemma AsWrittenAgreement(value: int, scale: nat)
    ensures FormatDecimalAsWritten(value, scale) == FormatDecimal(value, scale)
            <==> (scale == 0 || value >= 0 || |NatToString(-value)| >= scale)
  {
    var s := IntToString(value);
    if scale == 0 || value >= 0 {
      if scale > 0 {
        assert s[0] != '-' by { assert IsDigit(NatToString(value)[0]); }
      }
    } else {
      var n := NatToString(-value);
      assert s == "-" + n;
      LeadingNonZeroPositive(n);
      ZeroNumeral(-value);
      assert n[0] != '0';
      if |n| >= scale {
        NegativeUnpadded(value, scale);
      } else if |n| + 1 == scale {
        AsWrittenShortByOne(value, scale, n);
      } else {
        AsWrittenPaddedSign(value, scale, n);
      }
    }
  }

  /** The integer the as-written rendering denotes: the value itself when
      the scale is 0, the value is non-negative or its digits fill the scale;
      ten times the value when a negative numeral is one digit short; none
      when it is shorter still. */
  function AsWrittenReading(value: int, scale: nat): Option<int> {
    if scale == 0 || value >= 0 || |NatToString(-value)| >= scale then Some(value)
    else if |NatToString(-value)| + 1 == scale then Some(10 * value)
    else None
  }

  /** What the code as written reads back to: the value itself when the
      scale is 0, the value is non-negative or its digits fill the scale;
      ten times the value when a negative numeral is one digit short (the
      '-' took the place of the padding zero); nothing readable when it is
      shorter still (the '-' lands inside the fraction). */
  lemma AsWrittenReadBack(value: int, scale: nat)
    ensures ParseDecimal(FormatDecimalAsWritten(value, scale), scale) == AsWrittenReading(value, scale)
  {
    if scale == 0 || value >= 0 || |NatToString(-value)| >= scale {
      AsWrittenAgreement(value, scale);
      FormatDecimalRoundTrip(value, scale);
    } else if |NatToString(-value)| + 1 == scale {
      ShortByOneReadBack(value, scale);
    } else {
      PaddedSignUnreadable(value, scale);
    }
  }

  /** A negative numeral without superfluous zeros starts with a non-zero digit. */
  lemma NegativeLeadingDigit(value: int)
    requires value < 0
    ensures NatToString(-value)[0] != '0'
  {
    var n := NatToString(-value);
    ZeroNumeral(-value);
    LeadingNonZeroPositive(n);
  }

  lemma ShortByOneReadBack(value: int, scale: nat)
    requires value < 0 && |NatToString(-value)| + 1 == scale
    ensures ParseDecimal(FormatDecimalAsWritten(value, scale), scale) == Some(10 * value)
  {
    var t, k := ShortByOneText(value, scale);
    ReadShortFraction(t, scale, k, -value);
  }

  /** As written, a negative numeral one digit short of the scale renders
      as "-0." and its digits with trailing zeros trimmed. */
  lemma ShortByOneText(value: int, scale: nat) returns (t: string, k: nat)
    requires value < 0 && |NatToString(-value)| + 1 == scale
    ensures FormatDecimalAsWritten(value, scale) == "-0." + t
    ensures t != "" && AllDigits(t) && |t| + k + 1 == scale
    ensures DigitsValue(t) * Pow10(k) == -value
  {
    var n := NatToString(-value);
    t := FracPart(n, scale);
    NegativeLeadingDigit(value);
    ShortByOneAsWritten(value, scale, n);
    ShortFractionValue(value, scale);
    k := |n| - |t|;
  }

  /** "-0.<t>" at a scale one longer than `t` and its `k` trimmed zeros
      reads back as ten times minus the value `t` had with those zeros. */
  lemma ReadShortFraction(t: string, scale: nat, k: nat, m: int)
    requires t != "" && AllDigits(t) && |t| + k + 1 == scale
    requires DigitsValue(t) * Pow10(k) == m
    ensures ParseDecimal("-0." + t, scale) == Some(10 * -m)
  {
    ReadNegativeFraction(t, scale);
    TenfoldMagnitude(DigitsValue(t), k, m);
  }

  /** The fraction of a numeral shorter than the scale is the numeral with
      its trailing zeros removed. */
  lemma ShortFractionValue(value: int, scale: nat)
    requires value < 0 && |NatToString(-value)| + 1 == scale
    ensures var n := NatToString(-value);
            var t := FracPart(n, scale);
            && t != "" && AllDigits(t) && |t| <= |n|
            && DigitsValue(t) * Pow10(|n| - |t|) == -value
  {
    var m: nat := -value;
    var n := NatToString(m);
    var t := FracPart(n, scale);
    assert t != "" by {
      NegativeLeadingDigit(value);
      FracKeepsLeadingDigit(n, scale);
    }
    assert t == TrimEnd(n, '0') by {
      assert TakeLast(n, scale) == n;
    }
    assert DigitsValue(n) == m by {
      NatToStringValue(m);
    }
    TrimmedValue(n, t);
  }

  /** "-0.<t>" reads back as minus the value of `t` scaled to the scale. */
  lemma ReadNegativeFraction(t: string, scale: nat)
    requires t != "" && AllDigits(t) && |t| <= scale
    ensures ParseDecimal("-0." + t, scale) == Some(-(DigitsValue(t) * Pow10(scale - |t|)))
  {
    SplitDecimalOf("-", "0", t);
    assert "-0." + t == "-" + "0" + ("." + t);
    assert DigitsValue("0") == 0;
  }

  /** Trailing zeros trimmed from a digit string scale its value down. */
  lemma TrimmedValue(n: string, t: string)
    requires AllDigits(n) && t == TrimEnd(n, '0')
    ensures AllDigits(t)
    ensures DigitsValue(n) == DigitsValue(t) * Pow10(|n| - |t|)
  {
    var zeros := TrimmedTail(n, t);
    PrefixDigits(n, |t|);
    ZerosValue(|zeros|);
    DigitsValueAppend(t, zeros);
  }

  /** A string is its trimmed form followed by the zeros trimmed off. */
  lemma TrimmedTail(n: string, t: string) returns (zeros: string)
    requires t == TrimEnd(n, '0')
    ensures zeros == Repeat('0', |n| - |t|) && n == t + zeros && t == n[..|t|]
  {
    zeros := Repeat('0', |n| - |t|);
    assert forall i :: 0 <= i < |n| ==> n[i] == (t + zeros)[i];
  }

  lemma TenfoldMagnitude(d: nat, k: nat, m: int)
    requires d * Pow10(k) == m
    ensures -(d * Pow10(k + 1)) == 10 * -m
  {
    var p := Pow10(k);
    assert Pow10(k + 1) == 10 * p;
    assert d * (10 * p) == 10 * (d * p);
  }

  lemma PaddedSignUnreadable(value: int, scale: nat)
    requires value < 0 && |NatToString(-value)| + 1 < scale
    ensures ParseDecimal(FormatDecimalAsWritten(value, scale), scale) == None
  {
    var frac := PaddedSignText(value, scale);
    UnreadableFraction(frac, scale);
  }

  /** As written, a negative numeral two or more digits short of the scale
      renders as "0." and a fraction that still holds the '-'. */
  lemma PaddedSignText(value: int, scale: nat) returns (frac: string)
    requires value < 0 && |NatToString(-value)| + 1 < scale
    ensures FormatDecimalAsWritten(value, scale) == "0" + "." + frac
    ensures frac != "" && !AllDigits(frac)
  {
    var padded, p := PaddedNumeral(value, scale);
    frac := TrimEnd(padded, '0');
    FractionKeepsSign(padded, p, scale);
  }

  /** The padded numeral: zeros, then the '-' at `p`, then a non-zero digit. */
  lemma PaddedNumeral(value: int, scale: nat) returns (padded: string, p: nat)
    requires value < 0 && |NatToString(-value)| + 1 < scale
    ensures FormatDecimalAsWritten(value, scale) == Assemble("", padded, scale)
    ensures |padded| == scale && p + 1 < scale
    ensures padded[0] == '0' && padded[p] == '-' && padded[p + 1] != '0'
  {
    var n := NatToString(-value);
    NegativeLeadingDigit(value);
    var s := IntToString(value);
    assert s == "-" + n;
    p := scale - |s|;
    padded := PadStart(s, scale, '0');
    assert padded == Repeat('0', p) + s;
    assert padded[p] == '-' && padded[p + 1] == n[0] && padded[0] == '0';
  }

  lemma FractionKeepsSign(padded: string, p: nat, scale: nat)
    requires |padded| == scale && p + 1 < scale
    requires padded[0] == '0' && padded[p] == '-' && padded[p + 1] != '0'
    ensures Assemble("", padded, scale) == "0" + "." + TrimEnd(padded, '0')
    ensures TrimEnd(padded, '0') != "" && !AllDigits(TrimEnd(padded, '0'))
  {
    assert DropLast(padded, scale) == "" && TakeLast(padded, scale) == padded;
    var frac := TrimEnd(padded, '0');
    assert |frac| > p + 1;
    assert frac[p] == '-';
  }

  /** A fraction holding a non-digit makes the text unreadable. */
  lemma UnreadableFraction(frac: string, scale: nat)
    requires frac != "" && !AllDigits(frac)
    ensures ParseDecimal("0" + "." + frac, scale) == None
  {
    var r := "0" + "." + frac;
    assert r == "0" + ['.'] + frac;
    IndexOfPrefix("0", '.', frac);
    assert r[1..] == "." + frac;
    assert SplitDecimal(r) == DecimalText(false, "0", true, frac);
  }

  lemma AsWrittenShortByOne(value: int, scale: nat, n: string)
    requires value < 0 && n == NatToString(-value) && |n| + 1 == scale
    requires n[0] != '0'
    ensures FormatDecimalAsWritten(value, scale) != FormatDecimal(value, scale)
  {
    var t := FracPart(n, scale);
    var f := FracPart("0" + n, scale);
    ShortByOneAsWritten(value, scale, n);
    ShortByOneIntended(value, scale, n);
    FracKeepsLeadingDigit(n, scale);
    FracOfPaddedStartsWithZero(n, scale);
    DifferentFirstAfter("-0.", t, f);
  }

  lemma DifferentFirstAfter(p: string, t: string, f: string)
    requires t != "" && f != "" && t[0] != f[0]
    ensures p + t != p + f
  {
    assert (p + t)[|p|] == t[0] && (p + f)[|p|] == f[0];
  }

  /** A negative numeral already as long as the scale is not padded, and
      its '-' is split off as intended. */
  lemma NegativeUnpadded(value: int, scale: nat)
    requires value < 0 && scale > 0 && |NatToString(-value)| + 1 >= scale
    ensures FormatDecimalAsWritten(value, scale) == Assemble("-", NatToString(-value), scale)
  {
    var s := IntToString(value);
    assert s == "-" + NatToString(-value);
    assert PadStart(s, scale, '0') == s;
    assert s[1..] == NatToString(-value);
  }

  lemma ShortByOneAsWritten(value: int, scale: nat, n: string)
    requires value < 0 && n == NatToString(-value) && |n| + 1 == scale
    requires n[0] != '0'
    ensures FormatDecimalAsWritten(value, scale) == "-0." + FracPart(n, scale)
  {
    NegativeUnpadded(value, scale);
    FracKeepsLeadingDigit(n, scale);
    AssembleShort("-", n, scale);
  }

  lemma ShortByOneIntended(value: int, scale: nat, n: string)
    requires value < 0 && n == NatToString(-value) && |n| + 1 == scale
    requires n[0] != '0'
    ensures FormatDecimal(value, scale) == "-0." + FracPart("0" + n, scale)
  {
    var d := PadStart(n, scale, '0');
    assert Repeat('0', 1) == "0";
    assert d == "0" + n;
    FracOfPaddedStartsWithZero(n, scale);
    assert FormatDecimal(value, scale) == Assemble("-", d, scale);
    AssembleShort("-", d, scale);
  }

  /** Digits no longer than the scale leave a whole part of "0". */
  lemma AssembleShort(sign: string, d: string, scale: nat)
    requires 0 < scale && |d| <= scale && FracPart(d, scale) != ""
    ensures Assemble(sign, d, scale) == sign + "0." + FracPart(d, scale)
  {
    assert DropLast(d, scale) == "";
  }

  lemma FracKeepsLeadingDigit(n: string, scale: nat)
    requires |n| > 0 && n[0] != '0' && |n| < scale
    ensures FracPart(n, scale) != "" && FracPart(n, scale)[0] == n[0]
  {
    assert TakeLast(n, scale) == n;
  }

  lemma FracOfPaddedStartsWithZero(n: string, scale: nat)
    requires |n| > 0 && n[0] != '0' && |n| + 1 == scale
    ensures FracPart("0" + n, scale) != "" && FracPart("0" + n, scale)[0] == '0'
  {
    var d := "0" + n;
    assert TakeLast(d, scale) == d;
    var f := TrimEnd(d, '0');
    assert d[1] == n[0];
  }

  lemma AsWrittenPaddedSign(value: int, scale: nat, n: string)
    requires value < 0 && n == NatToString(-value) && |n| + 1 < scale
    ensures FormatDecimalAsWritten(value, scale) != FormatDecimal(value, scale)
  {
    var s := IntToString(value);
    var padded := PadStart(s, scale, '0');
    assert padded == Repeat('0', scale - |s|) + s;
    assert padded[0] == '0';
    assert FormatDecimalAsWritten(value, scale) == Assemble("", padded, scale);
    assert FormatDecimalAsWritten(value, scale)[0] == '0';
    assert FormatDecimal(value, scale)[0] == '-';
  }

  /** Two concrete inputs on which the code as written goes wrong: -5 at
      scale 3 renders as "0.0-5", and -12 at scale 3 as "-0.12", which reads
      back as -120 thousandths rather than -12. */
  lemma AsWrittenCounterexamples()
    ensures FormatDecimalAsWritten(-5, 3) == "0.0-5"
    ensures FormatDecimal(-5, 3) == "-0.005"
    ensures FormatDecimalAsWritten(-12, 3) == "-0.12"
    ensures ParseDecimal(FormatDecimalAsWritten(-12, 3), 3) == Some(-120)
    ensures FormatDecimal(-12, 3) == "-0.012"
  {
    MinusFive();
    MinusTwelve();
    MinusTwelveReadBack();
  }

  lemma MinusFive()
    ensures FormatDecimalAsWritten(-5, 3) == "0.0-5"
    ensures FormatDecimal(-5, 3) == "-0.005"
  {
    MinusFiveAsWritten();
    MinusFiveIntended();
  }

  lemma MinusFiveAsWritten()
    ensures FormatDecimalAsWritten(-5, 3) == "0.0-5"
  {
    assert NatToString(5) == "5";
    assert IntToString(-5) == "-5";
    assert PadStart("-5", 3, '0') == "0-5";
    assert TrimEnd("0-5", '0') == "0-5";
    assert Assemble("", "0-5", 3) == "0.0-5";
  }

  lemma MinusFiveIntended()
    ensures FormatDecimal(-5, 3) == "-0.005"
  {
    assert NatToString(5) == "5";
    assert PadStart("5", 3, '0') == "005";
    assert TrimEnd("005", '0') == "005";
    assert Assemble("-", "005", 3) == "-0.005";
  }

  lemma MinusTwelve()
    ensures FormatDecimalAsWritten(-12, 3) == "-0.12"
    ensures FormatDecimal(-12, 3) == "-0.012"
  {
    MinusTwelveAsWritten();
    MinusTwelveIntended();
  }

  lemma TwelveNumeral()
    ensures NatToString(12) == "12"
  {
    assert NatToString(1) == "1";
    assert NatToString(12) == NatToString(1) + "2";
  }

  lemma MinusTwelveAsWritten()
    ensures FormatDecimalAsWritten(-12, 3) == "-0.12"
  {
    TwelveNumeral();
    assert IntToString(-12) == "-12";
    assert PadStart("-12", 3, '0') == "-12";
    assert TrimEnd("12", '0') == "12";
    assert Assemble("-", "12", 3) == "-0.12";
  }

  lemma MinusTwelveIntended()
    ensures FormatDecimal(-12, 3) == "-0.012"
  {
    TwelveNumeral();
    assert PadStart("12", 3, '0') == "012";
    assert TrimEnd("012", '0') == "012";
    assert Assemble("-", "012", 3) == "-0.012";
  }

  lemma MinusTwelveReadBack()
    ensures ParseDecimal("-0.12", 3) == Some(-120)
  {
    SplitMinusTwelve();
    TwelveValue();
    assert Pow10(1) == 10;
    assert Magnitude("0", "12", 3) == 120;
  }

  lemma SplitMinusTwelve()
    ensures SplitDecimal("-0.12") == DecimalText(true, "0", true, "12")
  {
    assert "-0.12"[1..] == "0.12";
    assert IndexOf("0.12", '.') == 1;
    assert "0.12"[..1] == "0" && "0.12"[2..] == "12";
  }

  lemma TwelveValue()
    ensures AllDigits("12") && DigitsValue("12") == 12
  {
    assert "12"[..1] == "1";
    assert DigitsValue("1") == 1;
  }

  /** 12345 at scale 3 is "12.345", 12000 at scale 3 is "12" and 0 at
      scale 0 is "0", as written and as intended alike. */
  lemma DecimalExamples()
    ensures FormatDecimalAsWritten(12345, 3) == FormatDecimal(12345, 3) == "12.345"
    ensures FormatDecimalAsWritten(12000, 3) == FormatDecimal(12000, 3) == "12"
    ensures FormatDecimalAsWritten(0, 0) == FormatDecimal(0, 0) == "0"
  {
    FractionExample();
    TrimmedExample();
    assert NatToString(0) == "0";
    AsWrittenAgreement(12345, 3);
    AsWrittenAgreement(12000, 3);
    AsWrittenAgreement(0, 0);
  }

  lemma FractionExample()
    ensures FormatDecimal(12345, 3) == "12.345"
  {
    Numeral12345();
    assert TakeLast("12345", 3) == "345";
    assert TrimEnd("345", '0') == "345";
    assert DropLast("12345", 3) == "12";
    assert Assemble("", "12345", 3) == "12" + "." + "345";
  }

  lemma TrimmedExample()
    ensures FormatDecimal(12000, 3) == "12"
  {
    Numeral12000();
    assert TakeLast("12000", 3) == "000";
    assert TrimEnd("000", '0') == "";
    assert DropLast("12000", 3) == "12";
    assert Assemble("", "12000", 3) == "12";
  }

  lemma Numeral12345()
    ensures NatToString(12345) == "12345"
  {
    assert NatToString(1) == "1";
    assert NatToString(12) == "12";
    assert NatToString(123) == "123";
    assert NatToString(1234) == "1234";
  }

  lemma Numeral12000()
    ensures NatToString(12000) == "12000"
  {
    assert NatToString(1) == "1";
    assert NatToString(12) == "12";
    assert NatToString(120) == "120";
    assert NatToString(1200) == "1200";
  }
}
