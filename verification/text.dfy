/** Decimal digit strings and the few JavaScript string operations the
    formatter relies on (`String(bigint)`, `split`, `padStart`, `slice` with
    negative indices, `trimEnd`, `Array.prototype.join`). */
module Text {
  import opened Outcomes

  predicate IsDigit(c: char) {
    '0' <= c <= '9'
  }

  predicate AllDigits(s: string) {
    forall i :: 0 <= i < |s| ==> IsDigit(s[i])
  }

  /** A non-empty digit string without superfluous leading zeros. */
  predicate Canonical(s: string) {
    |s| > 0 && AllDigits(s) && (s[0] == '0' ==> |s| == 1)
  }

  function DigitChar(d: nat): char
    requires d < 10
  {
    "0123456789"[d]
  }

  function DigitValue(c: char): nat
    requires IsDigit(c)
  {
    (c - '0') as nat
  }

  function Pow10(n: nat): (p: nat)
    ensures p >= 1
  {
    if n == 0 then 1 else 10 * Pow10(n - 1)
  }

  /** The number a digit string denotes (the empty string denotes 0). */
  function DigitsValue(s: string): nat
    requires AllDigits(s)
  {
    if s == [] then 0 else 10 * DigitsValue(s[..|s| - 1]) + DigitValue(s[|s| - 1])
  }

  /** The shortest decimal numeral of `n`. */
  function NatToString(n: nat): (s: string)
    ensures Canonical(s)
  {
    if n < 10 then [DigitChar(n)] else NatToString(n / 10) + [DigitChar(n % 10)]
  }

  /** JavaScript `String(n)` for a big integer (and for an integral number below 1e21). */
  function IntToString(i: int): string {
    if i < 0 then "-" + NatToString(-i) else NatToString(i)
  }

  /** Reads back exactly the strings `IntToString` produces. */
  function ParseInt(s: string): Option<int> {
    if |s| > 0 && s[0] == '-' then
      if Canonical(s[1..]) && s[1..] != "0" then Some(0 - DigitsValue(s[1..]) as int) else None
    else if Canonical(s) then Some(DigitsValue(s))
    else None
  }

  lemma {:induction false} NatToStringValue(n: nat)
    ensures DigitsValue(NatToString(n)) == n
  {
    if n >= 10 {
      var s := NatToString(n);
      assert s[..|s| - 1] == NatToString(n / 10);
      NatToStringValue(n / 10);
    }
  }

  lemma {:induction false} LeadingNonZeroPositive(s: string)
    requires |s| > 0 && AllDigits(s) && s[0] != '0'
    ensures DigitsValue(s) > 0
  {
    if |s| > 1 {
      LeadingNonZeroPositive(s[..|s| - 1]);
    }
  }

  /** Every canonical digit string is the numeral of its value. */
  lemma {:induction false} CanonicalIsNumeral(s: string)
    requires Canonical(s)
    ensures NatToString(DigitsValue(s)) == s
  {
    var c := s[|s| - 1];
    DigitCharOf(c);
    if |s| > 1 {
      var p := s[..|s| - 1];
      assert p[0] == s[0];
      LeadingNonZeroPositive(p);
      CanonicalIsNumeral(p);
      var v := DigitsValue(s);
      LastDigit(DigitsValue(p), DigitValue(c));
      assert NatToString(v) == NatToString(DigitsValue(p)) + [DigitChar(DigitValue(c))];
      assert s == p + [c];
    }
  }

  lemma DigitCharOf(c: char)
    requires IsDigit(c)
    ensures DigitChar(DigitValue(c)) == c
  {
  }

  /** Appending digit `d` to `a` and dividing by ten gives back `a` and `d`. */
  lemma LastDigit(a: nat, d: nat)
    requires d < 10
    ensures (10 * a + d) / 10 == a && (10 * a + d) % 10 == d
  {
  }

  lemma ZeroNumeral(n: nat)
    ensures NatToString(n) == "0" <==> n == 0
  {
    if NatToString(n) == "0" {
      NatToStringValue(n);
    }
  }

  /** `ParseInt` inverts `IntToString` on every integer ... */
  lemma ParseIntRoundTrip(i: int)
    ensures ParseInt(IntToString(i)) == Some(i)
  {
    if i < 0 {
      ParseNegative(i);
    } else {
      ParseNonNegative(i);
    }
  }

  lemma ParseNegative(i: int)
    requires i < 0
    ensures ParseInt(IntToString(i)) == Some(i)
  {
    var m: nat := -i;
    var n := NatToString(m);
    assert IntToString(i) == "-" + n;
    NatToStringValue(m);
    ZeroNumeral(m);
    ParseMinus(n);
  }

  lemma ParseMinus(t: string)
    requires Canonical(t) && t != "0"
    ensures ParseInt("-" + t) == Some(0 - DigitsValue(t) as int)
  {
    var s := "-" + t;
    assert s[0] == '-' && s[1..] == t;
  }

  lemma ParseNonNegative(i: nat)
    ensures ParseInt(IntToString(i)) == Some(i)
  {
    var n := NatToString(i);
    NatToStringValue(i);
    assert n[0] != '-' by { assert IsDigit(n[0]); }
    assert ParseInt(n) == Some(DigitsValue(n));
  }

  /** ... and accepts nothing else, so the two are a bijection. */
  lemma ParseIntOnlyNumerals(s: string, i: int)
    requires ParseInt(s) == Some(i)
    ensures IntToString(i) == s
  {
    if |s| > 0 && s[0] == '-' {
      var t := s[1..];
      assert Canonical(t) && t != "0" && i == 0 - DigitsValue(t) as int;
      CanonicalIsNumeral(t);
      LeadingNonZeroPositive(t);
      assert IntToString(i) == "-" + NatToString(DigitsValue(t));
      assert s == "-" + t;
    } else {
      assert Canonical(s) && i == DigitsValue(s);
      CanonicalIsNumeral(s);
    }
  }

  lemma IntToStringNoSpace(i: int)
    ensures ' ' !in IntToString(i) && IntToString(i) != ""
  {
    var s := IntToString(i);
    if i < 0 {
      assert s == "-" + NatToString(-i);
      assert forall k :: 1 <= k < |s| ==> s[k] == NatToString(-i)[k - 1];
    }
  }

  /** First index of `c` in `s`, or `|s|` when `c` does not occur. */
  function IndexOf(s: string, c: char): (i: nat)
    ensures i <= |s|
    ensures i < |s| ==> s[i] == c
    ensures forall j :: 0 <= j < i ==> s[j] != c
  {
    if s == [] then 0
    else if s[0] == c then 0
    else 1 + IndexOf(s[1..], c)
  }

  /** Nothing before the first occurrence is `c`, and there is none exactly
      when the index is the length. */
  lemma IndexOfFree(s: string, c: char)
    ensures c !in s[..IndexOf(s, c)]
    ensures IndexOf(s, c) == |s| <==> c !in s
  {
    var i := IndexOf(s, c);
    assert forall k :: 0 <= k < i ==> s[..i][k] == s[k];
  }

  lemma IndexOfPrefix(a: string, c: char, b: string)
    requires c !in a
    ensures IndexOf(a + [c] + b, c) == |a|
  {
    var s := a + [c] + b;
    assert forall j :: 0 <= j < |a| ==> s[j] == a[j];
    assert s[|a|] == c;
  }

  /** JavaScript `s.split(sep)` for a one-character separator: every piece,
      including empty ones; never an empty list. */
  function Split(s: string, sep: char): (parts: seq<string>)
    ensures |parts| >= 1
    decreases |s|
  {
    var i := IndexOf(s, sep);
    if i == |s| then [s] else [s[..i]] + Split(s[i + 1..], sep)
  }

  lemma SplitNoSeparator(a: string, sep: char)
    requires sep !in a
    ensures Split(a, sep) == [a]
  {
    assert IndexOf(a, sep) == |a|;
  }

  lemma SplitFirst(a: string, sep: char, b: string)
    requires sep !in a
    ensures Split(a + [sep] + b, sep) == [a] + Split(b, sep)
  {
    var s := a + [sep] + b;
    IndexOfPrefix(a, sep, b);
    assert s[..|a|] == a;
    assert s[|a| + 1..] == b;
  }

  lemma SplitTwoWords(c: string, d: string)
    requires ' ' !in c && ' ' !in d
    ensures Split(c + [' '] + d, ' ') == [c, d]
  {
    SplitFirst(c, ' ', d);
    SplitNoSeparator(d, ' ');
  }

  lemma SpacedWords(a: string, b: string, c: string, d: string)
    ensures a + " " + b + " " + (c + " " + d) == a + [' '] + (b + [' '] + (c + [' '] + d))
  {
  }

  lemma SplitFourWords(a: string, b: string, c: string, d: string)
    requires ' ' !in a && ' ' !in b && ' ' !in c && ' ' !in d
    ensures Split(a + [' '] + (b + [' '] + (c + [' '] + d)), ' ') == [a, b, c, d]
  {
    var cd := c + [' '] + d;
    var bcd := b + [' '] + cd;
    SplitTwoWords(c, d);
    SplitFirst(b, ' ', cd);
    SplitFirst(a, ' ', bcd);
  }

  /** A prefix reaching past index `i` is the part before `i`, the character
      at `i` and the first characters after it. */
  lemma SliceAround(s: string, i: nat, j: nat)
    requires i + 1 + j <= |s|
    ensures s[..i + 1 + j] == s[..i] + [s[i]] + s[i + 1..][..j]
  {
  }

  /** `parts.join(sep)`. */
  function Join(parts: seq<string>, sep: string): string {
    if parts == [] then ""
    else if |parts| == 1 then parts[0]
    else parts[0] + sep + Join(parts[1..], sep)
  }

  function Repeat(c: char, n: nat): (s: string)
    ensures |s| == n
    ensures forall i :: 0 <= i < n ==> s[i] == c
  {
    if n == 0 then "" else [c] + Repeat(c, n - 1)
  }

  /** `s.padStart(width, c)`: prepend copies of `c` up to length `width`. */
  function PadStart(s: string, width: nat, c: char): string {
    if |s| >= width then s else Repeat(c, width - |s|) + s
  }

  /** `s.slice(0, -k)` for `k > 0`: all but the last `k` characters (empty when too short). */
  function DropLast(s: string, k: nat): string
    requires k > 0
  {
    if |s| <= k then "" else s[..|s| - k]
  }

  /** `s.slice(-k)` for `k > 0`: the last `k` characters (all of `s` when too short). */
  function TakeLast(s: string, k: nat): string
    requires k > 0
  {
    if |s| <= k then s else s[|s| - k..]
  }

  /** `trimEnd(s, c)`: remove every trailing `c`. */
  function TrimEnd(s: string, c: char): (t: string)
    ensures |t| <= |s| && t == s[..|t|]
    ensures t == "" || t[|t| - 1] != c
    ensures forall i :: |t| <= i < |s| ==> s[i] == c
  {
    if s == [] then ""
    else if s[|s| - 1] == c then TrimEnd(s[..|s| - 1], c)
    else s
  }

  // Arithmetic on digit strings

  lemma {:induction false} DigitsValueAppend(a: string, b: string)
    requires AllDigits(a) && AllDigits(b)
    ensures AllDigits(a + b)
    ensures DigitsValue(a + b) == DigitsValue(a) * Pow10(|b|) + DigitsValue(b)
    decreases |b|
  {
    var s := a + b;
    if b == [] {
      assert s == a;
    } else {
      var b' := b[..|b| - 1];
      assert s[..|s| - 1] == a + b';
      DigitsValueAppend(a, b');
      assert s[|s| - 1] == b[|b| - 1];
      assert DigitsValue(b) == 10 * DigitsValue(b') + DigitValue(b[|b| - 1]);
      ShiftDigit(DigitsValue(a), Pow10(|b'|), DigitsValue(b'), DigitValue(b[|b| - 1]));
    }
  }

  lemma ShiftDigit(x: int, p: int, y: int, d: int)
    ensures 10 * (x * p + y) + d == x * (10 * p) + (10 * y + d)
  {
  }

  lemma {:induction false} ZerosValue(n: nat)
    ensures AllDigits(Repeat('0', n)) && DigitsValue(Repeat('0', n)) == 0
  {
    if n > 0 {
      var z := Repeat('0', n);
      assert z[..n - 1] == Repeat('0', n - 1);
      ZerosValue(n - 1);
    }
  }

  lemma PadStartValue(s: string, width: nat)
    requires AllDigits(s)
    ensures AllDigits(PadStart(s, width, '0'))
    ensures |PadStart(s, width, '0')| >= width && |PadStart(s, width, '0')| >= |s|
    ensures DigitsValue(PadStart(s, width, '0')) == DigitsValue(s)
  {
    if |s| < width {
      ZerosValue(width - |s|);
      DigitsValueAppend(Repeat('0', width - |s|), s);
    }
  }

  lemma SplitValue(s: string, k: nat)
    requires AllDigits(s) && k <= |s|
    ensures AllDigits(s[..k]) && AllDigits(s[k..])
    ensures DigitsValue(s) == DigitsValue(s[..k]) * Pow10(|s| - k) + DigitsValue(s[k..])
  {
    assert s == s[..k] + s[k..];
    DigitsValueAppend(s[..k], s[k..]);
  }

  lemma PrefixDigits(s: string, k: nat)
    requires AllDigits(s) && k <= |s|
    ensures AllDigits(s[..k]) && AllDigits(s[k..])
  {
  }
}
