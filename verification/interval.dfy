/** Interval texts (packages/duckdb-wasm/src/format.ts, `parseInterval` and
    the `pandas.interval` branch of `formatInterval`). */
module Interval {
  import opened Outcomes
  import opened Text

  /** `arr[i]`: `None` stands for `undefined` past the end of the array. */
  function Element(arr: seq<int>, i: nat): Option<int> {
    if i < |arr| then Some(arr[i]) else None
  }

  /** `unit` with an 's' exactly when the count is greater than 1. */
  function Noun(unit: string, count: Option<int>): string {
    if count.Some? && count.value > 1 then unit + "s" else unit
  }

  /** `${count} ${unit}` with the plural rule, or nothing for a zero count
      (`undefined !== 0`, so a missing count prints as "undefined"). */
  function Component(count: Option<int>, unit: string): seq<string> {
    if count == Some(0) then []
    else [(if count.Some? then IntToString(count.value) else "undefined") + " " + Noun(unit, count)]
  }

  /** `parseInterval(arr)`: years are `arr[0]` and months `arr[1]`; the non-zero
      components joined by a space, or "0 months" when both are zero. */
  function ParseInterval(arr: seq<int>): string {
    var parts := Component(Element(arr, 0), "year") + Component(Element(arr, 1), "month");
    if |parts| > 0 then Join(parts, " ") else "0 months"
  }

  /** Reads a phrase of the shape `ParseInterval` produces back into
      (years, months), accepting only the singular/plural forms the counts call for. */
  function ReadIntervalPhrase(s: string): Option<(int, int)> {
    ReadPhraseWords(Split(s, ' '))
  }

  /** The reading of the space-separated words of a phrase. */
  function ReadPhraseWords(ws: seq<string>): Option<(int, int)> {
    if |ws| == 2 then
      match ParseInt(ws[0])
      case None => None
      case Some(n) =>
        if n == 0 then (if ws[1] == "months" then Some((0, 0)) else None)
        else if ws[1] == Noun("year", Some(n)) then Some((n, 0))
        else if ws[1] == Noun("month", Some(n)) then Some((0, n))
        else None
    else if |ws| == 4 then
      match (ParseInt(ws[0]), ParseInt(ws[2]))
      case (Some(y), Some(m)) =>
        if y != 0 && m != 0 && ws[1] == Noun("year", Some(y)) && ws[3] == Noun("month", Some(m))
        then Some((y, m)) else None
      case _ => None
    else None
  }

  lemma NounNoSpace(unit: string, count: Option<int>)
    requires ' ' !in unit
    ensures ' ' !in Noun(unit, count)
  {
  }

  /** The words of one component: the count and the noun. */
  lemma ComponentWords(n: int, unit: string, rest: string)
    requires ' ' !in unit
    ensures Split(IntToString(n) + " " + Noun(unit, Some(n)) + rest, ' ')
            == [IntToString(n)] + Split(Noun(unit, Some(n)) + rest, ' ')
  {
    IntToStringNoSpace(n);
    assert IntToString(n) + " " + Noun(unit, Some(n)) + rest
        == IntToString(n) + [' '] + (Noun(unit, Some(n)) + rest);
    SplitFirst(IntToString(n), ' ', Noun(unit, Some(n)) + rest);
  }

  /** The words of the phrase for a complete (years, months) pair: each
      non-zero component contributes its count and a noun that is plural
      exactly when the count exceeds 1; two zeros give "0 months". */
  lemma {:induction false} IntervalPhraseWords(years: int, months: int)
    ensures var ws := Split(ParseInterval([years, months]), ' ');
            && (years == 0 && months == 0 ==> ws == ["0", "months"])
            && (years != 0 && months == 0 ==> ws == [IntToString(years), if years > 1 then "years" else "year"])
            && (years == 0 && months != 0 ==> ws == [IntToString(months), if months > 1 then "months" else "month"])
            && (years != 0 && months != 0 ==>
                  ws == [IntToString(years), if years > 1 then "years" else "year",
                         IntToString(months), if months > 1 then "months" else "month"])
  {
    if years == 0 && months == 0 {
      ZeroWords();
    } else if months == 0 {
      YearsOnlyWords(years);
      assert Noun("year", Some(years)) == if years > 1 then "years" else "year";
    } else if years == 0 {
      MonthsOnlyWords(months);
      assert Noun("month", Some(months)) == if months > 1 then "months" else "month";
    } else {
      BothWords(years, months);
      assert Noun("year", Some(years)) == if years > 1 then "years" else "year";
      assert Noun("month", Some(months)) == if months > 1 then "months" else "month";
    }
  }

  lemma ZeroWords()
    ensures Split(ParseInterval([0, 0]), ' ') == ["0", "months"]
  {
    assert Component(Element([0, 0], 0), "year") == [];
    assert Component(Element([0, 0], 1), "month") == [];
    assert ParseInterval([0, 0]) == "0 months";
    NoSpaceInZeroMonths();
    SplitTwoWords("0", "months");
    assert "0" + [' '] + "months" == "0 months";
  }

  lemma NoSpaceInZeroMonths()
    ensures ' ' !in "0" && ' ' !in "months"
  {
    var m := "months";
    assert forall i :: 0 <= i < |m| ==> m[i] != ' ';
  }

  lemma YearsOnlyWords(years: int)
    requires years != 0
    ensures Split(ParseInterval([years, 0]), ' ') == [IntToString(years), Noun("year", Some(years))]
  {
    PhraseOfPair(years, 0);
    SingleComponentWords(years, "year");
  }

  lemma MonthsOnlyWords(months: int)
    requires months != 0
    ensures Split(ParseInterval([0, months]), ' ') == [IntToString(months), Noun("month", Some(months))]
  {
    PhraseOfPair(0, months);
    SingleComponentWords(months, "month");
  }

  lemma BothWords(years: int, months: int)
    requires years != 0 && months != 0
    ensures Split(ParseInterval([years, months]), ' ')
            == [IntToString(years), Noun("year", Some(years)), IntToString(months), Noun("month", Some(months))]
  {
    PhraseOfPair(years, months);
    TwoComponentWords(years, months);
  }

  /** The phrase for a complete pair, spelled out case by case. */
  lemma PhraseOfPair(years: int, months: int)
    ensures var y := IntToString(years) + " " + Noun("year", Some(years));
            var m := IntToString(months) + " " + Noun("month", Some(months));
            ParseInterval([years, months])
            == if years == 0 && months == 0 then "0 months"
               else if months == 0 then y
               else if years == 0 then m
               else y + " " + m
  {
    assert Element([years, months], 0) == Some(years) && Element([years, months], 1) == Some(months);
    var parts := Component(Some(years), "year") + Component(Some(months), "month");
    if years != 0 && months != 0 {
      assert Join(parts, " ") == parts[0] + " " + Join(parts[1..], " ");
    }
  }

  lemma SingleComponentWords(n: int, unit: string)
    requires n != 0 && ' ' !in unit
    ensures Split(IntToString(n) + " " + Noun(unit, Some(n)), ' ') == [IntToString(n), Noun(unit, Some(n))]
  {
    var noun := Noun(unit, Some(n));
    NounNoSpace(unit, Some(n));
    ComponentWords(n, unit, "");
    assert IntToString(n) + " " + noun + "" == IntToString(n) + " " + noun;
    assert noun + "" == noun;
    SplitNoSeparator(noun, ' ');
  }

  lemma TwoComponentWords(years: int, months: int)
    requires years != 0 && months != 0
    ensures var yn, mn := Noun("year", Some(years)), Noun("month", Some(months));
            var ys, ms := IntToString(years), IntToString(months);
            Split(ys + " " + yn + " " + (ms + " " + mn), ' ') == [ys, yn, ms, mn]
  {
    IntToStringNoSpace(years);
    IntToStringNoSpace(months);
    NounNoSpace("year", Some(years));
    NounNoSpace("month", Some(months));
    var yn, mn := Noun("year", Some(years)), Noun("month", Some(months));
    var ys, ms := IntToString(years), IntToString(months);
    SplitFourWords(ys, yn, ms, mn);
    SpacedWords(ys, yn, ms, mn);
  }

  /** The phrase determines the pair it was made from: reading it back gives
      the years and months again. */
  lemma IntervalRoundTrip(years: int, months: int)
    ensures ReadIntervalPhrase(ParseInterval([years, months])) == Some((years, months))
  {
    var ws := Split(ParseInterval([years, months]), ' ');
    assert ReadIntervalPhrase(ParseInterval([years, months])) == ReadPhraseWords(ws);
    if years == 0 && months == 0 {
      ZeroWords();
      assert ParseInt("0") == Some(0) by { ParseIntRoundTrip(0); }
    } else if months == 0 {
      YearsOnlyWords(years);
      ReadOneComponent(years, "year");
    } else if years == 0 {
      MonthsOnlyWords(months);
      ReadOneComponent(months, "month");
    } else {
      BothWords(years, months);
      ReadTwoComponents(years, months);
    }
  }

  lemma ReadOneComponent(n: int, unit: string)
    requires n != 0 && unit in {"year", "month"}
    ensures ReadPhraseWords([IntToString(n), Noun(unit, Some(n))])
            == if unit == "year" then Some((n, 0)) else Some((0, n))
  {
    ParseIntRoundTrip(n);
  }

  lemma ReadTwoComponents(years: int, months: int)
    requires years != 0 && months != 0
    ensures ReadPhraseWords([IntToString(years), Noun("year", Some(years)),
                             IntToString(months), Noun("month", Some(months))]) == Some((years, months))
  {
    ParseIntRoundTrip(years);
    ParseIntRoundTrip(months);
  }

  /** "0 months" is produced for the all-zero pair and for no other. */
  lemma ZeroIntervalOnly(years: int, months: int)
    ensures ParseInterval([years, months]) == "0 months" <==> years == 0 && months == 0
  {
    IntervalRoundTrip(years, months);
    if ParseInterval([years, months]) == "0 months" {
      IntervalRoundTrip(0, 0);
    }
  }

  // pandas.Interval

  /** `[` when the left bound is closed (`closed` is "both" or "left"), else `(`. */
  function LeftBracket(closed: Option<string>): char {
    if closed == Some("both") || closed == Some("left") then '[' else '('
  }

  /** `]` when the right bound is closed (`closed` is "both" or "right"), else `)`. */
  function RightBracket(closed: Option<string>): char {
    if closed == Some("both") || closed == Some("right") then ']' else ')'
  }

  /** The text of a pandas interval whose bounds were already rendered. */
  function PandasIntervalText(closed: Option<string>, left: string, right: string): (r: string)
    ensures |r| == |left| + |right| + 4
    ensures r[0] == '[' <==> closed in {Some("both"), Some("left")}
    ensures r[0] == '(' <==> !(closed in {Some("both"), Some("left")})
    ensures r[|r| - 1] == ']' <==> closed in {Some("both"), Some("right")}
    ensures r[|r| - 1] == ')' <==> !(closed in {Some("both"), Some("right")})
    ensures r[1..|r| - 1] == left + ", " + right
  {
    [LeftBracket(closed)] + left + ", " + right + [RightBracket(closed)]
  }
}
