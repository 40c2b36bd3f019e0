/** filter_datetime on a date written out on its own with two-digit fields:
    what it reads back, and where the loop as written raises instead of
    returning None; and on text that cannot hold a date. */
module DateTimeProperties {
  import opened Wrappers
  import opened Text
  import opened Numeric
  import opened Calendar
  import opened DateTimes

  function Digit(n: nat): (c: char)
    requires n < 10
    ensures IsDigit(c) && DigitValue(c) == n
  {
    ('0' as int + n) as char
  }

  /** A date as "DD.MM.YYYY", each field padded with zeros. */
  function RenderedDate(year: nat, month: nat, day: nat): (s: string)
    requires year < 10000 && month < 100 && day < 100
    ensures |s| == 10
  {
    [Digit(day / 10), Digit(day % 10), '.', Digit(month / 10), Digit(month % 10), '.',
     Digit(year / 10 / 10 / 10), Digit(year / 10 / 10 % 10), Digit(year / 10 % 10), Digit(year % 10)]
  }

  lemma TwoDigitsValue(t: string, i: nat, n: nat)
    requires n < 100 && i + 2 <= |t| && t[i] == Digit(n / 10) && t[i + 1] == Digit(n % 10)
    ensures AllDigits(t[i..i + 2]) && DigitsValue(t[i..i + 2]) == n
  {
    var s := t[i..i + 2];
    assert s[..1] == [t[i]] && s == s[..1] + [t[i + 1]];
    DigitsValueAppend([], t[i]);
    DigitsValueAppend(s[..1], t[i + 1]);
  }

  lemma FourDigitsValue(t: string, i: nat, n: nat)
    requires n < 10000 && i + 4 <= |t|
    requires t[i] == Digit(n / 10 / 10 / 10) && t[i + 1] == Digit(n / 10 / 10 % 10)
    requires t[i + 2] == Digit(n / 10 % 10) && t[i + 3] == Digit(n % 10)
    ensures AllDigits(t[i..i + 4]) && DigitsValue(t[i..i + 4]) == n
  {
    var s := t[i..i + 4];
    TwoDigitsValue(t, i, n / 10 / 10);
    assert s[..2] == t[i..i + 2] && s[..3] == s[..2] + [t[i + 2]] && s == s[..3] + [t[i + 3]];
    DigitsValueAppend(s[..2], t[i + 2]);
    DigitsValueAppend(s[..3], t[i + 3]);
  }

  /** Matching a literal that is there moves on by one character. */
  lemma LiteralStep(t: string, i: nat, f: Format)
    requires i < |t| && f != [] && f[0] == Literal(t[i])
    ensures MatchElements(t, i, f) == MatchElements(t, i + 1, f[1..])
  {
  }

  /** A token reads a whole run of digits of an allowed width. */
  lemma TokenStep(t: string, i: nat, w: nat, f: Format, rest: Span)
    requires f != [] && f[0].Token? && f[0].minWidth <= w <= f[0].maxWidth
    requires i + w <= |t| && AllDigits(t[i..i + w]) && (i + w == |t| || !IsDigit(t[i + w]))
    requires MatchElements(t, i + w, f[1..]) == Some(rest)
    ensures MatchElements(t, i, f) == Some(Span(rest.end, rest.parts[f[0].field := DigitsValue(t[i..i + w])]))
  {
    forall j | i <= j < i + w ensures IsDigit(t[j]) {
      assert t[j] == t[i..i + w][j - i];
    }
    DigitRunIsUnique(t, i, i + w);
  }

  /** The characters of a rendered date inside a longer text. */
  lemma RenderedDateChars(t: string, p: nat, year: nat, month: nat, day: nat)
    requires year < 10000 && month < 100 && day < 100
    requires p + 10 <= |t| && t[p..p + 10] == RenderedDate(year, month, day)
    ensures t[p] == Digit(day / 10) && t[p + 1] == Digit(day % 10) && t[p + 2] == '.'
    ensures t[p + 3] == Digit(month / 10) && t[p + 4] == Digit(month % 10) && t[p + 5] == '.'
    ensures t[p + 6] == Digit(year / 10 / 10 / 10) && t[p + 7] == Digit(year / 10 / 10 % 10)
    ensures t[p + 8] == Digit(year / 10 % 10) && t[p + 9] == Digit(year % 10)
  {
    var r := RenderedDate(year, month, day);
    assert t[p] == r[0] && t[p + 1] == r[1] && t[p + 2] == r[2] && t[p + 3] == r[3] && t[p + 4] == r[4] by {
      assert t[p..p + 10][1] == t[p + 1] && t[p..p + 10][2] == t[p + 2];
      assert t[p..p + 10][3] == t[p + 3] && t[p..p + 10][4] == t[p + 4];
    }
    assert t[p + 5] == r[5] && t[p + 6] == r[6] && t[p + 7] == r[7] && t[p + 8] == r[8] && t[p + 9] == r[9] by {
      assert t[p..p + 10][5] == t[p + 5] && t[p..p + 10][6] == t[p + 6] && t[p..p + 10][7] == t[p + 7];
      assert t[p..p + 10][8] == t[p + 8] && t[p..p + 10][9] == t[p + 9];
    }
  }

  /** ".YYYY" after the month reads the year. */
  lemma YearTailReadsYear(t: string, p: nat, year: nat, f: Format, rest: Span)
    requires year < 10000 && p + 5 <= |t| && t[p] == '.'
    requires t[p + 1] == Digit(year / 10 / 10 / 10) && t[p + 2] == Digit(year / 10 / 10 % 10)
    requires t[p + 3] == Digit(year / 10 % 10) && t[p + 4] == Digit(year % 10)
    requires p + 5 == |t| || !IsDigit(t[p + 5])
    requires |f| >= 2 && f[0] == Dot && f[1] == YearYYYY
    requires MatchElements(t, p + 5, f[2..]) == Some(rest)
    ensures MatchElements(t, p, f) == Some(Span(rest.end, rest.parts[Year := year]))
  {
    FourDigitsValue(t, p + 1, year);
    TokenStep(t, p + 1, 4, f[1..], rest);
    LiteralStep(t, p, f);
  }

  /** Every date format reads a rendered date, whatever follows it. */
  lemma DateFormatReadsDate(t: string, p: nat, year: nat, month: nat, day: nat, k: nat, g: Format, rest: Span)
    requires year < 10000 && month < 100 && day < 100 && k < |DateFormats|
    requires p + 10 <= |t| && t[p..p + 10] == RenderedDate(year, month, day)
    requires p + 10 == |t| || !IsDigit(t[p + 10])
    requires MatchElements(t, p + 10, g) == Some(rest)
    ensures MatchElements(t, p, DateFormats[k] + g) ==
      Some(Span(rest.end, rest.parts[Year := year][Month := month][Day := day]))
  {
    RenderedDateChars(t, p, year, month, day);
    var d := DateFormats[k];
    assert && |d| == 5 && d[1] == Dot && d[3] == Dot && d[4] == YearYYYY
      && d[0].Token? && d[0].field == Day && d[0].minWidth <= 2 == d[0].maxWidth
      && d[2].Token? && d[2].field == Month && d[2].minWidth <= 2 == d[2].maxWidth by {
      assert d[0] == DayDD || d[0] == DayD;
      assert d[2] == MonthMM || d[2] == MonthM;
    }
    var f := d + g;
    assert f[..5] == d && f[5..] == g && f[3..][2..] == g;
    YearTailReadsYear(t, p + 5, year, f[3..], rest);
    var afterYear := Span(rest.end, rest.parts[Year := year]);
    TwoDigitsValue(t, p + 3, month);
    TokenStep(t, p + 3, 2, f[2..], afterYear);
    var afterMonth := Span(rest.end, rest.parts[Year := year][Month := month]);
    LiteralStep(t, p + 2, f[1..]);
    TwoDigitsValue(t, p, day);
    TokenStep(t, p, 2, f, afterMonth);
  }

  /** A literal the text does not contain stops a match wherever it starts. */
  lemma {:induction false} MissingLiteralNoMatch(t: string, i: nat, f: Format, n: nat)
    requires i <= |t| && n < |f| && f[n].Literal?
    requires forall j | 0 <= j < |t| :: t[j] != f[n].c
    ensures MatchElements(t, i, f).None?
    decreases n
  {
    if n > 0 {
      assert f[1..][n - 1] == f[n];
      match f[0]
      case Literal(c) =>
        if i < |t| && t[i] == c {
          MissingLiteralNoMatch(t, i + 1, f[1..], n - 1);
        }
      case Token(_, _, _) =>
        MissingLiteralNoMatch(t, DigitRun(t, i), f[1..], n - 1);
    }
  }

  /** Every date+time format needs a space, so text without one fails all
      of them with a ParserError. */
  lemma DateTimeFormatsNeedSpace(t: string)
    requires forall j | 0 <= j < |t| :: t[j] != ' '
    ensures forall k | 0 <= k < |DateTimeFormats()| :: AttemptFormat(t, DateTimeFormats()[k], false) == Unmatched
  {
    forall k | 0 <= k < |DateTimeFormats()| ensures AttemptFormat(t, DateTimeFormats()[k], false) == Unmatched {
      var f := DateTimeFormats()[k];
      assert f[5] == Space;
      forall q: nat | q <= |t| ensures MatchAt(t, q, f).None? {
        MissingLiteralNoMatch(t, q, f, 5);
      }
      SearchFailsIffNoMatch(t, f);
    }
  }

  /** Each date-only format finds every field of a rendered date. */
  lemma RenderedDateIsFound(year: nat, month: nat, day: nat, k: nat)
    requires year < 10000 && month < 100 && day < 100 && k < |DateFormats|
    ensures Search(RenderedDate(year, month, day), DateFormats[k]) == Some(map[Year := year, Month := month, Day := day])
  {
    var t := RenderedDate(year, month, day);
    assert t[0..10] == t;
    DateFormatReadsDate(t, 0, year, month, day, k, [], Span(10, map[]));
    assert DateFormats[k] + [] == DateFormats[k];
    assert map[][Year := year][Month := month][Day := day] == map[Year := year, Month := month, Day := day];
    SearchIsLeftmost(t, DateFormats[k], 0);
  }

  /** A date written "DD.MM.YYYY" on its own reads back at 12:00 when the
      calendar has it, and yields None otherwise; the loop as written raises
      instead of returning None. */
  lemma RenderedDateReadsBack(year: nat, month: nat, day: nat)
    requires year < 10000 && month < 100 && day < 100
    ensures FilterDatetime(RenderedDate(year, month, day)) ==
      if IsValidDate(year, month, day) then Some(DateTime(year, month, day, 12, 0)) else None
    ensures FilterDatetimeAsWritten(RenderedDate(year, month, day)) ==
      if IsValidDate(year, month, day) then Found(DateTime(year, month, day, 12, 0)) else Raised
  {
    var t := RenderedDate(year, month, day);
    NoSpacesIsNormalized(t);
    DateTimeFormatsNeedSpace(t);
    var parts := map[Year := year, Month := month, Day := day];
    assert Spelled(parts) == DateTime(year, month, day, 0, 0);
    forall k | 0 <= k < |DateFormats|
      ensures AttemptFormat(t, DateFormats[k], true) ==
        if IsValidDate(year, month, day) then Parsed(DateTime(year, month, day, 12, 0)) else Rejected
    {
      RenderedDateIsFound(year, month, day, k);
    }
    TryAsWrittenNotFoundIffUnmatched(t, DateTimeFormats(), false);
    if IsValidDate(year, month, day) {
      DateOnlyFallback(t, 0);
    } else {
      FilterDatetimeNoneIff(t);
    }
  }

  /** Day 33 is caught by the calendar check of the first date-only format:
      the loop as written lets the ValueError escape, the intended one
      returns None. */
  lemma DayThirtyThreeRaises()
    ensures FilterDatetimeAsWritten("33.12.2023") == Raised
    ensures FilterDatetime("33.12.2023") == None
  {
    assert RenderedDate(2023, 12, 33) == "33.12.2023";
    assert !IsValidDate(2023, 12, 33);
    RenderedDateReadsBack(2023, 12, 33);
  }

  /** A date on its own is taken at midday, in the civil time of the text. */
  lemma DateOnlyExample()
    ensures FilterDatetime("01.07.2023") == Some(DateTime(2023, 7, 1, 12, 0))
  {
    assert RenderedDate(2023, 7, 1) == "01.07.2023";
    RenderedDateReadsBack(2023, 7, 1);
  }

  /** Every format has a dot right after its first token, so text without
      a dot holds no date: None, and the loop as written ends without raising. */
  lemma NoDotNoDate(input: string)
    requires forall i | 0 <= i < |input| :: input[i] != '.'
    ensures FilterDatetime(input).None?
    ensures FilterDatetimeAsWritten(input) == NotFound
  {
    var t := Normalize(input);
    NormalizeAfterKeepsAbsent(input, false, '.');
    forall k | 0 <= k < |DateTimeFormats()| ensures AttemptFormat(t, DateTimeFormats()[k], false).Unmatched? {
      var f := DateTimeFormats()[k];
      assert f[1] == Dot;
      forall q: nat | q <= |t| ensures MatchAt(t, q, f).None? {
        MissingLiteralNoMatch(t, q, f, 1);
      }
      SearchFailsIffNoMatch(t, f);
    }
    forall k | 0 <= k < |DateFormats| ensures AttemptFormat(t, DateFormats[k], true).Unmatched? {
      var f := DateFormats[k];
      forall q: nat | q <= |t| ensures MatchAt(t, q, f).None? {
        MissingLiteralNoMatch(t, q, f, 1);
      }
      SearchFailsIffNoMatch(t, f);
    }
    FilterDatetimeNoneIff(input);
    TryAsWrittenNotFoundIffUnmatched(t, DateTimeFormats(), false);
    TryAsWrittenNotFoundIffUnmatched(t, DateFormats, true);
  }
}
