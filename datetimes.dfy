/** filter_datetime: an ordered search over arrow format strings.
    arrow turns a format such as "D.M.YYYY H:mm" into a regular expression
    whose tokens read runs of digits, wraps it in its own word boundaries,
    searches the whitespace-normalised input for the leftmost match and
    builds a `datetime` from the captured fields. */
module DateTimes {
  import opened Wrappers
  import opened Text
  import opened Numeric
  import opened Calendar
  import opened Leftmost

  datatype Field = Year | Month | Day | Hour | Minute

  /** A format element: a token that reads between `minWidth` and `maxWidth`
      digits into a field, or a literal character. */
  datatype Element = Token(field: Field, minWidth: nat, maxWidth: nat) | Literal(c: char)

  type Format = seq<Element>

  // arrow's tokens: "DD", "MM", "HH" and "mm" take exactly two digits,
  // "D", "M", "H" and "m" one or two, "YYYY" four
  const DayDD := Token(Day, 2, 2)
  const DayD := Token(Day, 1, 2)
  const MonthMM := Token(Month, 2, 2)
  const MonthM := Token(Month, 1, 2)
  const YearYYYY := Token(Year, 4, 4)
  const HourHH := Token(Hour, 2, 2)
  const HourH := Token(Hour, 1, 2)
  const MinuteMM := Token(Minute, 2, 2)
  const MinuteM := Token(Minute, 1, 2)
  const Dot := Literal('.')
  const Colon := Literal(':')
  const Space := Literal(' ')

  /** "DD.MM.YYYY", "DD.M.YYYY", "D.MM.YYYY", "D.M.YYYY". */
  const DateFormats: seq<Format> := [
    [DayDD, Dot, MonthMM, Dot, YearYYYY],
    [DayDD, Dot, MonthM, Dot, YearYYYY],
    [DayD, Dot, MonthMM, Dot, YearYYYY],
    [DayD, Dot, MonthM, Dot, YearYYYY]
  ]

  /** "HH:mm", "HH.mm", "HH:m", "HH.m", "H:mm", "H.mm", "H:m", "H.m". */
  const TimeFormats: seq<Format> := [
    [HourHH, Colon, MinuteMM], [HourHH, Dot, MinuteMM], [HourHH, Colon, MinuteM], [HourHH, Dot, MinuteM],
    [HourH, Colon, MinuteMM], [HourH, Dot, MinuteMM], [HourH, Colon, MinuteM], [HourH, Dot, MinuteM]
  ]

  /** `f"{date_format} {time_format}"` over `product(date_formats, time_formats)`:
      the time format varies fastest. */
  function DateTimeFormats(): seq<Format> {
    seq(32, k requires 0 <= k < 32 => DateFormats[k / 8] + [Space] + TimeFormats[k % 8])
  }

  function FieldsOf(f: Format): set<Field> {
    set k | 0 <= k < |f| && f[k].Token? :: f[k].field
  }

  lemma FieldsOfCons(f: Format)
    requires f != []
    ensures FieldsOf(f) == (if f[0].Token? then {f[0].field} else {}) + FieldsOf(f[1..])
  {
    assert forall k | 1 <= k < |f| :: f[1..][k - 1] == f[k];
  }

  /** Where a match of the elements ends, and the fields it read. */
  datatype Span = Span(end: nat, parts: map<Field, nat>)

  /** Matching the elements of a format at position `i`. Every token of the
      formats used here is followed by a literal that is not a digit or by the
      closing boundary, which a digit cannot satisfy, so a token matches exactly
      when the whole run of digits at `i` has an allowed width. */
  function MatchElements(t: string, i: nat, f: Format): (r: Option<Span>)
    requires i <= |t|
    ensures r.Some? ==> i <= r.value.end <= |t|
    ensures r.Some? ==> r.value.parts.Keys == FieldsOf(f)
    decreases |f|
  {
    if f == [] then Some(Span(i, map[]))
    else
      FieldsOfCons(f);
      match f[0]
      case Literal(c) =>
        if i < |t| && t[i] == c then MatchElements(t, i + 1, f[1..]) else None
      case Token(field, lo, hi) =>
        var j := DigitRun(t, i);
        if lo <= j - i <= hi then
          match MatchElements(t, j, f[1..])
          case None => None
          case Some(rest) =>
            DigitRunIsDigits(t, i);
            Some(Span(rest.end, rest.parts[field := DigitsValue(t[i..j])]))
        else None
  }

  /** The punctuation arrow lets stand immediately before or after a match. */
  predicate IsBoundaryPunctuation(c: char) {
    c in {',', '.', ';', ':', '?', '!', '"', '\'', '`', '[', ']', '{', '}', '(', ')', '<', '>'}
  }

  /** arrow's opening boundary: at most one punctuation mark between the match
      and the preceding whitespace or the start of the text. */
  predicate StartBoundary(t: string, p: nat)
    requires p <= |t|
  {
    || p == 0
    || IsSpace(t[p - 1])
    || (IsBoundaryPunctuation(t[p - 1]) && (p == 1 || IsSpace(t[p - 2])))
  }

  /** arrow's closing boundary, the mirror image of the opening one. */
  predicate EndBoundary(t: string, q: nat)
    requires q <= |t|
  {
    || q == |t|
    || IsSpace(t[q])
    || (IsBoundaryPunctuation(t[q]) && (q + 1 == |t| || IsSpace(t[q + 1])))
  }

  /** The fields of a bounded match of the format starting at `p`. */
  function MatchAt(t: string, p: nat, f: Format): (r: Option<map<Field, nat>>)
    requires p <= |t|
    ensures r.Some? ==> r.value.Keys == FieldsOf(f)
  {
    if !StartBoundary(t, p) then None
    else match MatchElements(t, p, f)
      case Some(s) => if EndBoundary(t, s.end) then Some(s.parts) else None
      case None => None
  }

  /** Whether the format matches at each position, the end of the text included. */
  function MatchPositions(t: string, f: Format): (hits: seq<bool>)
    ensures |hits| == |t| + 1
    ensures forall q | 0 <= q <= |t| :: hits[q] == MatchAt(t, q, f).Some?
  {
    seq(|t| + 1, q requires 0 <= q <= |t| => MatchAt(t, q, f).Some?)
  }

  /** `re.search`: the fields of the leftmost match. */
  function Search(t: string, f: Format): (r: Option<map<Field, nat>>)
    ensures r.Some? ==> r.value.Keys == FieldsOf(f)
  {
    match FirstHit(MatchPositions(t, f), 0)
    case Some(q) => MatchAt(t, q, f)
    case None => None
  }

  /** The search returns the match at the least position where there is one. */
  lemma SearchIsLeftmost(t: string, f: Format, q: nat)
    requires q <= |t| && MatchAt(t, q, f).Some?
    requires forall k: nat | k < q :: MatchAt(t, k, f).None?
    ensures Search(t, f) == MatchAt(t, q, f)
  {
    FirstHitIsLeast(MatchPositions(t, f), 0, q);
  }

  /** The search finds nothing exactly when no position matches. */
  lemma SearchFailsIffNoMatch(t: string, f: Format)
    ensures Search(t, f).None? <==> forall q: nat | q <= |t| :: MatchAt(t, q, f).None?
  {
    FirstHitFailsIffNoHit(MatchPositions(t, f), 0);
  }

  /** What one attempt with one format ends in: a date-time, arrow's
      ParserError (no match, or hour 24 with minutes), or the ValueError or
      OverflowError of building a `datetime` from out-of-range fields. */
  datatype Attempt = Parsed(value: DateTime) | Unmatched | Rejected

  /** `parts.get(field, default)`. */
  function Lookup(parts: map<Field, nat>, field: Field, default: int): int {
    if field in parts then parts[field] else default
  }

  /** The date-time the fields spell, before any range check. */
  function Spelled(parts: map<Field, nat>): DateTime {
    DateTime(Lookup(parts, Year, 1), Lookup(parts, Month, 1), Lookup(parts, Day, 1),
             Lookup(parts, Hour, 0), Lookup(parts, Minute, 0))
  }

  /** arrow's `_build_datetime`: hour 24 is midnight at the end of the day
      (and a ParserError if it has minutes); otherwise the `datetime`
      constructor checks every field. */
  function Build(parts: map<Field, nat>): (a: Attempt)
    ensures a.Parsed? ==> IsValid(a.value)
    ensures a.Unmatched? <==> Spelled(parts).hour == 24 && Spelled(parts).minute != 0
    ensures Spelled(parts).hour != 24 ==>
      (a.Parsed? <==> IsValid(Spelled(parts))) && (a.Parsed? ==> a.value == Spelled(parts))
    ensures var s := Spelled(parts); s.hour == 24 && s.minute == 0 ==>
      (a.Parsed? <==> IsValidDate(s.year, s.month, s.day) && NextDay(s.year, s.month, s.day).Some?)
    ensures var s := Spelled(parts);
      s.hour == 24 && s.minute == 0 && IsValidDate(s.year, s.month, s.day) && NextDay(s.year, s.month, s.day).Some? ==>
        var next := NextDay(s.year, s.month, s.day).value;
        a == Parsed(DateTime(next.0, next.1, next.2, 0, 0))
  {
    var s := Spelled(parts);
    if s.hour == 24 then
      if s.minute != 0 then Unmatched
      else if !IsValidDate(s.year, s.month, s.day) then Rejected
      else match NextDay(s.year, s.month, s.day)
        case Some(next) => Parsed(DateTime(next.0, next.1, next.2, 0, 0))
        case None => Rejected
    else if IsValid(s) then Parsed(s)
    else Rejected
  }

  /** `.shift(hours=12)`: the same day twelve hours later, or the next day. */
  function ShiftTwelveHours(a: Attempt): (r: Attempt)
    requires a.Parsed? ==> IsValid(a.value)
    ensures r.Parsed? ==> IsValid(r.value)
    ensures r.Parsed? ==> a.Parsed? && r.value.minute == a.value.minute
    ensures a.Parsed? && a.value.hour < 12 ==> r == Parsed(a.value.(hour := a.value.hour + 12))
    ensures !a.Parsed? ==> r == a
  {
    if !a.Parsed? then a
    else if a.value.hour < 12 then Parsed(a.value.(hour := a.value.hour + 12))
    else match NextDay(a.value.year, a.value.month, a.value.day)
      case Some(next) => Parsed(DateTime(next.0, next.1, next.2, a.value.hour - 12, a.value.minute))
      case None => Rejected
  }

  /** One `arrow.get(input, format)` call, shifted to midday for date-only formats. */
  function AttemptFormat(t: string, f: Format, midday: bool): (a: Attempt)
    ensures a.Parsed? ==> IsValid(a.value)
  {
    match Search(t, f)
    case None => Unmatched
    case Some(parts) => if midday then ShiftTwelveHours(Build(parts)) else Build(parts)
  }

  /** How filter_datetime ends: a date-time, None, or an exception escaping it. */
  datatype Outcome = Found(value: DateTime) | NotFound | Raised

  /** One loop of filter_datetime as written: only ParserError moves on to the
      next format, any other failure escapes. */
  function TryAsWritten(t: string, fs: seq<Format>, midday: bool): (r: Outcome)
    ensures r.Found? ==> IsValid(r.value)
    decreases |fs|
  {
    if fs == [] then NotFound
    else match AttemptFormat(t, fs[0], midday)
      case Parsed(v) => Found(v)
      case Rejected => Raised
      case Unmatched => TryAsWritten(t, fs[1..], midday)
  }

  /** filter_datetime as written. */
  function FilterDatetimeAsWritten(input: string): (r: Outcome)
    ensures r.Found? ==> IsValid(r.value)
  {
    var t := Normalize(input);
    match TryAsWritten(t, DateTimeFormats(), false)
    case NotFound => TryAsWritten(t, DateFormats, true)
    case other => other
  }

  /** One loop of filter_datetime with every failing format skipped: the first
      format that yields a date-time. */
  function TryFormats(t: string, fs: seq<Format>, midday: bool): (r: Option<DateTime>)
    ensures r.Some? ==> IsValid(r.value)
    decreases |fs|
  {
    if fs == [] then None
    else match AttemptFormat(t, fs[0], midday)
      case Parsed(v) => Some(v)
      case _ => TryFormats(t, fs[1..], midday)
  }

  /** filter_datetime as intended: every date+time format in order, then every
      date-only format at midday, then None. */
  function FilterDatetime(input: string): (r: Option<DateTime>)
    ensures r.Some? ==> IsValid(r.value)
  {
    var t := Normalize(input);
    match TryFormats(t, DateTimeFormats(), false)
    case Some(v) => Some(v)
    case None => TryFormats(t, DateFormats, true)
  }

  /** The date+time formats are the product of the two lists, the time
      format varying fastest. */
  lemma DateTimeFormatsAreProduct()
    ensures |DateTimeFormats()| == |DateFormats| * |TimeFormats|
    ensures forall i, j | 0 <= i < |DateFormats| && 0 <= j < |TimeFormats| ::
      DateTimeFormats()[8 * i + j] == DateFormats[i] + [Space] + TimeFormats[j]
  {
    forall i, j | 0 <= i < 4 && 0 <= j < 8
      ensures DateTimeFormats()[8 * i + j] == DateFormats[i] + [Space] + TimeFormats[j]
    {
      assert (8 * i + j) / 8 == i && (8 * i + j) % 8 == j;
    }
  }

  /** The first format that yields a date-time decides. */
  lemma {:induction false} TryFormatsIsFirst(t: string, fs: seq<Format>, midday: bool, k: nat)
    requires k < |fs| && AttemptFormat(t, fs[k], midday).Parsed?
    requires forall j | 0 <= j < k :: !AttemptFormat(t, fs[j], midday).Parsed?
    ensures TryFormats(t, fs, midday) == Some(AttemptFormat(t, fs[k], midday).value)
    decreases k
  {
    if k > 0 {
      assert !AttemptFormat(t, fs[0], midday).Parsed?;
      forall j | 0 <= j < k - 1 ensures !AttemptFormat(t, fs[1..][j], midday).Parsed? {
        assert fs[1..][j] == fs[j + 1];
      }
      TryFormatsIsFirst(t, fs[1..], midday, k - 1);
    }
  }

  /** No date-time exactly when no format yields one. */
  lemma {:induction false} TryFormatsFailsIffNoneParses(t: string, fs: seq<Format>, midday: bool)
    ensures TryFormats(t, fs, midday).None? <==>
      forall k | 0 <= k < |fs| :: !AttemptFormat(t, fs[k], midday).Parsed?
    decreases |fs|
  {
    if fs != [] {
      TryFormatsFailsIffNoneParses(t, fs[1..], midday);
      if !AttemptFormat(t, fs[0], midday).Parsed? {
        forall k | 1 <= k < |fs| ensures fs[k] == fs[1..][k - 1] { }
      }
    }
  }

  /** Date-time first: when some date+time format yields a date-time, the
      first such one is the answer, whatever the date-only formats say. */
  lemma DateTimeFormatsComeFirst(input: string, k: nat)
    requires k < |DateTimeFormats()|
    requires AttemptFormat(Normalize(input), DateTimeFormats()[k], false).Parsed?
    requires forall j | 0 <= j < k :: !AttemptFormat(Normalize(input), DateTimeFormats()[j], false).Parsed?
    ensures FilterDatetime(input) == Some(AttemptFormat(Normalize(input), DateTimeFormats()[k], false).value)
  {
    TryFormatsIsFirst(Normalize(input), DateTimeFormats(), false, k);
  }

  /** A date-only format reads no hour or minute. */
  lemma DateFormatFields(k: nat)
    requires k < |DateFormats|
    ensures FieldsOf(DateFormats[k]) == {Day, Month, Year}
  {
    var f := DateFormats[k];
    assert f[0].field == Day && f[2].field == Month && f[4].field == Year;
    assert forall j | 0 <= j < |f| && f[j].Token? :: f[j].field in {Day, Month, Year};
  }

  /** A date-only format yields its date at 12:00: midnight shifted by twelve hours. */
  lemma DateOnlyIsMidday(t: string, k: nat)
    requires k < |DateFormats|
    ensures var a := AttemptFormat(t, DateFormats[k], true);
      a.Parsed? ==> a.value.hour == 12 && a.value.minute == 0
  {
    DateFormatFields(k);
  }

  /** The fallback: with no date+time anywhere, the first date-only format
      that yields a date gives that date at midday. */
  lemma DateOnlyFallback(input: string, k: nat)
    requires forall j | 0 <= j < |DateTimeFormats()| :: !AttemptFormat(Normalize(input), DateTimeFormats()[j], false).Parsed?
    requires k < |DateFormats| && AttemptFormat(Normalize(input), DateFormats[k], true).Parsed?
    requires forall j | 0 <= j < k :: !AttemptFormat(Normalize(input), DateFormats[j], true).Parsed?
    ensures FilterDatetime(input) == Some(AttemptFormat(Normalize(input), DateFormats[k], true).value)
    ensures FilterDatetime(input).value.hour == 12 && FilterDatetime(input).value.minute == 0
  {
    var t := Normalize(input);
    TryFormatsFailsIffNoneParses(t, DateTimeFormats(), false);
    TryFormatsIsFirst(t, DateFormats, true, k);
    DateOnlyIsMidday(t, k);
  }

  /** None exactly when no format of either list yields a date-time. */
  lemma FilterDatetimeNoneIff(input: string)
    ensures FilterDatetime(input).None? <==>
      && (forall j | 0 <= j < |DateTimeFormats()| :: !AttemptFormat(Normalize(input), DateTimeFormats()[j], false).Parsed?)
      && (forall j | 0 <= j < |DateFormats| :: !AttemptFormat(Normalize(input), DateFormats[j], true).Parsed?)
  {
    TryFormatsFailsIffNoneParses(Normalize(input), DateTimeFormats(), false);
    TryFormatsFailsIffNoneParses(Normalize(input), DateFormats, true);
  }

  /** Wherever the loop as written does not raise, it agrees with the
      intended one. */
  lemma {:induction false} TryAsWrittenAgrees(t: string, fs: seq<Format>, midday: bool)
    ensures TryAsWritten(t, fs, midday).Found? ==>
      TryFormats(t, fs, midday) == Some(TryAsWritten(t, fs, midday).value)
    ensures TryAsWritten(t, fs, midday).NotFound? ==> TryFormats(t, fs, midday).None?
    decreases |fs|
  {
    if fs != [] {
      TryAsWrittenAgrees(t, fs[1..], midday);
    }
  }

  lemma FilterDatetimeAgreesUnlessRaised(input: string)
    ensures FilterDatetimeAsWritten(input).Found? ==>
      FilterDatetime(input) == Some(FilterDatetimeAsWritten(input).value)
    ensures FilterDatetimeAsWritten(input).NotFound? ==> FilterDatetime(input).None?
  {
    TryAsWrittenAgrees(Normalize(input), DateTimeFormats(), false);
    TryAsWrittenAgrees(Normalize(input), DateFormats, true);
  }

  /** The loop as written raises exactly when the first format that does not
      fail with a ParserError fails with another error. */
  lemma {:induction false} TryAsWrittenRaises(t: string, fs: seq<Format>, midday: bool, k: nat)
    requires k < |fs| && AttemptFormat(t, fs[k], midday).Rejected?
    requires forall j | 0 <= j < k :: AttemptFormat(t, fs[j], midday).Unmatched?
    ensures TryAsWritten(t, fs, midday) == Raised
    decreases k
  {
    if k > 0 {
      assert AttemptFormat(t, fs[0], midday).Unmatched?;
      forall j | 0 <= j < k - 1 ensures AttemptFormat(t, fs[1..][j], midday).Unmatched? {
        assert fs[1..][j] == fs[j + 1];
      }
      TryAsWrittenRaises(t, fs[1..], midday, k - 1);
    }
  }

  /** Conversely, when the loop as written raises, some format fails with
      an error other than a ParserError and every format before it fails
      with a ParserError. */
  lemma {:induction false} TryAsWrittenRaisedHasCause(t: string, fs: seq<Format>, midday: bool)
    requires TryAsWritten(t, fs, midday) == Raised
    ensures exists k | 0 <= k < |fs| ::
      && AttemptFormat(t, fs[k], midday).Rejected?
      && forall j | 0 <= j < k :: AttemptFormat(t, fs[j], midday).Unmatched?
    decreases |fs|
  {
    if !AttemptFormat(t, fs[0], midday).Rejected? {
      TryAsWrittenRaisedHasCause(t, fs[1..], midday);
      var k :| 0 <= k < |fs| - 1 && AttemptFormat(t, fs[1..][k], midday).Rejected?
        && forall j | 0 <= j < k :: AttemptFormat(t, fs[1..][j], midday).Unmatched?;
      assert fs[1..][k] == fs[k + 1];
      forall j | 0 <= j < k + 1 ensures AttemptFormat(t, fs[j], midday).Unmatched? {
        if j > 0 {
          assert fs[1..][j - 1] == fs[j];
        }
      }
    }
  }

  /** With no format yielding a date-time and some failing with another
      error, the loop as written raises. */
  lemma {:induction false} TryAsWrittenRaisesWithoutParse(t: string, fs: seq<Format>, midday: bool, k: nat)
    requires k < |fs| && AttemptFormat(t, fs[k], midday).Rejected?
    requires forall j | 0 <= j < |fs| :: !AttemptFormat(t, fs[j], midday).Parsed?
    ensures TryAsWritten(t, fs, midday) == Raised
    decreases |fs|
  {
    if !AttemptFormat(t, fs[0], midday).Rejected? {
      assert fs[1..][k - 1] == fs[k];
      assert forall j | 0 <= j < |fs| - 1 :: fs[1..][j] == fs[j + 1];
      TryAsWrittenRaisesWithoutParse(t, fs[1..], midday, k - 1);
    }
  }

  /** Where no format fails with an error other than a ParserError, the loop
      as written and the intended one give the same answer. */
  lemma {:induction false} TryAsWrittenWithoutRejection(t: string, fs: seq<Format>, midday: bool)
    requires forall j | 0 <= j < |fs| :: !AttemptFormat(t, fs[j], midday).Rejected?
    ensures TryAsWritten(t, fs, midday) ==
      match TryFormats(t, fs, midday)
      case Some(v) => Found(v)
      case None => NotFound
    decreases |fs|
  {
    if fs != [] {
      assert forall j | 0 <= j < |fs| - 1 :: fs[1..][j] == fs[j + 1];
      TryAsWrittenWithoutRejection(t, fs[1..], midday);
    }
  }

  /** The date-time the intended loop returns is what some format yields. */
  lemma {:induction false} TryFormatsIsAnAttempt(t: string, fs: seq<Format>, midday: bool)
    ensures TryFormats(t, fs, midday).Some? ==>
      exists j | 0 <= j < |fs| :: AttemptFormat(t, fs[j], midday) == Parsed(TryFormats(t, fs, midday).value)
    decreases |fs|
  {
    if fs != [] && !AttemptFormat(t, fs[0], midday).Parsed? {
      TryFormatsIsAnAttempt(t, fs[1..], midday);
      if TryFormats(t, fs, midday).Some? {
        var j :| 0 <= j < |fs| - 1 && AttemptFormat(t, fs[1..][j], midday) == Parsed(TryFormats(t, fs, midday).value);
        assert fs[1..][j] == fs[j + 1];
      }
    }
  }

  /** The loop as written runs off its end exactly when every format fails
      with a ParserError. */
  lemma {:induction false} TryAsWrittenNotFoundIffUnmatched(t: string, fs: seq<Format>, midday: bool)
    ensures TryAsWritten(t, fs, midday).NotFound? <==>
      forall k | 0 <= k < |fs| :: AttemptFormat(t, fs[k], midday).Unmatched?
    decreases |fs|
  {
    if fs != [] {
      TryAsWrittenNotFoundIffUnmatched(t, fs[1..], midday);
      if AttemptFormat(t, fs[0], midday).Unmatched? {
        forall k | 1 <= k < |fs| ensures fs[k] == fs[1..][k - 1] { }
      }
    }
  }

  /** Every format opens with a token that needs at least one digit. */
  predicate StartsWithDigits(f: Format) {
    f != [] && f[0].Token? && f[0].minWidth >= 1
  }

  lemma FormatsStartWithDigits()
    ensures forall k | 0 <= k < |DateFormats| :: StartsWithDigits(DateFormats[k])
    ensures forall k | 0 <= k < |DateTimeFormats()| :: StartsWithDigits(DateTimeFormats()[k])
  {
    forall k | 0 <= k < |DateTimeFormats()| ensures StartsWithDigits(DateTimeFormats()[k]) {
      assert DateTimeFormats()[k][0] == DateFormats[k / 8][0];
    }
  }

  /** A format that opens with a digit token matches nowhere in text without digits. */
  lemma NoDigitsNoMatch(t: string, f: Format)
    requires NoDigits(t) && StartsWithDigits(f)
    ensures Search(t, f).None?
  {
    forall q: nat | q <= |t| ensures MatchAt(t, q, f).None? {
      assert DigitRun(t, q) == q;
    }
    SearchFailsIffNoMatch(t, f);
  }

  /** Text without digits holds no date: None, and the loop as written ends
      without raising. */
  lemma NoDigitsNoDate(input: string)
    requires NoDigits(input)
    ensures FilterDatetime(input).None?
    ensures FilterDatetimeAsWritten(input) == NotFound
  {
    var t := Normalize(input);
    NormalizeAfterKeepsNoDigits(input, false);
    FormatsStartWithDigits();
    forall k | 0 <= k < |DateTimeFormats()| ensures AttemptFormat(t, DateTimeFormats()[k], false).Unmatched? {
      NoDigitsNoMatch(t, DateTimeFormats()[k]);
    }
    forall k | 0 <= k < |DateFormats| ensures AttemptFormat(t, DateFormats[k], true).Unmatched? {
      NoDigitsNoMatch(t, DateFormats[k]);
    }
    FilterDatetimeNoneIff(input);
    TryAsWrittenNotFoundIffUnmatched(t, DateTimeFormats(), false);
    TryAsWrittenNotFoundIffUnmatched(t, DateFormats, true);
  }
}
