/** The record the bot's message handler (`TelegramManager.echo`) builds from
    one chat message: the three extracted values and a date, the date found in
    the text or else the time the message was sent. A record in which all
    three values are NaN is dropped; otherwise a group chat (type `GROUP`,
    not a supergroup) hands it to every storage handler's `write` and any
    other chat, a supergroup included, gets it back as a preview.
    What a handler then does with it is not part of this model. */
module Records {
  import opened Wrappers
  import opened Text
  import opened Numeric
  import opened Calendar
  import opened Suffixed
  import opened DateTimes

  /** The document handed to the storage handlers: `date`, `km`, `litres`,
      `EUR`, with None standing for NaN. */
  datatype Reading = Reading(date: DateTime, km: Option<Decimal>, litres: Option<Decimal>, euros: Option<Decimal>)

  /** What the handler does with a message. */
  datatype Action =
    | Write(doc: Reading)    // group chat: handed to every handler's `write`
    | Preview(doc: Reading)  // any other chat: sent back as a debug reply
    | Ignore                 // every value NaN: nothing happens

  /** `not all(map(math.isnan, (km, litres, euros)))`. */
  predicate HasValue(r: Reading) {
    r.km.Some? || r.litres.Some? || r.euros.Some?
  }

  /** `if date is None: date = update.message.date`. */
  function DateOrSent(found: Option<DateTime>, sent: DateTime): (d: DateTime)
    requires found.Some? ==> IsValid(found.value)
    ensures IsValid(sent) ==> IsValid(d)
    ensures found.Some? ==> d == found.value
    ensures found.None? ==> d == sent
  {
    match found
    case Some(d) => d
    case None => sent
  }

  /** The three filters and the date, defaulting to the send time. The date
      is always a valid date-time when the send time is one, and no value is
      negative. */
  function ReadMessage(text: string, sent: DateTime): (r: Reading)
    ensures IsValid(sent) ==> IsValid(r.date)
    ensures r.km.Some? ==> r.km.value.mantissa >= 0
    ensures r.litres.Some? ==> r.litres.value.mantissa >= 0
    ensures r.euros.Some? ==> r.euros.value.mantissa >= 0
  {
    Reading(DateOrSent(FilterDatetime(text), sent), FilterKm(text), FilterLitres(text), FilterEuros(text))
  }

  /** What becomes of a record: dropped when every value is NaN, else
      written from a group chat and previewed from any other. `isGroup` is
      `chat.type == Chat.GROUP`; a supergroup is not one. */
  function Decide(r: Reading, isGroup: bool): (a: Action)
    ensures a.Ignore? <==> !HasValue(r)
    ensures a.Write? ==> isGroup && a.doc == r
    ensures a.Preview? ==> !isGroup && a.doc == r
  {
    if !HasValue(r) then Ignore
    else if isGroup then Write(r)
    else Preview(r)
  }

  /** The handler's decision for one message; `isGroup` as in `Decide`. */
  function Echo(text: string, sent: DateTime, isGroup: bool): (a: Action)
    ensures a.Ignore? <==> !HasValue(ReadMessage(text, sent))
    ensures a.Write? ==> isGroup && a.doc == ReadMessage(text, sent)
    ensures a.Preview? ==> !isGroup && a.doc == ReadMessage(text, sent)
  {
    Decide(ReadMessage(text, sent), isGroup)
  }

  /** How the handler as written ends: with an action, or aborted by an
      exception escaping filter_datetime before any value is looked at. */
  datatype Handling = Handled(action: Action) | Aborted

  /** The handler as written, on filter_datetime as written. It aborts
      exactly when that raises, and otherwise decides as `Echo` does. */
  function EchoAsWritten(text: string, sent: DateTime, isGroup: bool): (h: Handling)
    ensures h.Aborted? <==> FilterDatetimeAsWritten(text) == Raised
    ensures h.Handled? ==> h.action == Echo(text, sent, isGroup)
  {
    FilterDatetimeAgreesUnlessRaised(text);
    var km, litres, euros := FilterKm(text), FilterLitres(text), FilterEuros(text);
    match FilterDatetimeAsWritten(text)
    case Raised => Aborted
    case Found(d) => Handled(Decide(Reading(d, km, litres, euros), isGroup))
    case NotFound => Handled(Decide(Reading(sent, km, litres, euros), isGroup))
  }

  /** A message is dropped exactly when none of the three patterns matches
      anywhere in it. */
  lemma IgnoredIffNoPatternMatches(text: string, sent: DateTime, isGroup: bool)
    ensures Echo(text, sent, isGroup).Ignore? <==>
      forall i: nat | i < |text| ::
        !MatchesAt(text, KmMarker, i) && !MatchesAt(text, LitreMarker, i) && !MatchesAt(text, EuroMarker, i)
  {
  }

  /** Text without digits carries no value, so it is dropped, and carries no
      date, so its record would have the send time. */
  lemma NoDigitsIgnored(text: string, sent: DateTime, isGroup: bool)
    requires NoDigits(text)
    ensures Echo(text, sent, isGroup) == Ignore
    ensures ReadMessage(text, sent).date == sent
  {
    forall i: nat | i < |text|
      ensures !MatchesAt(text, KmMarker, i) && !MatchesAt(text, LitreMarker, i) && !MatchesAt(text, EuroMarker, i)
    {
    }
    IgnoredIffNoPatternMatches(text, sent, isGroup);
    NoDigitsNoDate(text);
  }

  /** A date in the text replaces the send time; without one the send time
      stays. */
  lemma MessageDateDefault(text: string, sent: DateTime)
    ensures FilterDatetime(text).Some? ==> ReadMessage(text, sent).date == FilterDatetime(text).value
    ensures FilterDatetime(text).None? ==> ReadMessage(text, sent).date == sent
  {
  }
}

module RecordExamples {
  import opened Wrappers
  import opened Text
  import opened Numeric
  import opened Calendar
  import opened Suffixed
  import opened SuffixedExamples
  import opened DateTimes
  import opened DateTimeProperties
  import opened Records

  /** "2 foo" has a number but no unit: nothing is written. */
  lemma NumberWithoutUnitIgnored(sent: DateTime)
    ensures Echo("2 foo", sent, true) == Ignore
  {
    FooIsNaNExample();
  }

  lemma DistanceHasNoOtherUnit()
    ensures FilterLitres("4,4" + "km") == None
    ensures FilterEuros("4,4" + "km") == None
  {
    var t := "4,4" + "km";
    forall a | 0 <= a < |t|
      ensures !ClassMatches(t[a], LitreMarker[0]) && !ClassMatches(t[a], EuroMarker[0])
    {
      LitreSpellings([t[a]], 0);
      EuroSpellings([t[a]], 0);
    }
    NoMarkerNoValue(t, LitreMarker);
    NoMarkerNoValue(t, EuroMarker);
  }

  lemma DistanceHasNoDate()
    ensures FilterDatetime("4,4" + "km") == None
  {
    var t := "4,4" + "km";
    assert forall i | 0 <= i < |t| :: t[i] != '.';
    NoDotNoDate(t);
  }

  /** A distance alone is enough for a record; without a date in the text
      the send time is used. */
  lemma DistanceAloneIsWritten(sent: DateTime)
    ensures Echo("4,4" + "km", sent, true) == Write(Reading(sent, Some(Decimal(44, 1)), None, None))
  {
    DistanceWithCommaExample();
    DistanceHasNoOtherUnit();
    DistanceHasNoDate();
  }

  lemma DayThirtyThreeHasNoValue()
    ensures FilterKm("33.12.2023") == None
    ensures FilterLitres("33.12.2023") == None
    ensures FilterEuros("33.12.2023") == None
  {
    var t := "33.12.2023";
    forall a | 0 <= a < |t|
      ensures !ClassMatches(t[a], KmMarker[0]) && !ClassMatches(t[a], LitreMarker[0]) && !ClassMatches(t[a], EuroMarker[0])
    {
      KmSpellings([t[a]], 0);
      LitreSpellings([t[a]], 0);
      EuroSpellings([t[a]], 0);
    }
    NoMarkerNoValue(t, KmMarker);
    NoMarkerNoValue(t, LitreMarker);
    NoMarkerNoValue(t, EuroMarker);
  }

  /** Day 33 aborts the handler as written, even though the text holds no
      value; the intended handler drops the message. */
  lemma DayThirtyThreeAbortsHandler(sent: DateTime, isGroup: bool)
    ensures EchoAsWritten("33.12.2023", sent, isGroup) == Aborted
    ensures Echo("33.12.2023", sent, isGroup) == Ignore
  {
    DayThirtyThreeRaises();
    DayThirtyThreeHasNoValue();
  }
}
