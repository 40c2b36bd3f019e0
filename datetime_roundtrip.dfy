/** arrow's `format` as the partner of its parser on the formats that
    filter_datetime tries: a date written with any of the date formats and a
    time written with any of the time formats, with whitespace between them
    and digit-free words around them, read back unchanged. */
module DateTimeRoundTrip {
  import opened Wrappers
  import opened Text
  import opened Numeric
  import opened Calendar
  import opened DateTimes
  import opened DateTimeProperties

  lemma {:induction false} Pow10Grows(a: nat, b: nat)
    requires a <= b
    ensures Pow10(a) <= Pow10(b)
    decreases b
  {
    if a < b {
      Pow10Grows(a, b - 1);
    }
  }

  /** `n` in exactly `w` digits, padded with zeros on the left. */
  function Padded(n: nat, w: nat): (s: string)
    requires n < Pow10(w)
    ensures |s| == w && AllDigits(s) && DigitsValue(s) == n
    decreases w
  {
    if w == 0 then []
    else
      assert n / 10 < Pow10(w - 1);
      var init, c := Padded(n / 10, w - 1), Digit(n % 10);
      AllDigitsAppend(init, [c]);
      DigitsValueAppend(init, c);
      init + [c]
  }

  /** How many digits `n` has; zero has one. */
  function Width(n: nat): (w: nat)
    ensures 1 <= w && n < Pow10(w)
  {
    if n < 10 then 1
    else
      var w := Width(n / 10);
      assert n < 10 * Pow10(w);
      1 + w
  }

  /** A number below `10^k` has at most `k` digits. */
  lemma {:induction false} WidthIsLeast(n: nat, k: nat)
    requires 1 <= k && n < Pow10(k)
    ensures Width(n) <= k
    decreases k
  {
    if n >= 10 {
      assert Pow10(1) == 10;
      assert n / 10 < Pow10(k - 1);
      WidthIsLeast(n / 10, k - 1);
    }
  }

  /** A number as a token writes it: every digit of it, padded with zeros
      to the token's minimum width. */
  function RenderNumber(n: nat, minWidth: nat): (s: string)
    ensures AllDigits(s) && DigitsValue(s) == n
    ensures |s| == if Width(n) < minWidth then minWidth else Width(n)
  {
    var w := if Width(n) < minWidth then minWidth else Width(n);
    Pow10Grows(Width(n), w);
    Padded(n, w)
  }

  /** A date-time whose fields can be written as digits. */
  predicate Renderable(dt: DateTime) {
    dt.year >= 0 && dt.month >= 0 && dt.day >= 0 && dt.hour >= 0 && dt.minute >= 0
  }

  function FieldValue(dt: DateTime, field: Field): nat
    requires Renderable(dt)
  {
    match field
    case Year => dt.year
    case Month => dt.month
    case Day => dt.day
    case Hour => dt.hour
    case Minute => dt.minute
  }

  function Piece(e: Element, dt: DateTime): string
    requires Renderable(dt)
  {
    match e
    case Literal(c) => [c]
    case Token(field, lo, _) => RenderNumber(FieldValue(dt, field), lo)
  }

  /** `Arrow.format`: each token written out, each literal copied. */
  function Render(f: Format, dt: DateTime): string
    requires Renderable(dt)
    decreases |f|
  {
    if f == [] then [] else Piece(f[0], dt) + Render(f[1..], dt)
  }

  /** The fields a format reads, each with its value in `dt`. */
  function PartsOf(f: Format, dt: DateTime): (parts: map<Field, nat>)
    requires Renderable(dt)
    ensures parts.Keys == FieldsOf(f)
    ensures forall field | field in parts :: parts[field] == FieldValue(dt, field)
    decreases |f|
  {
    if f == [] then map[]
    else
      FieldsOfCons(f);
      match f[0]
      case Literal(_) => PartsOf(f[1..], dt)
      case Token(field, _, _) => PartsOf(f[1..], dt)[field := FieldValue(dt, field)]
  }

  /** No literal is a digit and every token but the last is followed by a literal. */
  predicate Separated(f: Format) {
    forall i | 0 <= i < |f| ::
      && (f[i].Literal? ==> !IsDigit(f[i].c))
      && (f[i].Token? && i + 1 < |f| ==> f[i + 1].Literal?)
  }

  /** `g` has tokens for the same fields where `f` has tokens, and literals
      where `f` has literals. */
  predicate SameShape(f: Format, g: Format) {
    && |f| == |g|
    && forall i | 0 <= i < |f| :: (f[i].Token? <==> g[i].Token?) && (f[i].Token? ==> g[i].field == f[i].field)
  }

  /** Every token of `f` writes its field of `dt` within its maximum width. */
  predicate Fits(f: Format, dt: DateTime)
    requires Renderable(dt)
  {
    forall i | 0 <= i < |f| && f[i].Token? :: |Piece(f[i], dt)| <= f[i].maxWidth
  }

  /** What `f` writes at `p`: its first piece, then the rest. */
  lemma RenderedHead(t: string, p: nat, f: Format, dt: DateTime)
    requires Renderable(dt) && f != []
    requires p + |Render(f, dt)| <= |t| && t[p..p + |Render(f, dt)|] == Render(f, dt)
    ensures var h := Piece(f[0], dt);
      && p + |h| + |Render(f[1..], dt)| == p + |Render(f, dt)|
      && t[p..p + |h|] == h
      && t[p + |h|..p + |Render(f, dt)|] == Render(f[1..], dt)
  {
    SliceSplits(t, p, Piece(f[0], dt), Render(f[1..], dt));
  }

  lemma SliceSplits(t: string, p: nat, a: string, b: string)
    requires p + |a + b| <= |t| && t[p..p + |a + b|] == a + b
    ensures t[p..p + |a|] == a && t[p + |a|..p + |a| + |b|] == b
  {
    var e := p + |a + b|;
    assert t[p..e][..|a|] == t[p..p + |a|];
    assert t[p..e][|a|..] == t[p + |a|..e];
  }

  /** The tail of a separated format is separated, and shapes match tail to tail. */
  lemma ShapeTail(f: Format, g: Format)
    requires f != [] && Separated(f) && SameShape(f, g)
    ensures Separated(f[1..]) && SameShape(f[1..], g[1..])
  {
    assert forall i | 0 <= i < |f| - 1 :: f[1..][i] == f[i + 1] && g[1..][i] == g[i + 1];
  }

  /** A written token is a whole run of digits. */
  lemma TokenRun(t: string, p: nat, f: Format, dt: DateTime)
    requires Renderable(dt) && f != [] && f[0].Token? && Separated(f)
    requires p + |Render(f, dt)| <= |t| && t[p..p + |Render(f, dt)|] == Render(f, dt)
    requires p + |Render(f, dt)| == |t| || !IsDigit(t[p + |Render(f, dt)|])
    ensures var h := Piece(f[0], dt);
      DigitRun(t, p) == p + |h| && DigitsValue(t[p..p + |h|]) == FieldValue(dt, f[0].field)
  {
    TokenEnds(t, p, f, dt);
    DigitsThenStop(t, p, Piece(f[0], dt));
  }

  /** A written token sits where it was written and is followed by the end
      of the text or a literal that is not a digit. */
  lemma TokenEnds(t: string, p: nat, f: Format, dt: DateTime)
    requires Renderable(dt) && f != [] && f[0].Token? && Separated(f)
    requires p + |Render(f, dt)| <= |t| && t[p..p + |Render(f, dt)|] == Render(f, dt)
    requires p + |Render(f, dt)| == |t| || !IsDigit(t[p + |Render(f, dt)|])
    ensures var h := Piece(f[0], dt);
      && p + |h| <= |t| && t[p..p + |h|] == h
      && (p + |h| == |t| || !IsDigit(t[p + |h|]))
  {
    var h, r' := Piece(f[0], dt), Render(f[1..], dt);
    var e := p + |Render(f, dt)|;
    RenderedHead(t, p, f, dt);
    if r' != [] {
      assert r'[0] == f[1].c;
      assert t[p + |h|] == t[p + |h|..e][0];
    }
  }

  /** Digits followed by the end of the text or a non-digit are a whole run. */
  lemma DigitsThenStop(t: string, p: nat, h: string)
    requires p + |h| <= |t| && t[p..p + |h|] == h && AllDigits(h)
    requires p + |h| == |t| || !IsDigit(t[p + |h|])
    ensures DigitRun(t, p) == p + |h|
  {
    forall j | p <= j < p + |h| ensures IsDigit(t[j]) {
      assert t[j] == t[p..p + |h|][j - p];
    }
    DigitRunIsUnique(t, p, p + |h|);
  }

  /** One literal of a match. */
  lemma MatchLiteralHead(t: string, p: nat, g: Format)
    requires p < |t| && g != [] && g[0].Literal?
    ensures MatchElements(t, p, g) == if t[p] == g[0].c then MatchElements(t, p + 1, g[1..]) else None
  {
  }

  /** One token of a match, at the end `j` of the run of digits. */
  lemma MatchTokenHead(t: string, p: nat, g: Format, j: nat)
    requires p <= |t| && g != [] && g[0].Token? && j == DigitRun(t, p) && AllDigits(t[p..j])
    ensures MatchElements(t, p, g) ==
      if g[0].minWidth <= j - p <= g[0].maxWidth then
        match MatchElements(t, j, g[1..])
        case None => None
        case Some(rest) => Some(Span(rest.end, rest.parts[g[0].field := DigitsValue(t[p..j])]))
      else None
  {
  }

  lemma PartsOfHead(f: Format, dt: DateTime)
    requires Renderable(dt) && f != []
    ensures PartsOf(f, dt) ==
      if f[0].Token? then PartsOf(f[1..], dt)[f[0].field := FieldValue(dt, f[0].field)] else PartsOf(f[1..], dt)
  {
  }

  /** A literal that is there passes on what the rest of the match reads. */
  lemma LiteralPasses(t: string, p: nat, g: Format, e: nat, parts: map<Field, nat>)
    requires p < |t| && g != [] && g[0].Literal?
    requires var m := MatchElements(t, p + 1, g[1..]); m.None? || m == Some(Span(e, parts))
    ensures var m := MatchElements(t, p, g); m.None? || m == Some(Span(e, parts))
  {
    MatchLiteralHead(t, p, g);
  }

  /** A token that reads the run of digits `t[p..n]` adds its value to what
      the rest of the match reads. */
  lemma TokenAdds(t: string, p: nat, n: nat, g: Format, v: nat, e: nat, parts: map<Field, nat>)
    requires p <= |t| && g != [] && g[0].Token? && n == DigitRun(t, p) && AllDigits(t[p..n])
    requires DigitsValue(t[p..n]) == v
    requires var m := MatchElements(t, n, g[1..]); m.None? || m == Some(Span(e, parts))
    ensures var m := MatchElements(t, p, g); m.None? || m == Some(Span(e, parts[g[0].field := v]))
  {
    MatchTokenHead(t, p, g, n);
  }

  /** Reading what `f` wrote: a format of the same shape reads the same runs
      of digits, so it either fails or reads exactly the written fields. */
  lemma {:induction false} ReadsRendered(t: string, p: nat, f: Format, g: Format, dt: DateTime)
    requires Renderable(dt) && Separated(f) && SameShape(f, g)
    requires p + |Render(f, dt)| <= |t| && t[p..p + |Render(f, dt)|] == Render(f, dt)
    requires p + |Render(f, dt)| == |t| || !IsDigit(t[p + |Render(f, dt)|])
    ensures MatchElements(t, p, g).None? ||
      MatchElements(t, p, g) == Some(Span(p + |Render(f, dt)|, PartsOf(f, dt)))
    decreases |f|
  {
    if f != [] {
      var h := Piece(f[0], dt);
      var n, e := p + |h|, p + |Render(f, dt)|;
      assert n + |Render(f[1..], dt)| == e && t[n..e] == Render(f[1..], dt) && t[p..n] == h by {
        RenderedHead(t, p, f, dt);
      }
      ShapeTail(f, g);
      ReadsRendered(t, n, f[1..], g[1..], dt);
      PartsOfHead(f, dt);
      if f[0].Literal? {
        assert t[p] == t[p..n][0];
        LiteralPasses(t, p, g, e, PartsOf(f[1..], dt));
      } else {
        var v := FieldValue(dt, f[0].field);
        assert DigitRun(t, p) == n && AllDigits(t[p..n]) && DigitsValue(t[p..n]) == v by {
          TokenRun(t, p, f, dt);
          DigitRunIsDigits(t, p);
        }
        TokenAdds(t, p, n, g, v, e, PartsOf(f[1..], dt));
      }
    }
  }

  lemma FitsTail(f: Format, dt: DateTime)
    requires Renderable(dt) && f != [] && Fits(f, dt)
    ensures Fits(f[1..], dt)
    ensures f[0].Token? ==> f[0].minWidth <= |Piece(f[0], dt)| <= f[0].maxWidth
  {
    assert forall i | 0 <= i < |f| - 1 :: f[1..][i] == f[i + 1];
  }

  /** `f` matches what it wrote when every field fits its token. */
  lemma {:induction false} RenderedMatches(t: string, p: nat, f: Format, dt: DateTime)
    requires Renderable(dt) && Separated(f) && Fits(f, dt)
    requires p + |Render(f, dt)| <= |t| && t[p..p + |Render(f, dt)|] == Render(f, dt)
    requires p + |Render(f, dt)| == |t| || !IsDigit(t[p + |Render(f, dt)|])
    ensures MatchElements(t, p, f).Some?
    decreases |f|
  {
    if f != [] {
      var n := p + |Piece(f[0], dt)|;
      RenderedHead(t, p, f, dt);
      ShapeTail(f, f);
      FitsTail(f, dt);
      RenderedMatches(t, n, f[1..], dt);
      if f[0].Literal? {
        assert t[p] == t[p..n][0];
        MatchLiteralHead(t, p, f);
      } else {
        TokenRun(t, p, f, dt);
        DigitRunIsDigits(t, p);
        MatchTokenHead(t, p, f, n);
      }
    }
  }

  /** `f` itself reads back what it wrote when every field fits its token. */
  lemma RenderedIsRead(t: string, p: nat, f: Format, dt: DateTime)
    requires Renderable(dt) && Separated(f) && Fits(f, dt)
    requires p + |Render(f, dt)| <= |t| && t[p..p + |Render(f, dt)|] == Render(f, dt)
    requires p + |Render(f, dt)| == |t| || !IsDigit(t[p + |Render(f, dt)|])
    ensures MatchElements(t, p, f) == Some(Span(p + |Render(f, dt)|, PartsOf(f, dt)))
  {
    assert SameShape(f, f);
    ReadsRendered(t, p, f, f, dt);
    RenderedMatches(t, p, f, dt);
  }

  /** Digits, with single non-space marks between them: how a date or a
      time is written. */
  predicate Compact(s: string) {
    && s != [] && IsDigit(s[0]) && IsDigit(s[|s| - 1])
    && (forall i | 0 <= i < |s| :: !IsSpace(s[i]))
    && (forall i | 0 < i < |s| && !IsDigit(s[i]) :: IsDigit(s[i - 1]))
  }

  lemma DigitsAreCompact(s: string)
    requires s != [] && AllDigits(s)
    ensures Compact(s)
  {
  }

  lemma CompactJoin(x: string, c: char, y: string)
    requires Compact(x) && Compact(y) && !IsDigit(c) && !IsSpace(c)
    ensures Compact(x + [c] + y)
  {
    var s := x + [c] + y;
    assert forall i | 0 <= i < |x| :: s[i] == x[i];
    assert s[|x|] == c;
    assert forall i | |x| < i < |s| :: s[i] == y[i - |x| - 1];
  }

  /** Tokens at the even places and a dot or a colon at the odd ones, a token first and last. */
  predicate Alternates(f: Format) {
    && |f| % 2 == 1
    && forall i | 0 <= i < |f| ::
      if i % 2 == 0 then f[i].Token? else f[i].Literal? && (f[i].c == '.' || f[i].c == ':')
  }

  lemma RenderTwoSteps(f: Format, dt: DateTime)
    requires Renderable(dt) && |f| >= 2 && f[1].Literal?
    ensures Render(f, dt) == Piece(f[0], dt) + [f[1].c] + Render(f[2..], dt)
  {
    assert f[1..][1..] == f[2..];
  }

  lemma AlternatesTail(f: Format)
    requires Alternates(f) && |f| > 1
    ensures Alternates(f[2..])
  {
    assert forall i | 0 <= i < |f| - 2 :: f[2..][i] == f[i + 2] && (i + 2) % 2 == i % 2;
  }

  lemma {:induction false} RenderIsCompact(f: Format, dt: DateTime)
    requires Renderable(dt) && Alternates(f)
    ensures Compact(Render(f, dt))
    decreases |f|
  {
    var h := Piece(f[0], dt);
    DigitsAreCompact(h);
    if |f| == 1 {
      assert Render(f, dt) == h + Render([], dt);
    } else {
      RenderTwoSteps(f, dt);
      AlternatesTail(f);
      RenderIsCompact(f[2..], dt);
      CompactJoin(h, f[1].c, Render(f[2..], dt));
    }
  }

  /** arrow's widths: "YYYY" reads four digits, every other token at most two. */
  predicate ArrowWidths(f: Format) {
    forall i | 0 <= i < |f| && f[i].Token? ::
      if f[i].field == Year then f[i].minWidth == 4 && f[i].maxWidth == 4
      else f[i].minWidth <= 2 && f[i].maxWidth == 2
  }

  lemma DateFormatFacts(a: nat)
    requires a < |DateFormats|
    ensures Alternates(DateFormats[a]) && ArrowWidths(DateFormats[a])
    ensures forall a' | 0 <= a' < |DateFormats| :: SameShape(DateFormats[a], DateFormats[a'])
    ensures DateFormats[a][1] == Dot && DateFormats[a][2].Token? && DateFormats[a][3] == Dot
    ensures |DateFormats[a]| == 5 && DateFormats[a][0].field == Day && DateFormats[a][2].field == Month
    ensures DateFormats[a][4] == YearYYYY
  {
    var f := DateFormats[a];
    assert f[0] == DayDD || f[0] == DayD;
    assert f[1] == Dot && f[3] == Dot && f[4] == YearYYYY;
    assert f[2] == MonthMM || f[2] == MonthM;
  }

  lemma TimeFormatFacts(b: nat)
    requires b < |TimeFormats|
    ensures Alternates(TimeFormats[b]) && ArrowWidths(TimeFormats[b])
    ensures forall b' | 0 <= b' < |TimeFormats| :: SameShape(TimeFormats[b], TimeFormats[b'])
    ensures |TimeFormats[b]| == 3 && TimeFormats[b][0].field == Hour && TimeFormats[b][2].field == Minute
  {
    var f := TimeFormats[b];
    assert f[0] == HourHH || f[0] == HourH;
    assert f[1] == Dot || f[1] == Colon;
    assert f[2] == MinuteMM || f[2] == MinuteM;
  }

  lemma AlternatesIsSeparated(f: Format)
    requires Alternates(f)
    ensures Separated(f)
  {
  }

  /** A date format, a space and a time format make a separated format with arrow's widths. */
  lemma JoinFacts(f: Format, g: Format)
    requires Alternates(f) && Alternates(g) && ArrowWidths(f) && ArrowWidths(g)
    ensures Separated(f + [Space] + g) && ArrowWidths(f + [Space] + g)
  {
    var h := f + [Space] + g;
    forall i | 0 <= i < |h| ensures
      && (h[i].Literal? ==> !IsDigit(h[i].c))
      && (h[i].Token? && i + 1 < |h| ==> h[i + 1].Literal?)
    {
      if i < |f| {
        assert h[i] == f[i];
        if i + 1 < |f| {
          assert h[i + 1] == f[i + 1] && (i + 1) % 2 != i % 2;
        } else {
          assert h[i + 1] == Space;
        }
      } else if i > |f| {
        assert h[i] == g[i - |f| - 1];
        if i + 1 < |h| {
          assert h[i + 1] == g[i - |f|] && (i - |f|) % 2 != (i - |f| - 1) % 2;
        }
      }
    }
    forall i | 0 <= i < |h| && h[i].Token? ensures
      if h[i].field == Year then h[i].minWidth == 4 && h[i].maxWidth == 4
      else h[i].minWidth <= 2 && h[i].maxWidth == 2
    {
      if i < |f| {
        assert h[i] == f[i];
      } else if i > |f| {
        assert h[i] == g[i - |f| - 1];
      }
    }
  }

  lemma SameShapeJoin(f1: Format, g1: Format, f2: Format, g2: Format)
    requires SameShape(f1, g1) && SameShape(f2, g2)
    ensures SameShape(f1 + [Space] + f2, g1 + [Space] + g2)
  {
    var f, g := f1 + [Space] + f2, g1 + [Space] + g2;
    assert forall i | 0 <= i < |f1| :: f[i] == f1[i] && g[i] == g1[i];
    assert f[|f1|] == g[|f1|] == Space;
    assert forall i | |f1| < i < |f| :: f[i] == f2[i - |f1| - 1] && g[i] == g2[i - |f1| - 1];
  }

  /** A date-time whose year has at most four digits and every other field at most two. */
  predicate Bounded(dt: DateTime) {
    && Renderable(dt)
    && dt.year < 10000 && dt.month < 100 && dt.day < 100 && dt.hour < 100 && dt.minute < 100
  }

  lemma FitsOfBounded(f: Format, dt: DateTime)
    requires Bounded(dt) && ArrowWidths(f)
    ensures Fits(f, dt)
  {
    assert Pow10(2) == 100 && Pow10(4) == 10000;
    WidthIsLeast(dt.year, 4);
    WidthIsLeast(dt.month, 2);
    WidthIsLeast(dt.day, 2);
    WidthIsLeast(dt.hour, 2);
    WidthIsLeast(dt.minute, 2);
  }

  lemma {:induction false} RenderAppend(f: Format, g: Format, dt: DateTime)
    requires Renderable(dt)
    ensures Render(f + g, dt) == Render(f, dt) + Render(g, dt)
    decreases |f|
  {
    if f == [] {
      assert f + g == g;
    } else {
      assert (f + g)[1..] == f[1..] + g && (f + g)[0] == f[0];
      RenderAppend(f[1..], g, dt);
    }
  }

  /** Where the parts of `P + D + " " + T + Q` sit. */
  lemma Layout(n: string, P: string, D: string, T: string, Q: string)
    requires n == P + D + [' '] + T + Q
    ensures |n| == |P| + |D| + 1 + |T| + |Q|
    ensures forall i | 0 <= i < |P| :: n[i] == P[i]
    ensures n[|P|..|P| + |D|] == D && n[|P| + |D|] == ' '
    ensures n[|P| + |D| + 1..|P| + |D| + 1 + |T|] == T
    ensures n[|P|..|P| + |D| + 1 + |T|] == D + [' '] + T
    ensures forall i | 0 <= i < |Q| :: n[|P| + |D| + 1 + |T| + i] == Q[i]
  {
    assert n == P + (D + [' '] + T) + Q;
  }

  /** No match starts inside compact text: the character before is a digit,
      or a mark right after a digit. */
  lemma NoStartInside(n: string, lo: nat, x: string)
    requires lo + |x| <= |n| && n[lo..lo + |x|] == x && Compact(x)
    ensures forall q | lo < q <= lo + |x| :: !StartBoundary(n, q)
  {
    forall q | lo < q <= lo + |x| ensures !StartBoundary(n, q) {
      assert n[q - 1] == x[q - 1 - lo];
      if q - 1 > lo {
        assert n[q - 2] == x[q - 2 - lo];
      }
    }
  }

  /** A format opening with a digit token matches nowhere but at a digit. */
  lemma NoDigitNoMatchAt(n: string, q: nat, g: Format)
    requires q <= |n| && StartsWithDigits(g) && (q == |n| || !IsDigit(n[q]))
    ensures MatchElements(n, q, g).None?
  {
    assert DigitRun(n, q) == q;
  }

  /** At a time "H:m" followed by a space or the end, a format that wants
      "d.d." finds no second dot. */
  lemma TimeStartFails(n: string, q: nat, x: string, c: char, y: string, g: Format)
    requires q + |x| + 1 + |y| <= |n| && n[q..q + |x| + 1 + |y|] == x + [c] + y
    requires x != [] && y != [] && AllDigits(x) && AllDigits(y) && !IsDigit(c)
    requires q + |x| + 1 + |y| == |n| || (n[q + |x| + 1 + |y|] != '.' && !IsDigit(n[q + |x| + 1 + |y|]))
    requires |g| >= 4 && g[0].Token? && g[1].Literal? && g[2].Token? && g[3] == Dot
    ensures MatchElements(n, q, g).None?
  {
    var i1 := q + |x|;
    var i2, e := i1 + 1, i1 + 1 + |y|;
    assert forall j | q <= j < e :: n[j] == (x + [c] + y)[j - q];
    DigitRunIsUnique(n, q, i1);
    DigitRunIsUnique(n, i2, e);
    DigitRunIsDigits(n, q);
    DigitRunIsDigits(n, i2);
    assert g[1..][1..] == g[2..] && g[2..][1..] == g[3..];
    assert MatchElements(n, e, g[3..]).None?;
    MatchTokenHead(n, i2, g[2..], e);
    MatchLiteralHead(n, i1, g[1..]);
    MatchTokenHead(n, q, g, i1);
  }

  /** In `P + D + " " + T + Q`, with no digits in `P` and `Q`, a date format
      can match only where `D` starts. */
  lemma OnlyAtStart(n: string, P: string, D: string, T: string, Q: string, x: string, c: char, y: string, g: Format)
    requires n == P + D + [' '] + T + Q
    requires NoDigits(P) && NoDigits(Q) && (Q == [] || IsSpace(Q[0]))
    requires Compact(D) && T == x + [c] + y
    requires x != [] && y != [] && AllDigits(x) && AllDigits(y) && !IsDigit(c) && !IsSpace(c)
    requires StartsWithDigits(g) && |g| >= 4 && g[1].Literal? && g[2].Token? && g[3] == Dot
    ensures forall q: nat | q <= |n| && q != |P| :: MatchAt(n, q, g).None?
  {
    DigitsAreCompact(x);
    DigitsAreCompact(y);
    CompactJoin(x, c, y);
    Layout(n, P, D, T, Q);
    var q1 := |P| + |D| + 1;
    var e := q1 + |T|;
    NoStartInside(n, |P|, D);
    NoStartInside(n, q1, T);
    forall q: nat | q <= |n| && q != |P| ensures MatchAt(n, q, g).None? {
      if q < |P| {
        NoDigitNoMatchAt(n, q, g);
      } else if q == q1 {
        assert e < |n| ==> n[e] == Q[0];
        TimeStartFails(n, q, x, c, y, g);
      } else if q > e {
        assert q < |n| ==> n[q] == Q[q - e];
        NoDigitNoMatchAt(n, q, g);
      }
    }
  }

  /** A search that can match at one place only returns that match. */
  lemma SearchFindsOnly(n: string, g: Format, s: nat, parts: map<Field, nat>)
    requires s <= |n|
    requires forall q: nat | q <= |n| && q != s :: MatchAt(n, q, g).None?
    requires MatchAt(n, s, g).None? || MatchAt(n, s, g) == Some(parts)
    ensures Search(n, g).None? || Search(n, g) == Some(parts)
    ensures MatchAt(n, s, g).Some? ==> Search(n, g) == Some(parts)
  {
    if MatchAt(n, s, g).Some? {
      SearchIsLeftmost(n, g, s);
    } else {
      SearchFailsIffNoMatch(n, g);
    }
  }

  lemma RenderOne(f: Format, dt: DateTime)
    requires Renderable(dt) && |f| == 1
    ensures Render(f, dt) == Piece(f[0], dt)
  {
    assert f[1..] == [];
  }

  /** A date+time format is a date format, a space and a time format, and
      every date+time format has the shape of every other. */
  lemma DateTimeFormatFacts(a: nat, b: nat, dt: DateTime)
    requires a < |DateFormats| && b < |TimeFormats| && Renderable(dt)
    ensures var f := DateTimeFormats()[8 * a + b];
      && f == DateFormats[a] + [Space] + TimeFormats[b]
      && Render(f, dt) == Render(DateFormats[a], dt) + [' '] + Render(TimeFormats[b], dt)
      && Separated(f) && ArrowWidths(f)
      && forall j | 0 <= j < |DateTimeFormats()| :: SameShape(f, DateTimeFormats()[j])
  {
    DateTimeFormatsAreProduct();
    DateFormatFacts(a);
    TimeFormatFacts(b);
    JoinFacts(DateFormats[a], TimeFormats[b]);
    JoinIsWritten(DateFormats[a], TimeFormats[b], dt);
    DateTimeShapes(a, b);
  }

  lemma JoinIsWritten(f: Format, g: Format, dt: DateTime)
    requires Renderable(dt)
    ensures Render(f + [Space] + g, dt) == Render(f, dt) + [' '] + Render(g, dt)
  {
    var F, G := Render(f, dt), Render(g, dt);
    assert Render([Space], dt) == [' '] by {
      assert [Space][1..] == [];
    }
    assert Render(f + [Space], dt) == F + [' '] by {
      RenderAppend(f, [Space], dt);
    }
    RenderAppend(f + [Space], g, dt);
  }

  lemma DateTimeShapes(a: nat, b: nat)
    requires a < |DateFormats| && b < |TimeFormats|
    ensures forall j | 0 <= j < |DateTimeFormats()| :: SameShape(DateTimeFormats()[8 * a + b], DateTimeFormats()[j])
  {
    DateTimeFormatsAreProduct();
    DateFormatFacts(a);
    TimeFormatFacts(b);
    forall j | 0 <= j < |DateTimeFormats()| ensures SameShape(DateTimeFormats()[8 * a + b], DateTimeFormats()[j]) {
      assert j == 8 * (j / 8) + j % 8;
      SameShapeJoin(DateFormats[a], DateFormats[j / 8], TimeFormats[b], TimeFormats[j % 8]);
    }
  }

  /** Every date+time format matches at the start of a written date-time
      either not at all or with exactly its fields; the format it was written
      with matches. */
  lemma DateTimeMatchesAtStart(n: string, P: string, Q: string, dt: DateTime, a: nat, b: nat)
    requires a < |DateFormats| && b < |TimeFormats| && Bounded(dt)
    requires n == P + Render(DateFormats[a], dt) + [' '] + Render(TimeFormats[b], dt) + Q
    requires P == [] || IsSpace(P[|P| - 1])
    requires Q == [] || IsSpace(Q[0])
    ensures forall j | 0 <= j < |DateTimeFormats()| ::
      MatchAt(n, |P|, DateTimeFormats()[j]).None? ||
      MatchAt(n, |P|, DateTimeFormats()[j]) == Some(PartsOf(DateTimeFormats()[8 * a + b], dt))
    ensures MatchAt(n, |P|, DateTimeFormats()[8 * a + b]) == Some(PartsOf(DateTimeFormats()[8 * a + b], dt))
  {
    var D, T := Render(DateFormats[a], dt), Render(TimeFormats[b], dt);
    var f := DateTimeFormats()[8 * a + b];
    var R := Render(f, dt);
    assert R == D + [' '] + T && Separated(f) && Fits(f, dt)
      && forall j | 0 <= j < |DateTimeFormats()| :: SameShape(f, DateTimeFormats()[j]) by {
      DateTimeFormatFacts(a, b, dt);
      FitsOfBounded(f, dt);
    }
    var e := |P| + |R|;
    assert e <= |n| && n[|P|..e] == R && (e == |n| || !IsDigit(n[e]))
      && StartBoundary(n, |P|) && EndBoundary(n, e) by {
      Layout(n, P, D, T, Q);
      assert e < |n| ==> n[e] == Q[0];
      assert |P| > 0 ==> n[|P| - 1] == P[|P| - 1];
    }
    ShapesReadAlike(n, |P|, f, DateTimeFormats(), dt);
    RenderedIsRead(n, |P|, f, dt);
  }

  /** Likewise every date format at the start of a written date, which the
      space after it bounds. */
  lemma DateMatchesAtStart(n: string, P: string, Q: string, dt: DateTime, a: nat, b: nat)
    requires a < |DateFormats| && b < |TimeFormats| && Bounded(dt)
    requires n == P + Render(DateFormats[a], dt) + [' '] + Render(TimeFormats[b], dt) + Q
    requires P == [] || IsSpace(P[|P| - 1])
    ensures forall j | 0 <= j < |DateFormats| ::
      MatchAt(n, |P|, DateFormats[j]).None? || MatchAt(n, |P|, DateFormats[j]) == Some(PartsOf(DateFormats[a], dt))
  {
    var D, T := Render(DateFormats[a], dt), Render(TimeFormats[b], dt);
    var f := DateFormats[a];
    assert Separated(f) && forall j | 0 <= j < |DateFormats| :: SameShape(f, DateFormats[j]) by {
      DateFormatFacts(a);
      AlternatesIsSeparated(f);
    }
    assert |P| + |D| < |n| && n[|P|..|P| + |D|] == D && !IsDigit(n[|P| + |D|]) by {
      Layout(n, P, D, T, Q);
    }
    ShapesReadAlike(n, |P|, f, DateFormats, dt);
  }

  /** Every format of the shape of the one a text was written with, reading
      from where it was written, fails or reads the written fields. */
  lemma ShapesReadAlike(t: string, p: nat, f: Format, gs: seq<Format>, dt: DateTime)
    requires Renderable(dt) && Separated(f) && forall j | 0 <= j < |gs| :: SameShape(f, gs[j])
    requires p + |Render(f, dt)| <= |t| && t[p..p + |Render(f, dt)|] == Render(f, dt)
    requires p + |Render(f, dt)| == |t| || !IsDigit(t[p + |Render(f, dt)|])
    ensures forall j | 0 <= j < |gs| ::
      MatchAt(t, p, gs[j]).None? || MatchAt(t, p, gs[j]) == Some(PartsOf(f, dt))
  {
    forall j | 0 <= j < |gs| ensures MatchAt(t, p, gs[j]).None? || MatchAt(t, p, gs[j]) == Some(PartsOf(f, dt)) {
      ReadsRendered(t, p, f, gs[j], dt);
    }
  }

  /** A format that reads every field spells the date-time it was written from. */
  lemma SpelledOfAllFields(f: Format, dt: DateTime)
    requires Renderable(dt)
    requires {Year, Month, Day, Hour, Minute} <= FieldsOf(f)
    ensures Spelled(PartsOf(f, dt)) == dt
  {
  }

  lemma FieldOfToken(f: Format, k: nat)
    requires k < |f| && f[k].Token?
    ensures f[k].field in FieldsOf(f)
  {
  }

  /** The fields of a date+time format spell the whole date-time. */
  lemma SpelledDateTime(a: nat, b: nat, dt: DateTime)
    requires a < |DateFormats| && b < |TimeFormats| && Renderable(dt)
    ensures Spelled(PartsOf(DateTimeFormats()[8 * a + b], dt)) == dt
  {
    var d, t := DateFormats[a], TimeFormats[b];
    assert d[0] == DayDD || d[0] == DayD;
    assert d[2] == MonthMM || d[2] == MonthM;
    assert d[4] == YearYYYY;
    assert t[0] == HourHH || t[0] == HourH;
    assert t[2] == MinuteMM || t[2] == MinuteM;
    var f := DateTimeFormats()[8 * a + b];
    assert (8 * a + b) / 8 == a && (8 * a + b) % 8 == b;
    assert f[0] == d[0] && f[2] == d[2] && f[4] == d[4] && f[6] == t[0] && f[8] == t[2];
    FieldOfToken(f, 0);
    FieldOfToken(f, 2);
    FieldOfToken(f, 4);
    FieldOfToken(f, 6);
    FieldOfToken(f, 8);
    SpelledOfAllFields(f, dt);
  }

  /** The fields of a date format spell the date at midnight. */
  lemma SpelledDate(a: nat, dt: DateTime)
    requires a < |DateFormats| && Renderable(dt)
    ensures Spelled(PartsOf(DateFormats[a], dt)) == DateTime(dt.year, dt.month, dt.day, 0, 0)
  {
    DateFormatFields(a);
  }

  /** A format that opens with "d.d.", as every date format does. */
  predicate OpensWithDate(g: Format) {
    StartsWithDigits(g) && |g| >= 4 && g[1].Literal? && g[2].Token? && g[3] == Dot
  }

  lemma FormatsOpenWithDate()
    ensures forall j | 0 <= j < |DateFormats| :: OpensWithDate(DateFormats[j])
    ensures forall j | 0 <= j < |DateTimeFormats()| :: OpensWithDate(DateTimeFormats()[j])
  {
    FormatsStartWithDigits();
    forall j | 0 <= j < |DateTimeFormats()| ensures OpensWithDate(DateTimeFormats()[j]) {
      DateFormatFacts(j / 8);
      var g := DateTimeFormats()[j];
      assert g[1] == DateFormats[j / 8][1] && g[2] == DateFormats[j / 8][2] && g[3] == DateFormats[j / 8][3];
    }
    forall j | 0 <= j < |DateFormats| ensures OpensWithDate(DateFormats[j]) {
      DateFormatFacts(j);
    }
  }

  /** A token, a mark and a token are written as two digit runs around the mark. */
  lemma ThreeSplit(f: Format, dt: DateTime) returns (x: string, c: char, y: string)
    requires Renderable(dt) && |f| == 3 && f[0].Token? && f[1].Literal? && f[2].Token?
    ensures Render(f, dt) == x + [c] + y && c == f[1].c
    ensures x != [] && y != [] && AllDigits(x) && AllDigits(y)
  {
    RenderTwoSteps(f, dt);
    RenderOne(f[2..], dt);
    x, c, y := Piece(f[0], dt), f[1].c, Piece(f[2], dt);
  }

  /** A written time splits into its hour's digits, its mark and its minute's digits. */
  lemma TimeSplit(b: nat, dt: DateTime) returns (x: string, c: char, y: string)
    requires b < |TimeFormats| && Renderable(dt)
    ensures Render(TimeFormats[b], dt) == x + [c] + y
    ensures x != [] && y != [] && AllDigits(x) && AllDigits(y) && !IsDigit(c) && !IsSpace(c)
  {
    var f := TimeFormats[b];
    assert |f| == 3 && f[0].Token? && f[2].Token? && (f[1] == Dot || f[1] == Colon) by {
      TimeFormatFacts(b);
      assert f[1] == Dot || f[1] == Colon;
    }
    x, c, y := ThreeSplit(f, dt);
  }

  lemma DateIsCompact(a: nat, dt: DateTime)
    requires a < |DateFormats| && Renderable(dt)
    ensures Compact(Render(DateFormats[a], dt))
  {
    DateFormatFacts(a);
    RenderIsCompact(DateFormats[a], dt);
  }

  /** A search in `P + D + " " + T + Q` finds the match at the start of `D`
      or nothing, for every format of a list. */
  lemma SearchesAtStart(n: string, P: string, D: string, T: string, Q: string, x: string, c: char, y: string,
                        fs: seq<Format>, parts: map<Field, nat>)
    requires n == P + D + [' '] + T + Q
    requires NoDigits(P) && NoDigits(Q) && (Q == [] || IsSpace(Q[0]))
    requires Compact(D) && T == x + [c] + y
    requires x != [] && y != [] && AllDigits(x) && AllDigits(y) && !IsDigit(c) && !IsSpace(c)
    requires forall j | 0 <= j < |fs| :: OpensWithDate(fs[j])
    requires forall j | 0 <= j < |fs| :: MatchAt(n, |P|, fs[j]).None? || MatchAt(n, |P|, fs[j]) == Some(parts)
    ensures forall j | 0 <= j < |fs| :: Search(n, fs[j]).None? || Search(n, fs[j]) == Some(parts)
    ensures forall j | 0 <= j < |fs| :: MatchAt(n, |P|, fs[j]).Some? ==> Search(n, fs[j]) == Some(parts)
  {
    forall j | 0 <= j < |fs|
      ensures Search(n, fs[j]).None? || Search(n, fs[j]) == Some(parts)
      ensures MatchAt(n, |P|, fs[j]).Some? ==> Search(n, fs[j]) == Some(parts)
    {
      OnlyAtStart(n, P, D, T, Q, x, c, y, fs[j]);
      SearchFindsOnly(n, fs[j], |P|, parts);
    }
  }

  /** Every date+time format, searched for in a written date-time between
      digit-free text, finds the written fields or nothing; the format it was
      written with finds them. */
  lemma DateTimeSearches(n: string, P: string, Q: string, dt: DateTime, a: nat, b: nat)
    requires a < |DateFormats| && b < |TimeFormats| && Bounded(dt)
    requires n == P + Render(DateFormats[a], dt) + [' '] + Render(TimeFormats[b], dt) + Q
    requires NoDigits(P) && (P == [] || IsSpace(P[|P| - 1]))
    requires NoDigits(Q) && (Q == [] || IsSpace(Q[0]))
    ensures forall j | 0 <= j < |DateTimeFormats()| ::
      Search(n, DateTimeFormats()[j]).None? || Search(n, DateTimeFormats()[j]) == Some(PartsOf(DateTimeFormats()[8 * a + b], dt))
    ensures Search(n, DateTimeFormats()[8 * a + b]) == Some(PartsOf(DateTimeFormats()[8 * a + b], dt))
  {
    var D, T := Render(DateFormats[a], dt), Render(TimeFormats[b], dt);
    var fs, parts := DateTimeFormats(), PartsOf(DateTimeFormats()[8 * a + b], dt);
    var x, c, y := TimeSplit(b, dt);
    DateIsCompact(a, dt);
    assert (forall j | 0 <= j < |fs| :: MatchAt(n, |P|, fs[j]).None? || MatchAt(n, |P|, fs[j]) == Some(parts))
      && MatchAt(n, |P|, fs[8 * a + b]).Some? by {
      DateTimeMatchesAtStart(n, P, Q, dt, a, b);
    }
    assert forall j | 0 <= j < |fs| :: OpensWithDate(fs[j]) by {
      FormatsOpenWithDate();
    }
    SearchesAtStart(n, P, D, T, Q, x, c, y, fs, parts);
  }

  /** Likewise every date format finds the written date or nothing. */
  lemma DateSearches(n: string, P: string, Q: string, dt: DateTime, a: nat, b: nat)
    requires a < |DateFormats| && b < |TimeFormats| && Bounded(dt)
    requires n == P + Render(DateFormats[a], dt) + [' '] + Render(TimeFormats[b], dt) + Q
    requires NoDigits(P) && (P == [] || IsSpace(P[|P| - 1]))
    requires NoDigits(Q) && (Q == [] || IsSpace(Q[0]))
    ensures forall j | 0 <= j < |DateFormats| ::
      Search(n, DateFormats[j]).None? || Search(n, DateFormats[j]) == Some(PartsOf(DateFormats[a], dt))
  {
    var D, T := Render(DateFormats[a], dt), Render(TimeFormats[b], dt);
    var parts := PartsOf(DateFormats[a], dt);
    var x, c, y := TimeSplit(b, dt);
    DateIsCompact(a, dt);
    assert forall j | 0 <= j < |DateFormats| ::
      MatchAt(n, |P|, DateFormats[j]).None? || MatchAt(n, |P|, DateFormats[j]) == Some(parts) by {
      DateMatchesAtStart(n, P, Q, dt, a, b);
    }
    assert forall j | 0 <= j < |DateFormats| :: OpensWithDate(DateFormats[j]) by {
      FormatsOpenWithDate();
    }
    SearchesAtStart(n, P, D, T, Q, x, c, y, DateFormats, parts);
  }

  lemma TimeIsCompact(b: nat, dt: DateTime)
    requires b < |TimeFormats| && Renderable(dt)
    ensures Compact(Render(TimeFormats[b], dt))
  {
    var x, c, y := TimeSplit(b, dt);
    DigitsAreCompact(x);
    DigitsAreCompact(y);
    CompactJoin(x, c, y);
  }

  lemma ValidIsBounded(dt: DateTime)
    requires IsValid(dt)
    ensures Bounded(dt)
  {
  }

  /** Normalising a written date-time leaves the date and the time as they
      are and turns the whitespace between them into one space. */
  lemma NormalizeWritten(pre: string, D: string, gap: string, T: string, post: string)
    requires Compact(D) && Compact(T) && gap != [] && AllSpaces(gap)
    ensures Normalize(pre + D + gap + T + post) == Normalize(pre) + D + [' '] + T + Normalize(post)
  {
    NormalizeAppend(pre, D);
    NormalizeAppend(pre + D, gap);
    NormalizeAppend(pre + D + gap, T);
    NormalizeAppend(pre + D + gap + T, post);
    NoSpacesIsNormalized(D);
    NoSpacesIsNormalized(T);
    SpacesNormalizeToOne(gap);
  }

  /** On normalised text, a valid date-time written with any date+time format
      is what both loops over the date+time formats return. */
  lemma NormalizedDateTimeReadsBack(n: string, P: string, Q: string, dt: DateTime, a: nat, b: nat)
    requires a < |DateFormats| && b < |TimeFormats| && IsValid(dt)
    requires n == P + Render(DateFormats[a], dt) + [' '] + Render(TimeFormats[b], dt) + Q
    requires NoDigits(P) && (P == [] || IsSpace(P[|P| - 1]))
    requires NoDigits(Q) && (Q == [] || IsSpace(Q[0]))
    ensures TryFormats(n, DateTimeFormats(), false) == Some(dt)
    ensures TryAsWritten(n, DateTimeFormats(), false) == Found(dt)
  {
    var fs := DateTimeFormats();
    ValidIsBounded(dt);
    DateTimeSearches(n, P, Q, dt, a, b);
    SpelledDateTime(a, b, dt);
    assert Build(PartsOf(fs[8 * a + b], dt)) == Parsed(dt);
    assert forall j | 0 <= j < |fs| :: AttemptFormat(n, fs[j], false) == Unmatched || AttemptFormat(n, fs[j], false) == Parsed(dt);
    assert AttemptFormat(n, fs[8 * a + b], false) == Parsed(dt);
    TryFormatsFailsIffNoneParses(n, fs, false);
    TryFormatsIsAnAttempt(n, fs, false);
    TryAsWrittenWithoutRejection(n, fs, false);
  }

  /** On normalised text, a written date-time whose time is in range but
      whose date is not yields nothing from any format: the intended loops
      both return None, and the loop as written raises at the format it was
      written with at the latest. */
  lemma NormalizedBadDateReadsNothing(n: string, P: string, Q: string, dt: DateTime, a: nat, b: nat)
    requires a < |DateFormats| && b < |TimeFormats| && Bounded(dt)
    requires dt.hour < 24 && dt.minute < 60 && !IsValidDate(dt.year, dt.month, dt.day)
    requires n == P + Render(DateFormats[a], dt) + [' '] + Render(TimeFormats[b], dt) + Q
    requires NoDigits(P) && (P == [] || IsSpace(P[|P| - 1]))
    requires NoDigits(Q) && (Q == [] || IsSpace(Q[0]))
    ensures TryFormats(n, DateTimeFormats(), false) == None
    ensures TryFormats(n, DateFormats, true) == None
    ensures TryAsWritten(n, DateTimeFormats(), false) == Raised
  {
    BadDateTimeFormats(n, P, Q, dt, a, b);
    BadDateFormats(n, P, Q, dt, a, b);
  }

  lemma BadDateTimeFormats(n: string, P: string, Q: string, dt: DateTime, a: nat, b: nat)
    requires a < |DateFormats| && b < |TimeFormats| && Bounded(dt)
    requires dt.hour < 24 && dt.minute < 60 && !IsValidDate(dt.year, dt.month, dt.day)
    requires n == P + Render(DateFormats[a], dt) + [' '] + Render(TimeFormats[b], dt) + Q
    requires NoDigits(P) && (P == [] || IsSpace(P[|P| - 1]))
    requires NoDigits(Q) && (Q == [] || IsSpace(Q[0]))
    ensures TryFormats(n, DateTimeFormats(), false) == None
    ensures TryAsWritten(n, DateTimeFormats(), false) == Raised
  {
    var fs := DateTimeFormats();
    var parts := PartsOf(fs[8 * a + b], dt);
    DateTimeSearches(n, P, Q, dt, a, b);
    assert Build(parts) == Rejected by {
      SpelledDateTime(a, b, dt);
    }
    NoneParses(n, fs, parts, false);
    TryAsWrittenRaisesWithoutParse(n, fs, false, 8 * a + b);
  }

  /** When every format finds nothing or the same fields, which Build
      rejects, no format parses. */
  lemma NoneParses(n: string, fs: seq<Format>, parts: map<Field, nat>, midday: bool)
    requires Build(parts) == Rejected
    requires forall j | 0 <= j < |fs| :: Search(n, fs[j]).None? || Search(n, fs[j]) == Some(parts)
    ensures forall j | 0 <= j < |fs| :: !AttemptFormat(n, fs[j], midday).Parsed?
    ensures TryFormats(n, fs, midday) == None
  {
    forall j | 0 <= j < |fs| ensures !AttemptFormat(n, fs[j], midday).Parsed? {
    }
    TryFormatsFailsIffNoneParses(n, fs, midday);
  }

  lemma BadDateFormats(n: string, P: string, Q: string, dt: DateTime, a: nat, b: nat)
    requires a < |DateFormats| && b < |TimeFormats| && Bounded(dt)
    requires !IsValidDate(dt.year, dt.month, dt.day)
    requires n == P + Render(DateFormats[a], dt) + [' '] + Render(TimeFormats[b], dt) + Q
    requires NoDigits(P) && (P == [] || IsSpace(P[|P| - 1]))
    requires NoDigits(Q) && (Q == [] || IsSpace(Q[0]))
    ensures TryFormats(n, DateFormats, true) == None
  {
    var parts := PartsOf(DateFormats[a], dt);
    DateSearches(n, P, Q, dt, a, b);
    assert Build(parts) == Rejected by {
      SpelledDate(a, dt);
    }
    NoneParses(n, DateFormats, parts, true);
  }

  /** Digit-free words before and after a date-time stay digit-free and
      stay separated from it by whitespace once normalised. */
  lemma SurroundingsNormalized(pre: string, post: string)
    requires NoDigits(pre) && (pre == [] || IsSpace(pre[|pre| - 1]))
    requires NoDigits(post) && (post == [] || IsSpace(post[0]))
    ensures var P := Normalize(pre); NoDigits(P) && (P == [] || IsSpace(P[|P| - 1]))
    ensures var Q := Normalize(post); NoDigits(Q) && (Q == [] || IsSpace(Q[0]))
  {
    NormalizeAfterKeepsNoDigits(pre, false);
    NormalizeAfterKeepsNoDigits(post, false);
    if pre != [] {
      NormalizeKeepsTrailingSpace(pre);
    }
    if post != [] {
      NormalizeKeepsLeadingSpace(post);
    }
  }

  /** The round trip: a valid date-time written with any of the date formats
      and any of the time formats, with whitespace between the two and
      digit-free words around them, is what filter_datetime returns, both as
      intended and as written. */
  lemma WrittenDateTimeReadsBack(pre: string, gap: string, post: string, dt: DateTime, a: nat, b: nat)
    requires a < |DateFormats| && b < |TimeFormats| && IsValid(dt)
    requires NoDigits(pre) && (pre == [] || IsSpace(pre[|pre| - 1]))
    requires gap != [] && AllSpaces(gap)
    requires NoDigits(post) && (post == [] || IsSpace(post[0]))
    ensures var input := pre + Render(DateFormats[a], dt) + gap + Render(TimeFormats[b], dt) + post;
      FilterDatetime(input) == Some(dt) && FilterDatetimeAsWritten(input) == Found(dt)
  {
    var D, T := Render(DateFormats[a], dt), Render(TimeFormats[b], dt);
    DateIsCompact(a, dt);
    TimeIsCompact(b, dt);
    NormalizeWritten(pre, D, gap, T, post);
    SurroundingsNormalized(pre, post);
    NormalizedDateTimeReadsBack(Normalize(pre + D + gap + T + post), Normalize(pre), Normalize(post), dt, a, b);
  }

  /** A date-time written the same way whose time is in range but whose date
      is not (day 0, month 13, day 31 of a 30-day month, ...): filter_datetime
      as intended returns None, and as written it raises. */
  lemma WrittenBadDateReadsNothing(pre: string, gap: string, post: string, dt: DateTime, a: nat, b: nat)
    requires a < |DateFormats| && b < |TimeFormats| && Bounded(dt)
    requires dt.hour < 24 && dt.minute < 60 && !IsValidDate(dt.year, dt.month, dt.day)
    requires NoDigits(pre) && (pre == [] || IsSpace(pre[|pre| - 1]))
    requires gap != [] && AllSpaces(gap)
    requires NoDigits(post) && (post == [] || IsSpace(post[0]))
    ensures var input := pre + Render(DateFormats[a], dt) + gap + Render(TimeFormats[b], dt) + post;
      FilterDatetime(input) == None && FilterDatetimeAsWritten(input) == Raised
  {
    var D, T := Render(DateFormats[a], dt), Render(TimeFormats[b], dt);
    DateIsCompact(a, dt);
    TimeIsCompact(b, dt);
    NormalizeWritten(pre, D, gap, T, post);
    SurroundingsNormalized(pre, post);
    NormalizedBadDateReadsNothing(Normalize(pre + D + gap + T + post), Normalize(pre), Normalize(post), dt, a, b);
  }

  /** A date format writes day, dot, month, dot, year. */
  lemma DateWrittenAs(a: nat, dt: DateTime, dd: string, mm: string, yyyy: string)
    requires a < |DateFormats| && Renderable(dt)
    requires RenderNumber(dt.day, if a < 2 then 2 else 1) == dd
    requires RenderNumber(dt.month, if a % 2 == 0 then 2 else 1) == mm
    requires RenderNumber(dt.year, 4) == yyyy
    ensures Render(DateFormats[a], dt) == dd + "." + mm + "." + yyyy
  {
    var f := DateFormats[a];
    assert |f| == 5 && f[1] == Dot && f[3] == Dot && f[0].Token? && f[2].Token? && f[4] == YearYYYY
      && f[0].field == Day && f[2].field == Month
      && f[0].minWidth == (if a < 2 then 2 else 1) && f[2].minWidth == (if a % 2 == 0 then 2 else 1) by {
      DateFormatFacts(a);
      assert f[0] == (if a < 2 then DayDD else DayD) && f[2] == (if a % 2 == 0 then MonthMM else MonthM);
    }
    FiveSplit(f, dt);
  }

  /** Five elements are written as their five pieces. */
  lemma FiveSplit(f: Format, dt: DateTime)
    requires Renderable(dt) && |f| == 5 && f[1].Literal? && f[3].Literal?
    ensures Render(f, dt) == Piece(f[0], dt) + [f[1].c] + Piece(f[2], dt) + [f[3].c] + Piece(f[4], dt)
  {
    RenderTwoSteps(f, dt);
    RenderTwoSteps(f[2..], dt);
    assert f[2..][2..] == f[4..];
    RenderOne(f[4..], dt);
  }

  /** A time format writes hour, mark, minute. */
  lemma TimeWrittenAs(b: nat, dt: DateTime, hh: string, mm: string)
    requires b < |TimeFormats| && Renderable(dt)
    requires RenderNumber(dt.hour, TimeFormats[b][0].minWidth) == hh
    requires RenderNumber(dt.minute, TimeFormats[b][2].minWidth) == mm
    ensures Render(TimeFormats[b], dt) == hh + [TimeFormats[b][1].c] + mm
  {
    TimeFormatFacts(b);
    var f := TimeFormats[b];
    RenderTwoSteps(f, dt);
    RenderOne(f[2..], dt);
  }

  /** A one-digit number is written as that digit, or zero-padded to two. */
  lemma OneDigitWritten(n: nat)
    requires n < 10
    ensures RenderNumber(n, 1) == [Digit(n)]
    ensures RenderNumber(n, 2) == ['0', Digit(n)]
  {
    assert Padded(n / 10, 0) == [];
    assert Padded(0, 0) == [] && Digit(0) == '0';
  }

  lemma TwoDigitsWritten(n: nat, minWidth: nat, d1: nat, d0: nat)
    requires 1 <= d1 < 10 && d0 < 10 && n == 10 * d1 + d0 && minWidth <= 2
    ensures RenderNumber(n, minWidth) == [Digit(d1), Digit(d0)]
  {
    assert n / 10 == d1 && n % 10 == d0;
    assert Width(d1) == 1;
    assert Padded(d1 / 10, 0) == [];
  }

  lemma FourDigitsWritten(n: nat, d3: nat, d2: nat, d1: nat, d0: nat)
    requires 1 <= d3 < 10 && d2 < 10 && d1 < 10 && d0 < 10
    requires n == 1000 * d3 + 100 * d2 + 10 * d1 + d0
    ensures RenderNumber(n, 4) == [Digit(d3), Digit(d2), Digit(d1), Digit(d0)]
  {
    var n1, n2 := 100 * d3 + 10 * d2 + d1, 10 * d3 + d2;
    assert n / 10 == n1 && n % 10 == d0;
    assert n1 / 10 == n2 && n1 % 10 == d1;
    assert n2 / 10 == d3 && n2 % 10 == d2;
    assert Width(d3) == 1 && Width(n2) == 2 && Width(n1) == 3 && Width(n) == 4;
    assert Padded(d3 / 10, 0) == [];
  }

  /** Digit-free words before and after a date-time, apart from it, and
      whitespace between its date and its time. */
  predicate Framed(pre: string, gap: string, post: string) {
    && NoDigits(pre) && (pre == [] || IsSpace(pre[|pre| - 1]))
    && gap != [] && AllSpaces(gap)
    && NoDigits(post) && (post == [] || IsSpace(post[0]))
  }

  /** The round trip on a given text, once its date and time are known to
      be written as `D` and `T`. */
  lemma ExampleReadsBack(input: string, pre: string, D: string, gap: string, T: string, post: string,
                         dt: DateTime, a: nat, b: nat)
    requires a < |DateFormats| && b < |TimeFormats| && IsValid(dt)
    requires Render(DateFormats[a], dt) == D && Render(TimeFormats[b], dt) == T
    requires Framed(pre, gap, post)
    requires input == pre + D + gap + T + post
    ensures FilterDatetime(input) == Some(dt) && FilterDatetimeAsWritten(input) == Found(dt)
  {
    WrittenDateTimeReadsBack(pre, gap, post, dt, a, b);
  }

  /** Likewise for a date the calendar does not have. */
  lemma ExampleReadsNothing(input: string, pre: string, D: string, gap: string, T: string, post: string,
                            dt: DateTime, a: nat, b: nat)
    requires a < |DateFormats| && b < |TimeFormats| && Bounded(dt)
    requires dt.hour < 24 && dt.minute < 60 && !IsValidDate(dt.year, dt.month, dt.day)
    requires Render(DateFormats[a], dt) == D && Render(TimeFormats[b], dt) == T
    requires Framed(pre, gap, post)
    requires input == pre + D + gap + T + post
    ensures FilterDatetime(input) == None && FilterDatetimeAsWritten(input) == Raised
  {
    WrittenBadDateReadsNothing(pre, gap, post, dt, a, b);
  }
}

/** The date-time cases of the project's tests, as instances of the round
    trip. Each is stated for every date-time with the expected fields. */
module DateTimeExamples {
  import opened Wrappers
  import opened Text
  import opened Calendar
  import opened DateTimes
  import opened DateTimeRoundTrip

  /** How each test text splits into the words around the date, the date,
      the whitespace and the time. */
  lemma DateTimeText()
    ensures "01.07.2023 18:30" == "" + "01.07.2023" + " " + "18:30" + ""
    ensures Framed("", " ", "")
  {
  }

  lemma OneDigitDateText()
    ensures "1.1.2023 18:30" == "" + "1.1.2023" + " " + "18:30" + ""
    ensures Framed("", " ", "")
  {
  }

  lemma PaddedText()
    ensures " 1.01.2023  18:30 " == " " + "1.01.2023" + "  " + "18:30" + " "
    ensures Framed(" ", "  ", " ")
  {
  }

  lemma DottedTimeText()
    ensures "01.1.2023 18.30" == "" + "01.1.2023" + " " + "18.30" + ""
    ensures Framed("", " ", "")
  {
  }

  lemma EmbeddedText()
    ensures "foo 01.01.2023   18:30 bar" == "foo " + "01.01.2023" + "   " + "18:30" + " bar"
    ensures Framed("foo ", "   ", " bar")
  {
  }

  lemma DayZeroText()
    ensures "0.5.2023 18:30" == "" + "0.5.2023" + " " + "18:30" + ""
    ensures Framed("", " ", "")
  {
  }

  lemma MonthThirteenText()
    ensures "7.13.2023 18:30" == "" + "7.13.2023" + " " + "18:30" + ""
    ensures Framed("", " ", "")
  {
  }

  lemma HalfPastSixWritten(dt: DateTime)
    requires Renderable(dt) && dt.hour == 18 && dt.minute == 30
    ensures Render(TimeFormats[0], dt) == "18:30"
    ensures Render(TimeFormats[1], dt) == "18.30"
  {
    assert "18" + [':'] + "30" == "18:30" && "18" + ['.'] + "30" == "18.30";
    TwoDigitsWritten(dt.hour, 2, 1, 8);
    TwoDigitsWritten(dt.minute, 2, 3, 0);
    TimeWrittenAs(0, dt, "18", "30");
    TimeWrittenAs(1, dt, "18", "30");
  }

  lemma JulyFirstWritten(dt: DateTime)
    requires Renderable(dt) && dt.year == 2023 && dt.month == 7 && dt.day == 1
    ensures Render(DateFormats[0], dt) == "01.07.2023"
  {
    assert "01" + "." + "07" + "." + "2023" == "01.07.2023";
    OneDigitWritten(dt.day);
    OneDigitWritten(dt.month);
    FourDigitsWritten(dt.year, 2, 0, 2, 3);
    DateWrittenAs(0, dt, "01", "07", "2023");
  }

  /** New Year's Day 2023 in each of the four date formats. */
  lemma NewYearWritten(dt: DateTime)
    requires Renderable(dt) && dt.year == 2023 && dt.month == 1 && dt.day == 1
    ensures Render(DateFormats[0], dt) == "01.01.2023"
    ensures Render(DateFormats[1], dt) == "01.1.2023"
    ensures Render(DateFormats[2], dt) == "1.01.2023"
    ensures Render(DateFormats[3], dt) == "1.1.2023"
  {
    assert "01" + "." + "01" + "." + "2023" == "01.01.2023";
    assert "01" + "." + "1" + "." + "2023" == "01.1.2023";
    assert "1" + "." + "01" + "." + "2023" == "1.01.2023";
    assert "1" + "." + "1" + "." + "2023" == "1.1.2023";
    OneDigitWritten(dt.day);
    FourDigitsWritten(dt.year, 2, 0, 2, 3);
    DateWrittenAs(0, dt, "01", "01", "2023");
    DateWrittenAs(1, dt, "01", "1", "2023");
    DateWrittenAs(2, dt, "1", "01", "2023");
    DateWrittenAs(3, dt, "1", "1", "2023");
  }

  lemma DayZeroWritten(dt: DateTime)
    requires Renderable(dt) && dt.year == 2023 && dt.month == 5 && dt.day == 0
    ensures Render(DateFormats[3], dt) == "0.5.2023"
  {
    assert "0" + "." + "5" + "." + "2023" == "0.5.2023";
    OneDigitWritten(dt.day);
    OneDigitWritten(dt.month);
    FourDigitsWritten(dt.year, 2, 0, 2, 3);
    DateWrittenAs(3, dt, "0", "5", "2023");
  }

  lemma MonthThirteenWritten(dt: DateTime)
    requires Renderable(dt) && dt.year == 2023 && dt.month == 13 && dt.day == 7
    ensures Render(DateFormats[3], dt) == "7.13.2023"
  {
    assert "7" + "." + "13" + "." + "2023" == "7.13.2023";
    OneDigitWritten(dt.day);
    TwoDigitsWritten(dt.month, 1, 1, 3);
    FourDigitsWritten(dt.year, 2, 0, 2, 3);
    DateWrittenAs(3, dt, "7", "13", "2023");
  }

  /** "01.07.2023 18:30" gives 2023-07-01 18:30. */
  lemma DateTimeExample()
    ensures FilterDatetime("01.07.2023 18:30") == Some(DateTime(2023, 7, 1, 18, 30))
    ensures FilterDatetimeAsWritten("01.07.2023 18:30") == Found(DateTime(2023, 7, 1, 18, 30))
  {
    var dt := DateTime(2023, 7, 1, 18, 30);
    DateTimeText();
    JulyFirstWritten(dt);
    HalfPastSixWritten(dt);
    ExampleReadsBack("01.07.2023 18:30", "", "01.07.2023", " ", "18:30", "", dt, 0, 0);
  }

  /** One-digit day and month: "1.1.2023 18:30" gives 2023-01-01 18:30. */
  lemma OneDigitDateExample()
    ensures FilterDatetime("1.1.2023 18:30") == Some(DateTime(2023, 1, 1, 18, 30))
    ensures FilterDatetimeAsWritten("1.1.2023 18:30") == Found(DateTime(2023, 1, 1, 18, 30))
  {
    var dt := DateTime(2023, 1, 1, 18, 30);
    OneDigitDateText();
    NewYearWritten(dt);
    HalfPastSixWritten(dt);
    ExampleReadsBack("1.1.2023 18:30", "", "1.1.2023", " ", "18:30", "", dt, 3, 0);
  }

  /** Surrounding and doubled whitespace: " 1.01.2023  18:30 " gives 2023-01-01 18:30. */
  lemma PaddedExample()
    ensures FilterDatetime(" 1.01.2023  18:30 ") == Some(DateTime(2023, 1, 1, 18, 30))
    ensures FilterDatetimeAsWritten(" 1.01.2023  18:30 ") == Found(DateTime(2023, 1, 1, 18, 30))
  {
    var dt := DateTime(2023, 1, 1, 18, 30);
    PaddedText();
    NewYearWritten(dt);
    HalfPastSixWritten(dt);
    ExampleReadsBack(" 1.01.2023  18:30 ", " ", "1.01.2023", "  ", "18:30", " ", dt, 2, 0);
  }

  /** A dot between hour and minute: "01.1.2023 18.30" gives 2023-01-01 18:30. */
  lemma DottedTimeExample()
    ensures FilterDatetime("01.1.2023 18.30") == Some(DateTime(2023, 1, 1, 18, 30))
    ensures FilterDatetimeAsWritten("01.1.2023 18.30") == Found(DateTime(2023, 1, 1, 18, 30))
  {
    var dt := DateTime(2023, 1, 1, 18, 30);
    DottedTimeText();
    NewYearWritten(dt);
    HalfPastSixWritten(dt);
    ExampleReadsBack("01.1.2023 18.30", "", "01.1.2023", " ", "18.30", "", dt, 1, 1);
  }

  /** Words around the date-time: "foo 01.01.2023   18:30 bar" gives 2023-01-01 18:30. */
  lemma EmbeddedExample()
    ensures FilterDatetime("foo 01.01.2023   18:30 bar") == Some(DateTime(2023, 1, 1, 18, 30))
    ensures FilterDatetimeAsWritten("foo 01.01.2023   18:30 bar") == Found(DateTime(2023, 1, 1, 18, 30))
  {
    var dt := DateTime(2023, 1, 1, 18, 30);
    EmbeddedText();
    NewYearWritten(dt);
    HalfPastSixWritten(dt);
    ExampleReadsBack("foo 01.01.2023   18:30 bar", "foo ", "01.01.2023", "   ", "18:30", " bar", dt, 0, 0);
  }

  /** Day 0: "0.5.2023 18:30" gives None as intended, and raises as written. */
  lemma DayZeroExample()
    ensures FilterDatetime("0.5.2023 18:30") == None
    ensures FilterDatetimeAsWritten("0.5.2023 18:30") == Raised
  {
    var dt := DateTime(2023, 5, 0, 18, 30);
    DayZeroText();
    DayZeroWritten(dt);
    HalfPastSixWritten(dt);
    ExampleReadsNothing("0.5.2023 18:30", "", "0.5.2023", " ", "18:30", "", dt, 3, 0);
  }

  /** Month 13: "7.13.2023 18:30" gives None as intended, and raises as written. */
  lemma MonthThirteenExample()
    ensures FilterDatetime("7.13.2023 18:30") == None
    ensures FilterDatetimeAsWritten("7.13.2023 18:30") == Raised
  {
    var dt := DateTime(2023, 13, 7, 18, 30);
    MonthThirteenText();
    MonthThirteenWritten(dt);
    HalfPastSixWritten(dt);
    ExampleReadsNothing("7.13.2023 18:30", "", "7.13.2023", " ", "18:30", "", dt, 3, 0);
  }
}
