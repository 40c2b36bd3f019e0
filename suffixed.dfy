/** The suffixed-quantity extractors `filter_km`, `filter_litres` and
    `filter_euros` (tenere/main.py:34-57). All three run one search,
    `re.search(r"(\d+[,.]?\d*)\s*MARKER", text, flags=re.IGNORECASE)`, and
    hand the captured number to `to_float`; they differ only in the marker. */
module Suffixed {
  import opened Wrappers
  import opened Text
  import opened Numeric
  import opened Leftmost

  /** A character class of the pattern, given by the characters it lists
      (`[e|E|€]` lists `e`, `|`, `E` and `€`; a plain letter lists itself). */
  type CharClass = string

  /** The unit marker that must follow the number: one class per character. */
  type Marker = seq<CharClass>

  /** Case folding under `re.IGNORECASE`, exact for the characters the three
      markers list: ASCII capitals fold to lower case, and the Kelvin sign
      folds to `k` as it does in Python's Unicode matching. */
  function Fold(c: char): (r: char)
    ensures 'a' <= r <= 'z' ==> ('a' <= c <= 'z' || 'A' <= c <= 'Z' || c == '\U{212A}')
    ensures !('a' <= c <= 'z' || 'A' <= c <= 'Z' || c == '\U{212A}') ==> r == c
  {
    if 'A' <= c <= 'Z' then (c as int + 32) as char
    else if c == '\U{212A}' then 'k'
    else c
  }

  /** `c` matches the class `cls` when it folds like one of its characters. */
  predicate ClassMatches(c: char, cls: CharClass)
  {
    cls != [] && (Fold(cls[0]) == Fold(c) || ClassMatches(c, cls[1..]))
  }

  /** The marker is spelled out in `text` starting at `k`. */
  predicate MarkerAt(text: string, k: nat, m: Marker)
  {
    k + |m| <= |text| && forall j | 0 <= j < |m| :: ClassMatches(text[k + j], m[j])
  }

  /** A marker the number pattern cannot run into: it is not empty and its
      first character is never a digit, a separator or whitespace. All three
      markers of the program are of this kind. */
  predicate WellFormedMarker(m: Marker)
  {
    |m| > 0 && forall c :: ClassMatches(c, m[0]) ==> !IsDigit(c) && !IsSep(c) && !IsSpace(c)
  }

  /** The end of `\d+[,.]?\d*` matched greedily from `i`. */
  function NumeralEnd(text: string, i: nat): (e: nat)
    requires i < |text| && IsDigit(text[i])
    ensures i < e <= |text|
  {
    var d := DigitRun(text, i);
    if d < |text| && IsSep(text[d]) then DigitRun(text, d + 1) else d
  }

  /** The pattern matches at `i`: a number, optional whitespace, the marker.
      Giving characters back from the greedy number or the whitespace never
      helps a well-formed marker, so the greedy reading decides. */
  predicate MatchesAt(text: string, m: Marker, i: nat)
  {
    i < |text| && IsDigit(text[i]) && MarkerAt(text, SpaceRun(text, NumeralEnd(text, i)), m)
  }

  /** Whether the pattern matches at each start of the text. */
  function Starts(text: string, m: Marker): (hits: seq<bool>)
    ensures |hits| == |text|
    ensures forall i | 0 <= i < |text| :: hits[i] == MatchesAt(text, m, i)
  {
    seq(|text|, i requires 0 <= i < |text| => MatchesAt(text, m, i))
  }

  /** The text `\d+[,.]?\d*` can capture: a digit, then digits with at most
      one separator among them. */
  predicate IsNumeral(s: string)
  {
    && |s| > 0 && IsDigit(s[0])
    && (forall i | 0 <= i < |s| :: IsDigit(s[i]) || IsSep(s[i]))
    && (forall i, j | 0 <= i < j < |s| :: !(IsSep(s[i]) && IsSep(s[j])))
  }

  /** `filter_suffixed_value`: the `to_float` value of the number in the
      leftmost match, or `None` (NaN) when the pattern matches nowhere. A
      match always yields a number, and never a negative one. */
  function SuffixedValue(text: string, m: Marker): (r: Option<Decimal>)
    ensures r.None? <==> forall i: nat | 0 <= i < |text| :: !MatchesAt(text, m, i)
    ensures r.Some? ==> r.value.mantissa >= 0
  {
    FirstHitFailsIffNoHit(Starts(text, m), 0);
    match FirstHit(Starts(text, m), 0)
    case None => None
    case Some(i) =>
      var e := NumeralEnd(text, i);
      NumeralEndIsNumeral(text, i);
      ToFloatOfNumeral(text[i..e]);
      ToFloat(text[i..e])
  }

  /** The greedy number is a numeral. */
  lemma NumeralEndIsNumeral(text: string, i: nat)
    requires i < |text| && IsDigit(text[i])
    ensures IsNumeral(text[i..NumeralEnd(text, i)])
  {
    var d := DigitRun(text, i);
    var s := text[i..NumeralEnd(text, i)];
    forall a | 0 <= a < |s| ensures IsDigit(s[a]) || (i + a == d && IsSep(s[a])) {
      assert s[a] == text[i + a];
    }
  }

  /** A numeral always reads as a number with no sign: `to_float` gives its
      digits, the separator read as a decimal point. */
  lemma ToFloatOfNumeral(s: string)
    requires IsNumeral(s)
    ensures var d := DigitRun(s, 0);
      d == |s| ==> ToFloat(s) == Some(Decimal(DigitsValue(s), 0))
    ensures var d := DigitRun(s, 0);
      d < |s| ==> (AllDigits(s[..d] + s[d + 1..])
        && ToFloat(s) == Some(Decimal(DigitsValue(s[..d] + s[d + 1..]), |s| - d - 1)))
    ensures ToFloat(s).Some? && ToFloat(s).value.mantissa >= 0
  {
    var d := DigitRun(s, 0);
    if d == |s| {
      ToFloatOfDigits(s);
    } else {
      SeparatedParts(s, d);
      ToFloatOfSeparated(s, d);
    }
  }

  lemma ToFloatOfDigits(s: string)
    requires |s| > 0 && AllDigits(s)
    ensures ToFloat(s) == Some(Decimal(DigitsValue(s), 0))
  {
    ToFloatOfInteger("", "", s, "");
    assert "" + "" + s + "" == s;
    assert Signed("", DigitsValue(s)) == DigitsValue(s);
  }

  lemma ToFloatOfSeparated(s: string, d: nat)
    requires 0 < d < |s| && IsSep(s[d]) && AllDigits(s[..d]) && AllDigits(s[d + 1..])
    ensures ToFloat(s) == Some(Decimal(DigitsValue(s[..d] + s[d + 1..]), |s| - d - 1))
  {
    assert s == s[..d] + [s[d]] + s[d + 1..];
    ToFloatOfUnsigned(s[..d], s[d], s[d + 1..]);
  }

  /** A numeral that is not all digits splits at its separator. */
  lemma SeparatedParts(s: string, d: nat)
    requires IsNumeral(s) && d == DigitRun(s, 0) && d < |s|
    ensures IsSep(s[d]) && AllDigits(s[..d]) && AllDigits(s[d + 1..])
    ensures AllDigits(s[..d] + s[d + 1..])
  {
    var whole, fraction := s[..d], s[d + 1..];
    assert AllDigits(fraction) by {
      forall a | 0 <= a < |fraction| ensures IsDigit(fraction[a]) {
        assert fraction[a] == s[d + 1 + a];
        assert !(IsSep(s[d]) && IsSep(s[d + 1 + a]));
      }
    }
    AllDigitsAppend(whole, fraction);
  }

  /** A match spelled out: the number `text[i..j]`, whitespace up to `k`,
      then the marker. */
  predicate IsMatch(text: string, m: Marker, i: nat, j: nat, k: nat)
  {
    && i < j <= k <= |text|
    && IsNumeral(text[i..j])
    && AllSpaces(text[j..k])
    && MarkerAt(text, k, m)
  }

  /** Greedy matching finds exactly the spelled-out matches, and for a
      well-formed marker the number and whitespace of a match at `i` are
      the greedy ones. */
  lemma MatchesAtIffIsMatch(text: string, m: Marker, i: nat)
    requires WellFormedMarker(m)
    ensures MatchesAt(text, m, i) ==>
      i < |text| && IsDigit(text[i]) && var e := NumeralEnd(text, i); IsMatch(text, m, i, e, SpaceRun(text, e))
    ensures forall j: nat, k: nat :: IsMatch(text, m, i, j, k) ==>
      MatchesAt(text, m, i) && j == NumeralEnd(text, i) && k == SpaceRun(text, j)
  {
    if MatchesAt(text, m, i) {
      var e := NumeralEnd(text, i);
      NumeralEndIsNumeral(text, i);
      SpaceRunIsSpaces(text, e);
    }
    forall j: nat, k: nat | IsMatch(text, m, i, j, k)
      ensures MatchesAt(text, m, i) && j == NumeralEnd(text, i) && k == SpaceRun(text, j)
    {
      IsMatchIsGreedy(text, m, i, j, k);
    }
  }

  lemma IsMatchIsGreedy(text: string, m: Marker, i: nat, j: nat, k: nat)
    requires WellFormedMarker(m) && IsMatch(text, m, i, j, k)
    ensures MatchesAt(text, m, i) && j == NumeralEnd(text, i) && k == SpaceRun(text, j)
  {
    assert text[i] == text[i..j][0];
    assert ClassMatches(text[k], m[0]) by {
      assert text[k + 0] == text[k];
    }
    SpacesBeforeMarker(text, m, j, k);
    NumeralIsGreedy(text, i, j);
  }

  /** The whitespace of a match runs up to the marker. */
  lemma SpacesBeforeMarker(text: string, m: Marker, j: nat, k: nat)
    requires WellFormedMarker(m) && j <= k <= |text|
    requires AllSpaces(text[j..k]) && MarkerAt(text, k, m)
    ensures SpaceRun(text, j) == k
    ensures !IsDigit(text[j]) && !IsSep(text[j])
  {
    assert ClassMatches(text[k], m[0]) by {
      assert text[k + 0] == text[k];
    }
    forall a | j <= a < k ensures IsSpace(text[a]) {
      assert text[j..k][a - j] == text[a];
    }
    SpaceRunIsUnique(text, j, k);
  }

  /** A numeral that no digit or separator follows is the greedy one. */
  lemma NumeralIsGreedy(text: string, i: nat, j: nat)
    requires i < j <= |text| && IsNumeral(text[i..j])
    requires j == |text| || (!IsDigit(text[j]) && !IsSep(text[j]))
    ensures IsDigit(text[i]) && NumeralEnd(text, i) == j
  {
    var s := text[i..j];
    assert text[i] == s[0];
    var d := DigitRun(text, i);
    assert forall a | i <= a < j :: text[a] == s[a - i];
    if d < j {
      assert IsSep(text[d]);
      forall a | d + 1 <= a < j ensures IsDigit(text[a]) {
        assert !(IsSep(s[d - i]) && IsSep(s[a - i]));
      }
      DigitRunIsUnique(text, d + 1, j);
    }
  }

  /** Leftmost match: no match gives `None`; otherwise the value is that of
      the number in the leftmost spelled-out match. */
  lemma SuffixedValueIsLeftmostMatch(text: string, m: Marker, i: nat, j: nat, k: nat)
    requires WellFormedMarker(m)
    requires IsMatch(text, m, i, j, k)
    requires forall a: nat, b: nat, c: nat | a < i :: !IsMatch(text, m, a, b, c)
    ensures SuffixedValue(text, m) == ToFloat(text[i..j])
  {
    IsMatchIsGreedy(text, m, i, j, k);
    forall a: nat | 0 <= a < i ensures !MatchesAt(text, m, a) {
      MatchesAtIffIsMatch(text, m, a);
    }
    FirstHitIsLeast(Starts(text, m), 0, i);
  }

  /** `None` exactly when no spelled-out match exists anywhere. */
  lemma SuffixedValueNoneIffNoMatch(text: string, m: Marker)
    requires WellFormedMarker(m)
    ensures SuffixedValue(text, m).None? <==>
      forall i: nat, j: nat, k: nat :: !IsMatch(text, m, i, j, k)
  {
    forall i: nat, j: nat, k: nat | IsMatch(text, m, i, j, k) ensures SuffixedValue(text, m).Some? {
      MatchesAtIffIsMatch(text, m, i);
    }
    if SuffixedValue(text, m).Some? {
      var i := FirstHit(Starts(text, m), 0).value;
      MatchesAtIffIsMatch(text, m, i);
      var e := NumeralEnd(text, i);
      assert IsMatch(text, m, i, e, SpaceRun(text, e));
    }
  }

  /** Text in which no character matches the marker's first class has no match. */
  lemma NoMarkerNoValue(text: string, m: Marker)
    requires |m| > 0
    requires forall a | 0 <= a < |text| :: !ClassMatches(text[a], m[0])
    ensures SuffixedValue(text, m) == None
  {
    forall i: nat | 0 <= i < |text| ensures !MatchesAt(text, m, i) {
      if i < |text| && IsDigit(text[i]) {
        var k := SpaceRun(text, NumeralEnd(text, i));
        if k < |text| {
          assert !ClassMatches(text[k + 0], m[0]);
        }
      }
    }
  }

  /** Round trip: text with no digits, then a number, optional whitespace and
      a spelling of the marker, gives back the number's `to_float` value,
      whatever follows. */
  lemma SuffixedValueOfSpelled(pre: string, num: string, ws: string, spelled: string, rest: string, m: Marker)
    requires WellFormedMarker(m)
    requires NoDigits(pre) && IsNumeral(num) && AllSpaces(ws)
    requires |spelled| == |m| && forall a | 0 <= a < |m| :: ClassMatches(spelled[a], m[a])
    ensures SuffixedValue(pre + num + ws + spelled + rest, m) == ToFloat(num)
  {
    var text := pre + num + ws + spelled + rest;
    var i, j, k := |pre|, |pre| + |num|, |pre| + |num| + |ws|;
    assert text[i..j] == num;
    assert text[j..k] == ws;
    forall a | 0 <= a < |m| ensures text[k + a] == spelled[a] {
    }
    assert IsMatch(text, m, i, j, k);
    forall a: nat, b: nat, c: nat | a < i ensures !IsMatch(text, m, a, b, c) {
      if a < b <= |text| {
        assert text[a] == text[a..b][0] == pre[a];
      }
    }
    SuffixedValueIsLeftmostMatch(text, m, i, j, k);
  }

  /** The test inputs' shape: `input + suffix` where the input is text
      without digits, a number and whitespace, and the suffix spells the
      marker. */
  lemma SuffixedValueOfInput(input: string, pre: string, num: string, ws: string, suffix: string, m: Marker)
    requires input == pre + num + ws
    requires WellFormedMarker(m)
    requires NoDigits(pre) && IsNumeral(num) && AllSpaces(ws)
    requires MarkerAt(suffix, 0, m) && |suffix| == |m|
    ensures SuffixedValue(input + suffix, m) == ToFloat(num)
  {
    assert input + suffix == pre + num + ws + suffix + [];
    forall a | 0 <= a < |m| ensures ClassMatches(suffix[a], m[a]) {
      assert suffix[0 + a] == suffix[a];
    }
    SuffixedValueOfSpelled(pre, num, ws, suffix, [], m);
  }

  lemma NumeralOfDigits(ds: string)
    requires |ds| > 0 && AllDigits(ds)
    ensures IsNumeral(ds)
  {
  }

  lemma NumeralOfParts(whole: string, sep: char, fraction: string)
    requires |whole| > 0 && AllDigits(whole) && IsSep(sep) && AllDigits(fraction)
    ensures IsNumeral(whole + [sep] + fraction)
  {
    var s := whole + [sep] + fraction;
    forall a | 0 <= a < |s| ensures IsDigit(s[a]) || (a == |whole| && IsSep(s[a])) {
      if a < |whole| {
        assert s[a] == whole[a];
      } else if a > |whole| {
        assert s[a] == fraction[a - |whole| - 1];
      }
    }
  }

  /** `filter_km`: the pattern's `km`. */
  const KmMarker: Marker := ["k", "m"]

  /** `filter_litres`: the class `[lL]`. */
  const LitreMarker: Marker := ["lL"]

  /** `filter_euros`: the class `[e|E|€]`, which lists `|` along with the
      letters, so a bar after a number also reads as euros. */
  const EuroMarker: Marker := ["e|E|€"]

  function FilterKm(text: string): (r: Option<Decimal>)
    ensures r.Some? ==> r.value.mantissa >= 0
  {
    SuffixedValue(text, KmMarker)
  }

  function FilterLitres(text: string): (r: Option<Decimal>)
    ensures r.Some? ==> r.value.mantissa >= 0
  {
    SuffixedValue(text, LitreMarker)
  }

  function FilterEuros(text: string): (r: Option<Decimal>)
    ensures r.Some? ==> r.value.mantissa >= 0
  {
    SuffixedValue(text, EuroMarker)
  }

  /** Folding sends exactly the two cases of an ASCII letter to its lower
      case, and the Kelvin sign along with `K`. */
  lemma FoldToLetter(c: char, x: char)
    requires 'a' <= x <= 'z'
    ensures Fold(c) == x <==>
      c == x || c as int == x as int - 32 || (x == 'k' && c == '\U{212A}')
  {
  }

  /** Characters other than letters fold only from themselves. */
  lemma FoldToOther(c: char, x: char)
    requires !('a' <= x <= 'z' || 'A' <= x <= 'Z' || x == '\U{212A}')
    ensures Fold(c) == x <==> c == x
  {
  }

  /** A class matches when the character folds like its first entry or
      matches the rest. */
  lemma ClassMatchesCons(c: char, x: char, rest: CharClass)
    ensures ClassMatches(c, [x] + rest) <==> Fold(x) == Fold(c) || ClassMatches(c, rest)
  {
    assert ([x] + rest)[1..] == rest;
  }

  /** `km` matches `k`, `K` or the Kelvin sign, then `m` or `M`. */
  lemma KmSpellings(text: string, k: nat)
    ensures MarkerAt(text, k, KmMarker) <==>
      k + 2 <= |text|
      && (text[k] == 'k' || text[k] == 'K' || text[k] == '\U{212A}')
      && (text[k + 1] == 'm' || text[k + 1] == 'M')
  {
    if k + 2 <= |text| {
      ClassMatchesCons(text[k], 'k', []);
      ClassMatchesCons(text[k + 1], 'm', []);
      assert KmMarker[0] == ['k'] + [] && KmMarker[1] == ['m'] + [];
      FoldToLetter(text[k], 'k');
      FoldToLetter(text[k + 1], 'm');
      assert MarkerAt(text, k, KmMarker) <==>
        ClassMatches(text[k + 0], KmMarker[0]) && ClassMatches(text[k + 1], KmMarker[1]);
    }
  }

  /** `[lL]` matches `l` or `L`. */
  lemma LitreSpellings(text: string, k: nat)
    ensures MarkerAt(text, k, LitreMarker) <==> k < |text| && (text[k] == 'l' || text[k] == 'L')
  {
    if k < |text| {
      var c := text[k];
      ClassMatchesCons(c, 'l', "L");
      ClassMatchesCons(c, 'L', []);
      assert LitreMarker[0] == ['l'] + "L" && "L" == ['L'] + [];
      FoldToLetter(c, 'l');
      assert MarkerAt(text, k, LitreMarker) <==> ClassMatches(text[k + 0], LitreMarker[0]);
    }
  }

  /** `[e|E|€]` matches `e`, `E`, `€` and `|`. */
  lemma EuroSpellings(text: string, k: nat)
    ensures MarkerAt(text, k, EuroMarker) <==>
      k < |text| && (text[k] == 'e' || text[k] == 'E' || text[k] == '€' || text[k] == '|')
  {
    if k < |text| {
      var c := text[k];
      ClassMatchesCons(c, 'e', "|E|€");
      ClassMatchesCons(c, '|', "E|€");
      ClassMatchesCons(c, 'E', "|€");
      ClassMatchesCons(c, '|', "€");
      ClassMatchesCons(c, '€', []);
      assert EuroMarker[0] == ['e'] + "|E|€" && "|E|€" == ['|'] + "E|€" && "E|€" == ['E'] + "|€"
        && "|€" == ['|'] + "€" && "€" == ['€'] + [];
      FoldToLetter(c, 'e');
      FoldToOther(c, '|');
      FoldToOther(c, '€');
      assert MarkerAt(text, k, EuroMarker) <==> ClassMatches(text[k + 0], EuroMarker[0]);
    }
  }

  /** The three markers are well formed, so the lemmas above apply to the
      three filters. */
  lemma MarkersAreWellFormed()
    ensures WellFormedMarker(KmMarker)
    ensures WellFormedMarker(LitreMarker)
    ensures WellFormedMarker(EuroMarker)
  {
    forall c | ClassMatches(c, KmMarker[0]) ensures !IsDigit(c) && !IsSep(c) && !IsSpace(c) {
      var t := [c, 'm'];
      KmSpellings(t, 0);
      assert ClassMatches(t[1], KmMarker[1]) by {
        ClassMatchesCons('m', 'm', []);
        assert KmMarker[1] == ['m'] + [];
      }
      assert MarkerAt(t, 0, KmMarker);
    }
    forall c | ClassMatches(c, LitreMarker[0]) ensures !IsDigit(c) && !IsSep(c) && !IsSpace(c) {
      LitreSpellings([c], 0);
      assert MarkerAt([c], 0, LitreMarker);
    }
    forall c | ClassMatches(c, EuroMarker[0]) ensures !IsDigit(c) && !IsSep(c) && !IsSpace(c) {
      EuroSpellings([c], 0);
      assert MarkerAt([c], 0, EuroMarker);
    }
  }
}

/** The documented behaviour of the extractors (tests/test.py:10-28, 54-77):
    a test number followed by a unit spelling reads back as the number, and
    followed by "foo" reads as NaN. */
module SuffixedExamples {
  import opened Wrappers
  import opened Text
  import opened Numeric
  import opened NumericExamples
  import opened Suffixed

  lemma DistanceWithCommaExample()
    ensures FilterKm("4,4" + "km") == Some(Decimal(44, 1))
  {
    assert SuffixedValue("4,4" + "km", KmMarker) == ToFloat("4,4") by {
      NumeralOfParts("4", ',', "4");
      assert "4" + [','] + "4" == "4,4" && "" + "4,4" + "" == "4,4";
      MarkersAreWellFormed();
      KmSpellings("km", 0);
      SuffixedValueOfInput("4,4", "", "4,4", "", "km", KmMarker);
    }
    ToFloatExampleFourComma();
  }

  lemma DistanceUpperCaseExample()
    ensures FilterKm(" 3  " + "KM") == Some(Decimal(3, 0))
  {
    ToFloatExampleThree();
    assert SuffixedValue(" 3  " + "KM", KmMarker) == ToFloat("3") by {
      NumeralOfDigits("3");
      assert " " + "3" + "  " == " 3  ";
      MarkersAreWellFormed();
      KmSpellings("KM", 0);
      SuffixedValueOfInput(" 3  ", " ", "3", "  ", "KM", KmMarker);
    }
  }

  lemma LitresExample()
    ensures FilterLitres("7.7 " + "L") == Some(Decimal(77, 1))
  {
    assert SuffixedValue("7.7 " + "L", LitreMarker) == ToFloat("7.7") by {
      NumeralOfParts("7", '.', "7");
      assert "7" + ['.'] + "7" == "7.7" && "" + "7.7" + " " == "7.7 ";
      MarkersAreWellFormed();
      LitreSpellings("L", 0);
      SuffixedValueOfInput("7.7 ", "", "7.7", " ", "L", LitreMarker);
    }
    ToFloatExampleSevenDot();
  }

  lemma EurosExample()
    ensures FilterEuros("6,6 " + "€") == Some(Decimal(66, 1))
  {
    assert SuffixedValue("6,6 " + "€", EuroMarker) == ToFloat("6,6") by {
      NumeralOfParts("6", ',', "6");
      assert "6" + [','] + "6" == "6,6" && "" + "6,6" + " " == "6,6 ";
      MarkersAreWellFormed();
      EuroSpellings("€", 0);
      SuffixedValueOfInput("6,6 ", "", "6,6", " ", "€", EuroMarker);
    }
    ToFloatExampleSixComma();
  }

  /** The quirk of `[e|E|€]`: a bar after a number reads as euros. */
  lemma EurosBarExample()
    ensures FilterEuros("15" + "|") == Some(Decimal(15, 0))
  {
    ToFloatExampleFifteen();
    assert SuffixedValue("15" + "|", EuroMarker) == ToFloat("15") by {
      NumeralOfDigits("15");
      assert "" + "15" + "" == "15";
      MarkersAreWellFormed();
      EuroSpellings("|", 0);
      SuffixedValueOfInput("15", "", "15", "", "|", EuroMarker);
    }
  }

  /** A number followed by "foo" has no unit: NaN for all three. */
  lemma FooIsNaNExample()
    ensures FilterKm("2 foo") == None
    ensures FilterLitres("2 foo") == None
    ensures FilterEuros("2 foo") == None
  {
    var t := "2 foo";
    forall a | 0 <= a < |t|
      ensures !ClassMatches(t[a], KmMarker[0])
      ensures !ClassMatches(t[a], LitreMarker[0])
      ensures !ClassMatches(t[a], EuroMarker[0])
    {
      KmSpellings([t[a], 'm'], 0);
      LitreSpellings([t[a]], 0);
      EuroSpellings([t[a]], 0);
      assert ClassMatches('m', KmMarker[1]) by {
        KmSpellings("km", 0);
      }
    }
    NoMarkerNoValue(t, KmMarker);
    NoMarkerNoValue(t, LitreMarker);
    NoMarkerNoValue(t, EuroMarker);
  }
}
