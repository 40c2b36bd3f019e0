/** `to_float` (tenere/main.py:27-31): a locale-tolerant decimal parser
    that answers NaN instead of raising. Numbers are exact decimals here,
    not IEEE doubles, and NaN is `None`. */
module Numeric {
  import opened Wrappers
  import opened Text

  /** The exact number `mantissa / 10^scale`. */
  datatype Decimal = Decimal(mantissa: int, scale: nat) {
    function Value(): real {
      mantissa as real / Pow10(scale) as real
    }
  }

  function Pow10(n: nat): (r: nat)
    ensures r >= 1
  {
    if n == 0 then 1 else 10 * Pow10(n - 1)
  }

  function DigitValue(c: char): nat
    requires IsDigit(c)
  {
    c as int - '0' as int
  }

  /** The integer a string of decimal digits spells, most significant first. */
  function DigitsValue(ds: string): (v: nat)
    requires AllDigits(ds)
    ensures v < Pow10(|ds|)
  {
    if ds == [] then 0
    else
      var init := ds[..|ds| - 1];
      assert AllDigits(init);
      var v := DigitsValue(init);
      assert 10 * v + DigitValue(ds[|ds| - 1]) < 10 * Pow10(|init|);
      10 * v + DigitValue(ds[|ds| - 1])
  }

  /** Appending a digit shifts the value one decimal place. */
  lemma DigitsValueAppend(ds: string, c: char)
    requires AllDigits(ds) && IsDigit(c)
    ensures DigitsValue(ds + [c]) == 10 * DigitsValue(ds) + DigitValue(c)
  {
    assert (ds + [c])[..|ds|] == ds;
  }

  predicate IsSign(c: char) {
    c == '+' || c == '-'
  }

  /** `value.replace(",", ".")`: every comma becomes a dot, nothing else moves. */
  function ReplaceCommas(s: string): (r: string)
    ensures |r| == |s|
    ensures forall i | 0 <= i < |s| :: r[i] == (if s[i] == ',' then '.' else s[i])
  {
    seq(|s|, i requires 0 <= i < |s| => if s[i] == ',' then '.' else s[i])
  }

  /** The unsigned literals this model gives a value to, described by their
      characters alone: only digits and dots, at least one digit, at most one
      dot ("12", "1.5", "1." and ".5", as `float()` accepts them). */
  predicate IsUnsignedLiteral(u: string) {
    && (exists i | 0 <= i < |u| :: IsDigit(u[i]))
    && (forall i | 0 <= i < |u| :: IsDigit(u[i]) || u[i] == '.')
    && (forall i, j | 0 <= i < j < |u| :: !(u[i] == '.' && u[j] == '.'))
  }

  /** An unsigned literal with an optional leading `+` or `-`. */
  predicate IsFloatLiteral(t: string) {
    IsUnsignedLiteral(if t != [] && IsSign(t[0]) then t[1..] else t)
  }

  /** Reads digits, then optionally a dot and more digits. */
  function ParseUnsigned(u: string): (r: Option<Decimal>)
    ensures r.Some? ==> r.value.mantissa >= 0
  {
    var k := DigitRun(u, 0);
    if k == |u| then
      if k > 0 then Some(Decimal(DigitsValue(u), 0))
      else None
    else if u[k] == '.' && DigitRun(u, k + 1) == |u| && (k > 0 || k + 1 < |u|) then
      var ds := u[..k] + u[k + 1..];
      assert forall i | 0 <= i < |ds| :: ds[i] == if i < k then u[i] else u[i + 1];
      Some(Decimal(DigitsValue(ds), |u| - k - 1))
    else None
  }

  /** `ParseUnsigned` succeeds on exactly the unsigned literals. */
  lemma ParseUnsignedAcceptsLiterals(u: string)
    ensures ParseUnsigned(u).Some? <==> IsUnsignedLiteral(u)
  {
    var k := DigitRun(u, 0);
    if k < |u| && u[k] == '.' {
      var e := DigitRun(u, k + 1);
      if e == |u| && (k > 0 || k + 1 < |u|) {
        assert IsDigit(u[if k > 0 then 0 else k + 1]);
      } else if e < |u| {
        assert !IsDigit(u[e]);
      }
    }
  }

  /** Python's `float()` on an already stripped literal. */
  function ParseLiteral(t: string): (r: Option<Decimal>)
    ensures r.Some? <==> IsFloatLiteral(t)
    ensures r.Some? && t[0] != '-' ==> r.value.mantissa >= 0
  {
    ParseUnsignedAcceptsLiterals(if t != [] && IsSign(t[0]) then t[1..] else t);
    if t != [] && IsSign(t[0]) then
      match ParseUnsigned(t[1..])
      case None => None
      case Some(d) => Some(if t[0] == '-' then Decimal(-d.mantissa, d.scale) else d)
    else ParseUnsigned(t)
  }

  /** `to_float`: commas read as dots, surrounding whitespace ignored, and
      `None` (Python's NaN) for anything that is not a literal. */
  function ToFloat(value: string): (r: Option<Decimal>)
    ensures r.Some? <==> IsFloatLiteral(Strip(ReplaceCommas(value)))
  {
    ParseLiteral(Strip(ReplaceCommas(value)))
  }

  /** The value a sign string gives a magnitude. */
  function Signed(sign: string, magnitude: nat): int {
    if sign != [] && sign[0] == '-' then -(magnitude as int) else magnitude
  }

  lemma ReplaceCommasAppend(a: string, b: string)
    ensures ReplaceCommas(a + b) == ReplaceCommas(a) + ReplaceCommas(b)
  {
    var r, ra, rb := ReplaceCommas(a + b), ReplaceCommas(a), ReplaceCommas(b);
    forall i | 0 <= i < |a + b| ensures r[i] == (ra + rb)[i] {
      if i < |a| {
        assert (a + b)[i] == a[i];
      } else {
        assert (a + b)[i] == b[i - |a|];
      }
    }
  }

  /** Text without commas is left as it is. */
  lemma ReplaceCommasWithoutCommas(s: string)
    requires forall i | 0 <= i < |s| :: s[i] != ','
    ensures ReplaceCommas(s) == s
  {
  }

  /** `float()`'s reading of `whole.fraction` and of `whole`. */
  lemma ParseUnsignedOfDigits(whole: string, fraction: string)
    requires AllDigits(whole) && AllDigits(fraction)
    ensures |whole| + |fraction| > 0 ==>
      ParseUnsigned(whole + "." + fraction) == Some(Decimal(DigitsValue(whole + fraction), |fraction|))
    ensures |whole| > 0 ==> ParseUnsigned(whole) == Some(Decimal(DigitsValue(whole), 0))
  {
    var u := whole + "." + fraction;
    DigitRunIsUnique(u, 0, |whole|);
    DigitRunIsUnique(u, |whole| + 1, |u|);
    assert u[..|whole|] == whole && u[|whole| + 1..] == fraction;
    DigitRunIsUnique(whole, 0, |whole|);
  }

  /** A leading sign negates (`-`) or keeps (`+`) the value of the rest. */
  lemma ParseLiteralSigned(sign: string, u: string, d: Decimal)
    requires |sign| <= 1 && (sign == [] || IsSign(sign[0]))
    requires u != [] && !IsSign(u[0]) && ParseUnsigned(u) == Some(d) && d.mantissa >= 0
    ensures ParseLiteral(sign + u) == Some(Decimal(Signed(sign, d.mantissa), d.scale))
  {
    if sign != "" {
      assert (sign + u)[1..] == u;
    } else {
      assert sign + u == u;
    }
  }

  /** `to_float` ignores whitespace around a comma-free literal. */
  lemma ToFloatOfCore(w1: string, core: string, w2: string)
    requires AllSpaces(w1) && AllSpaces(w2)
    requires forall i | 0 <= i < |core| :: core[i] != ','
    requires core != [] && !IsSpace(core[0]) && !IsSpace(core[|core| - 1])
    ensures ToFloat(w1 + core + w2) == ParseLiteral(core)
  {
    ReplaceCommasAppend(w1 + core, w2);
    ReplaceCommasAppend(w1, core);
    ReplaceCommasWithoutCommas(w1);
    ReplaceCommasWithoutCommas(core);
    ReplaceCommasWithoutCommas(w2);
    StripSurrounded(w1, core, w2);
  }

  /** A separator between comma-free text becomes a dot. */
  lemma ReplaceSeparator(pre: string, sep: char, post: string)
    requires forall i | 0 <= i < |pre| :: pre[i] != ','
    requires forall i | 0 <= i < |post| :: post[i] != ','
    requires IsSep(sep)
    ensures ReplaceCommas(pre + [sep] + post) == pre + "." + post
  {
    var s, t := pre + [sep] + post, pre + "." + post;
    forall i | 0 <= i < |s| ensures ReplaceCommas(s)[i] == t[i] {
      if i < |pre| {
        assert s[i] == pre[i] == t[i];
      } else if i > |pre| {
        assert s[i] == post[i - |pre| - 1] == t[i];
      }
    }
  }

  /** Replacing the commas beforehand changes nothing: `to_float` reads a
      comma exactly as it reads a dot. */
  lemma ToFloatCommaIsDot(s: string)
    ensures ToFloat(ReplaceCommas(s)) == ToFloat(s)
  {
    assert ReplaceCommas(ReplaceCommas(s)) == ReplaceCommas(s);
  }

  /** `float()` on `[sign] whole.fraction`. */
  lemma ParseLiteralOfFraction(sign: string, whole: string, fraction: string)
    requires |sign| <= 1 && (sign == [] || IsSign(sign[0]))
    requires AllDigits(whole) && AllDigits(fraction) && |whole| + |fraction| > 0
    ensures ParseLiteral(sign + whole + "." + fraction)
         == Some(Decimal(Signed(sign, DigitsValue(whole + fraction)), |fraction|))
  {
    var u := whole + "." + fraction;
    var d := Decimal(DigitsValue(whole + fraction), |fraction|);
    assert ParseUnsigned(u) == Some(d) by { ParseUnsignedOfDigits(whole, fraction); }
    assert u[0] == if whole == [] then '.' else whole[0];
    ParseLiteralSigned(sign, u, d);
    Regrouped(sign, whole, ".", fraction);
  }

  /** Concatenating four strings: every grouping gives the same string. */
  lemma Regrouped(a: string, b: string, c: string, d: string)
    ensures a + b + c + d == a + (b + c + d)
    ensures a + b + c + d == a + (b + c) + d
    ensures a + b + c + d == a + b + (c + d)
  {
  }

  /** `to_float` on `[ws] [sign] whole sep fraction [ws]`, with sep either `,`
      or `.`: the exact value of the literal, the comma read as a decimal
      point. Either `whole` or `fraction` may be empty, not both. */
  lemma ToFloatOfFraction(w1: string, sign: string, whole: string, sep: char, fraction: string, w2: string)
    requires AllSpaces(w1) && AllSpaces(w2)
    requires |sign| <= 1 && (sign == [] || IsSign(sign[0]))
    requires AllDigits(whole) && AllDigits(fraction) && |whole| + |fraction| > 0
    requires IsSep(sep)
    ensures ToFloat(w1 + sign + whole + [sep] + fraction + w2)
         == Some(Decimal(Signed(sign, DigitsValue(whole + fraction)), |fraction|))
  {
    var s := w1 + sign + whole + [sep] + fraction + w2;
    var core := sign + whole + "." + fraction;
    var head := w1 + sign + whole;
    assert s == head + [sep] + (fraction + w2) by { Regrouped(head, [sep], fraction, w2); }
    assert head + "." + (fraction + w2) == w1 + core + w2 by {
      Regrouped(head, ".", fraction, w2);
      Regrouped(w1, sign, whole, ".");
      Regrouped(w1, sign + whole + ".", fraction, w2);
      Regrouped(w1, sign + whole, ".", fraction);
    }
    NoCommas(w1, sign, whole);
    NoCommas(fraction, w2, []);
    assert fraction + w2 + [] == fraction + w2;
    ReplaceSeparator(w1 + sign + whole, sep, fraction + w2);
    ToFloatCommaIsDot(s);
    LiteralEnds(sign, whole, fraction);
    ToFloatOfCore(w1, core, w2);
    ParseLiteralOfFraction(sign, whole, fraction);
  }

  /** `to_float` on a bare `whole sep fraction`. */
  lemma ToFloatOfUnsigned(whole: string, sep: char, fraction: string)
    requires AllDigits(whole) && AllDigits(fraction) && |whole| + |fraction| > 0
    requires IsSep(sep)
    ensures ToFloat(whole + [sep] + fraction) == Some(Decimal(DigitsValue(whole + fraction), |fraction|))
  {
    assert "" + "" + whole + [sep] + fraction + "" == whole + [sep] + fraction;
    ToFloatOfFraction("", "", whole, sep, fraction, "");
  }

  /** Whitespace, signs and digits are not commas. */
  lemma NoCommas(a: string, b: string, c: string)
    requires forall i | 0 <= i < |a| :: IsSpace(a[i]) || IsSign(a[i]) || IsDigit(a[i])
    requires forall i | 0 <= i < |b| :: IsSpace(b[i]) || IsSign(b[i]) || IsDigit(b[i])
    requires forall i | 0 <= i < |c| :: IsSpace(c[i]) || IsSign(c[i]) || IsDigit(c[i])
    ensures forall i | 0 <= i < |a + b + c| :: (a + b + c)[i] != ','
  {
    forall i | 0 <= i < |a + b + c| ensures (a + b + c)[i] != ',' {
      if i < |a| {
        assert (a + b + c)[i] == a[i];
      } else if i < |a + b| {
        assert (a + b + c)[i] == b[i - |a|];
      } else {
        assert (a + b + c)[i] == c[i - |a + b|];
      }
    }
  }

  /** The literal `sign whole.fraction` holds no comma and no whitespace at its ends. */
  lemma LiteralEnds(sign: string, whole: string, fraction: string)
    requires |sign| <= 1 && (sign == [] || IsSign(sign[0]))
    requires AllDigits(whole) && AllDigits(fraction)
    ensures var core := sign + whole + "." + fraction;
      && (forall i | 0 <= i < |core| :: core[i] != ',')
      && !IsSpace(core[0]) && !IsSpace(core[|core| - 1])
  {
    var core := sign + whole + "." + fraction;
    forall i | 0 <= i < |core| ensures core[i] != ',' {
      if i < |sign| {
        assert core[i] == sign[i];
      } else if i < |sign| + |whole| {
        assert core[i] == whole[i - |sign|];
      } else if i > |sign| + |whole| {
        assert core[i] == fraction[i - |sign| - |whole| - 1];
      }
    }
    assert core[0] == if sign != [] then sign[0] else if whole != [] then whole[0] else '.';
    assert core[|core| - 1] == if fraction != [] then fraction[|fraction| - 1] else '.';
  }

  /** The literal `sign whole` holds no comma and no whitespace at its ends. */
  lemma IntegerEnds(sign: string, whole: string)
    requires |sign| <= 1 && (sign == [] || IsSign(sign[0]))
    requires AllDigits(whole) && |whole| > 0
    ensures var core := sign + whole;
      && (forall i | 0 <= i < |core| :: core[i] != ',')
      && !IsSpace(core[0]) && !IsSpace(core[|core| - 1])
  {
    NoCommas(sign, whole, []);
    assert sign + whole + [] == sign + whole;
    assert (sign + whole)[0] == if sign != [] then sign[0] else whole[0];
  }

  /** `float()` on `[sign] digits`. */
  lemma ParseLiteralOfInteger(sign: string, whole: string)
    requires |sign| <= 1 && (sign == [] || IsSign(sign[0]))
    requires AllDigits(whole) && |whole| > 0
    ensures ParseLiteral(sign + whole) == Some(Decimal(Signed(sign, DigitsValue(whole)), 0))
  {
    ParseUnsignedOfDigits(whole, "");
    ParseLiteralSigned(sign, whole, Decimal(DigitsValue(whole), 0));
  }

  /** `to_float` on `[ws] [sign] digits [ws]`: the integer the digits spell. */
  lemma ToFloatOfInteger(w1: string, sign: string, whole: string, w2: string)
    requires AllSpaces(w1) && AllSpaces(w2)
    requires |sign| <= 1 && (sign == [] || IsSign(sign[0]))
    requires AllDigits(whole) && |whole| > 0
    ensures ToFloat(w1 + sign + whole + w2) == Some(Decimal(Signed(sign, DigitsValue(whole)), 0))
  {
    Regrouped(w1, sign, whole, w2);
    IntegerEnds(sign, whole);
    ToFloatOfCore(w1, sign + whole, w2);
    ParseLiteralOfInteger(sign, whole);
  }
}

/** The documented examples of `to_float` (tests/test.py:32-52). */
module NumericExamples {
  import opened Wrappers
  import opened Text
  import opened Numeric

  lemma ToFloatExampleOne()
    ensures ToFloat("1") == Some(Decimal(1, 0))
  {
    assert "" + "" + "1" + "" == "1";
    assert DigitsValue("1") == 1;
    ToFloatOfInteger("", "", "1", "");
  }

  lemma ToFloatExampleThree()
    ensures ToFloat("3") == Some(Decimal(3, 0))
  {
    assert "" + "" + "3" + "" == "3";
    assert DigitsValue("3") == 3;
    ToFloatOfInteger("", "", "3", "");
  }

  lemma ToFloatExampleFifteen()
    ensures ToFloat("15") == Some(Decimal(15, 0))
  {
    var d := "1";
    assert "" + "" + (d + ['5']) + "" == "15";
    DigitsValueAppend(d, '5');
    assert DigitsValue(d + ['5']) == 15;
    assert Signed("", 15) == 15;
    ToFloatOfInteger("", "", d + ['5'], "");
  }

  lemma ToFloatExampleTwoComma()
    ensures ToFloat("2,2") == Some(Decimal(22, 1))
  {
    var d := "2";
    assert "" + "" + d + [','] + d + "" == "2,2";
    DigitsValueAppend(d, '2');
    assert d + d == d + ['2'];
    assert DigitsValue(d + d) == 22;
    assert Signed("", 22) == 22;
    ToFloatOfFraction("", "", d, ',', d, "");
  }

  lemma ToFloatExampleThreeDot()
    ensures ToFloat("3.3") == Some(Decimal(33, 1))
  {
    var d := "3";
    assert "" + "" + d + ['.'] + d + "" == "3.3";
    DigitsValueAppend(d, '3');
    assert d + d == d + ['3'];
    assert DigitsValue(d + d) == 33;
    assert Signed("", 33) == 33;
    ToFloatOfFraction("", "", d, '.', d, "");
  }

  lemma ToFloatExampleFourComma()
    ensures ToFloat("4,4") == Some(Decimal(44, 1))
  {
    var d := "4";
    assert "" + "" + d + [','] + d + "" == "4,4";
    DigitsValueAppend(d, '4');
    assert d + d == d + ['4'];
    assert DigitsValue(d + d) == 44;
    assert Signed("", 44) == 44;
    ToFloatOfFraction("", "", d, ',', d, "");
  }

  lemma ToFloatExampleSixComma()
    ensures ToFloat("6,6") == Some(Decimal(66, 1))
  {
    var d := "6";
    assert "" + "" + d + [','] + d + "" == "6,6";
    DigitsValueAppend(d, '6');
    assert d + d == d + ['6'];
    assert DigitsValue(d + d) == 66;
    assert Signed("", 66) == 66;
    ToFloatOfFraction("", "", d, ',', d, "");
  }

  lemma ToFloatExampleSevenDot()
    ensures ToFloat("7.7") == Some(Decimal(77, 1))
  {
    var d := "7";
    assert "" + "" + d + ['.'] + d + "" == "7.7";
    DigitsValueAppend(d, '7');
    assert d + d == d + ['7'];
    assert DigitsValue(d + d) == 77;
    assert Signed("", 77) == 77;
    ToFloatOfFraction("", "", d, '.', d, "");
  }

  lemma ToFloatExampleFourLeading()
    ensures ToFloat("  4.4") == Some(Decimal(44, 1))
  {
    var d := "4";
    assert "  " + "" + d + ['.'] + d + "" == "  4.4";
    DigitsValueAppend(d, '4');
    assert d + d == d + ['4'];
    assert DigitsValue(d + d) == 44;
    assert Signed("", 44) == 44;
    ToFloatOfFraction("  ", "", d, '.', d, "");
  }

  lemma ToFloatExampleFiveTrailing()
    ensures ToFloat("5.5   ") == Some(Decimal(55, 1))
  {
    var d := "5";
    assert "" + "" + d + ['.'] + d + "   " == "5.5   ";
    DigitsValueAppend(d, '5');
    assert d + d == d + ['5'];
    assert DigitsValue(d + d) == 55;
    assert Signed("", 55) == 55;
    ToFloatOfFraction("", "", d, '.', d, "   ");
  }

  lemma ToFloatExampleSixSurrounded()
    ensures ToFloat("   6.6   ") == Some(Decimal(66, 1))
  {
    var d := "6";
    assert "   " + "" + d + ['.'] + d + "   " == "   6.6   ";
    DigitsValueAppend(d, '6');
    assert d + d == d + ['6'];
    assert DigitsValue(d + d) == 66;
    assert Signed("", 66) == 66;
    ToFloatOfFraction("   ", "", d, '.', d, "   ");
  }

  lemma ToFloatExampleSevenNegative()
    ensures ToFloat("   -7.7   ") == Some(Decimal(-77, 1))
  {
    var d := "7";
    assert "   " + "-" + d + ['.'] + d + "   " == "   -7.7   ";
    DigitsValueAppend(d, '7');
    assert d + d == d + ['7'];
    assert DigitsValue(d + d) == 77;
    assert Signed("-", 77) == -77;
    ToFloatOfFraction("   ", "-", d, '.', d, "   ");
  }
}

/** The documented failures of `to_float` (tests/test.py:47-52). */
module NumericRejections {
  import opened Wrappers
  import opened Text
  import opened Numeric

  /** A character that no literal of the modelled grammar may contain
      anywhere (a letter, say) makes `to_float` answer NaN. */
  lemma ToFloatRejectsForeign(x: string, i: nat)
    requires i < |x|
    requires !IsDigit(x[i]) && !IsSep(x[i]) && !IsSign(x[i]) && !IsSpace(x[i])
    ensures ToFloat(x) == None
  {
    var r := ReplaceCommas(x);
    assert r[i] == x[i];
    StripKeepsNonSpace(r, i);
    NotLiteralWithForeign(Strip(r), i - StripOffset(r));
  }

  /** No literal holds a character other than a digit, a dot or a leading sign. */
  lemma NotLiteralWithForeign(t: string, a: nat)
    requires a < |t| && !IsDigit(t[a]) && t[a] != '.' && !IsSign(t[a])
    ensures !IsFloatLiteral(t)
  {
    if t != [] && IsSign(t[0]) {
      assert t[1..][a - 1] == t[a];
    }
  }

  /** No literal holds two dots. */
  lemma NotLiteralWithTwoDots(t: string, a: nat, b: nat)
    requires a < b < |t| && t[a] == '.' && t[b] == '.'
    ensures !IsFloatLiteral(t)
  {
    if t != [] && IsSign(t[0]) {
      assert t[1..][a - 1] == '.' && t[1..][b - 1] == '.';
    }
  }

  lemma ToFloatRejectsEmpty()
    ensures ToFloat("") == None
  {
  }

  lemma ToFloatRejectsKoira()
    ensures ToFloat("koira") == None
  {
    ToFloatRejectsForeign("koira", 0);
  }

  lemma ToFloatRejectsTrailingLetters()
    ensures ToFloat("9koira") == None
  {
    ToFloatRejectsForeign("9koira", 1);
  }

  lemma ToFloatRejectsLeadingLetters()
    ensures ToFloat("koira8") == None
  {
    ToFloatRejectsForeign("koira8", 0);
  }

  /** Text of digits, dots and signs reaches `float()` unchanged. */
  lemma ToFloatOfBare(x: string)
    requires x != []
    requires forall i | 0 <= i < |x| :: IsDigit(x[i]) || x[i] == '.' || IsSign(x[i])
    ensures ToFloat(x) == ParseLiteral(x)
  {
    assert "" + x + "" == x;
    ToFloatOfCore("", x, "");
  }

  lemma ToFloatRejectsSpaceAfterSign()
    ensures ToFloat("- 2") == None
  {
    var x := "- 2";
    assert ReplaceCommas(x) == x;
    assert Strip(x) == x by {
      assert "" + x + "" == x;
      StripSurrounded("", x, "");
    }
    assert x[1..][0] == ' ';
  }

  lemma ToFloatRejectsSigns()
    ensures ToFloat("+++") == None
  {
    var x := "+++";
    ToFloatOfBare(x);
    ParseUnsignedAcceptsLiterals(x[1..]);
    assert x[1..][0] == '+';
  }

  /** Two decimal separators, commas or dots, anywhere make `to_float`
      answer NaN. */
  lemma ToFloatRejectsTwoSeparators(x: string, i: nat, j: nat)
    requires i < j < |x|
    requires IsSep(x[i]) && IsSep(x[j])
    ensures ToFloat(x) == None
  {
    var r := ReplaceCommas(x);
    assert r[i] == '.' && r[j] == '.';
    StripKeepsNonSpace(r, i);
    StripKeepsNonSpace(r, j);
    NotLiteralWithTwoDots(Strip(r), i - StripOffset(r), j - StripOffset(r));
  }

  lemma ToFloatRejectsTwoDots()
    ensures ToFloat("1..2") == None
  {
    ToFloatRejectsTwoSeparators("1..2", 1, 2);
  }

  lemma ToFloatRejectsTwoCommas()
    ensures ToFloat("3,,4") == None
  {
    ToFloatRejectsTwoSeparators("3,,4", 1, 2);
  }
}
