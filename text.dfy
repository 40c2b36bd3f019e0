/** Character classes and the whitespace handling shared by the extractors:
    Python's `\s` / `str.isspace()`, `\d` (ASCII only here), `str.strip()`
    and the `re.sub(r"\s+", " ", s)` normalisation arrow applies. */
module Text {

  /** `str.isspace()`, which is also what `\s` matches in a `str` pattern
      and what `str.strip()` removes. */
  predicate IsSpace(c: char) {
    || c == ' '
    || '\t' <= c <= '\r'
    || '\U{1C}' <= c <= '\U{1F}'
    || c == '\U{85}' || c == '\U{A0}' || c == '\U{1680}'
    || '\U{2000}' <= c <= '\U{200A}'
    || c == '\U{2028}' || c == '\U{2029}' || c == '\U{202F}' || c == '\U{205F}' || c == '\U{3000}'
  }

  /** `\d`, restricted to the ASCII digits. */
  predicate IsDigit(c: char) {
    '0' <= c <= '9'
  }

  /** The decimal separators `[,.]` of the extractors' number pattern. */
  predicate IsSep(c: char) {
    c == ',' || c == '.'
  }

  predicate AllSpaces(s: string) {
    forall i | 0 <= i < |s| :: IsSpace(s[i])
  }

  predicate AllDigits(s: string) {
    forall i | 0 <= i < |s| :: IsDigit(s[i])
  }

  predicate NoDigits(s: string) {
    forall i | 0 <= i < |s| :: !IsDigit(s[i])
  }

  lemma AllDigitsAppend(a: string, b: string)
    requires AllDigits(a) && AllDigits(b)
    ensures AllDigits(a + b)
  {
    forall i | 0 <= i < |a + b| ensures IsDigit((a + b)[i]) {
      if i < |a| {
        assert (a + b)[i] == a[i];
      } else {
        assert (a + b)[i] == b[i - |a|];
      }
    }
  }

  /** The end of the maximal run of digits that starts at `i`. */
  function DigitRun(s: string, i: nat): (k: nat)
    requires i <= |s|
    ensures i <= k <= |s|
    ensures forall j | i <= j < k :: IsDigit(s[j])
    ensures k == |s| || !IsDigit(s[k])
    decreases |s| - i
  {
    if i < |s| && IsDigit(s[i]) then DigitRun(s, i + 1) else i
  }

  lemma DigitRunIsDigits(s: string, i: nat)
    requires i <= |s|
    ensures AllDigits(s[i..DigitRun(s, i)])
  {
    var k := DigitRun(s, i);
    assert forall j | 0 <= j < k - i :: s[i..k][j] == s[i + j];
  }

  /** The end of the maximal run of whitespace that starts at `i`. */
  function SpaceRun(s: string, i: nat): (k: nat)
    requires i <= |s|
    ensures i <= k <= |s|
    ensures forall j | i <= j < k :: IsSpace(s[j])
    ensures k == |s| || !IsSpace(s[k])
    decreases |s| - i
  {
    if i < |s| && IsSpace(s[i]) then SpaceRun(s, i + 1) else i
  }

  /** A run end is determined by its content: any `k` with digits before
      it and a non-digit at it is the run's end. */
  lemma {:induction false} DigitRunIsUnique(s: string, i: nat, k: nat)
    requires i <= k <= |s|
    requires forall j | i <= j < k :: IsDigit(s[j])
    requires k == |s| || !IsDigit(s[k])
    ensures DigitRun(s, i) == k
    decreases k - i
  {
    if i < k {
      DigitRunIsUnique(s, i + 1, k);
    }
  }

  lemma {:induction false} SpaceRunIsUnique(s: string, i: nat, k: nat)
    requires i <= k <= |s|
    requires forall j | i <= j < k :: IsSpace(s[j])
    requires k == |s| || !IsSpace(s[k])
    ensures SpaceRun(s, i) == k
    decreases k - i
  {
    if i < k {
      SpaceRunIsUnique(s, i + 1, k);
    }
  }

  /** The start of the maximal run of whitespace that ends at `k`, not
      looking before `lo`. */
  function SpaceRunBack(s: string, lo: nat, k: nat): (i: nat)
    requires lo <= k <= |s|
    ensures lo <= i <= k
    ensures forall j | i <= j < k :: IsSpace(s[j])
    ensures i == lo || !IsSpace(s[i - 1])
    decreases k
  {
    if k > lo && IsSpace(s[k - 1]) then SpaceRunBack(s, lo, k - 1) else k
  }

  /** How much leading whitespace `str.strip()` cuts off. */
  function StripOffset(s: string): (i: nat)
    ensures i <= |s|
  {
    SpaceRun(s, 0)
  }

  /** `str.strip()`: the result is a slice of `s` with only whitespace cut
      off either side, and it neither starts nor ends with whitespace. */
  function Strip(s: string): (r: string)
    ensures StripOffset(s) + |r| <= |s| && r == s[StripOffset(s)..StripOffset(s) + |r|]
    ensures forall j | 0 <= j < StripOffset(s) :: IsSpace(s[j])
    ensures forall j | StripOffset(s) + |r| <= j < |s| :: IsSpace(s[j])
    ensures r == [] || (!IsSpace(r[0]) && !IsSpace(r[|r| - 1]))
  {
    var i := SpaceRun(s, 0);
    var k := SpaceRunBack(s, i, |s|);
    assert i < k ==> s[i..k][0] == s[i] && s[i..k][k - i - 1] == s[k - 1];
    s[i..k]
  }

  /** `str.strip()` keeps every non-space character, in place. */
  lemma StripKeepsNonSpace(s: string, i: nat)
    requires i < |s| && !IsSpace(s[i])
    ensures StripOffset(s) <= i < StripOffset(s) + |Strip(s)|
    ensures Strip(s)[i - StripOffset(s)] == s[i]
  {
  }

  /** The whitespace run from `i`, as a slice. */
  lemma SpaceRunIsSpaces(s: string, i: nat)
    requires i <= |s|
    ensures AllSpaces(s[i..SpaceRun(s, i)])
  {
    var k := SpaceRun(s, i);
    forall a | 0 <= a < k - i ensures IsSpace(s[i..k][a]) {
      assert s[i..k][a] == s[i + a];
    }
  }

  /** Whitespace around a core that starts and ends with a non-space is
      exactly what `Strip` removes. */
  lemma StripSurrounded(w1: string, core: string, w2: string)
    requires AllSpaces(w1) && AllSpaces(w2)
    requires core != [] && !IsSpace(core[0]) && !IsSpace(core[|core| - 1])
    ensures Strip(w1 + core + w2) == core
  {
    var s := w1 + core + w2;
    var first, last := |w1|, |w1| + |core|;
    forall j | 0 <= j < first ensures IsSpace(s[j]) {
      assert s[j] == w1[j];
    }
    forall j | last <= j < |s| ensures IsSpace(s[j]) {
      assert s[j] == w2[j - last];
    }
    assert s[first] == core[0] && s[last - 1] == core[|core| - 1];
    SpaceRunIsUnique(s, 0, first);
    SpaceRunBackIsUnique(s, first, |s|, last);
    assert s[first..last] == core;
  }

  lemma {:induction false} SpaceRunBackIsUnique(s: string, lo: nat, k: nat, i: nat)
    requires lo <= i <= k <= |s|
    requires forall j | i <= j < k :: IsSpace(s[j])
    requires i == lo || !IsSpace(s[i - 1])
    ensures SpaceRunBack(s, lo, k) == i
    decreases k - i
  {
    if i < k {
      SpaceRunBackIsUnique(s, lo, k - 1, i);
    }
  }

  /** `re.sub(r"\s+", " ", s)`: every maximal run of whitespace becomes a
      single plain space. */
  function Normalize(s: string): (r: string)
    ensures |r| <= |s|
  {
    NormalizeAfter(s, false)
  }

  /** The normalisation of `s` when the text before it ended in whitespace
      (`inRun`), in which case a leading run of `s` adds nothing. */
  function NormalizeAfter(s: string, inRun: bool): (r: string)
    ensures |r| <= |s|
  {
    if s == [] then []
    else if IsSpace(s[0]) then
      (if inRun then [] else [' ']) + NormalizeAfter(s[1..], true)
    else [s[0]] + NormalizeAfter(s[1..], false)
  }

  /** A string is in normal form when its only whitespace is single plain spaces. */
  predicate IsNormalized(s: string) {
    && (forall i | 0 <= i < |s| && IsSpace(s[i]) :: s[i] == ' ')
    && (forall i | 0 <= i < |s| - 1 :: !(IsSpace(s[i]) && IsSpace(s[i + 1])))
  }

  /** Normalisation leaves only single plain spaces. */
  lemma {:induction false} NormalizeAfterIsNormalized(s: string, inRun: bool)
    ensures IsNormalized(NormalizeAfter(s, inRun))
    ensures NormalizeAfter(s, inRun) != [] ==>
      (IsSpace(NormalizeAfter(s, inRun)[0]) <==> !inRun && IsSpace(s[0]))
    ensures inRun && s != [] && IsSpace(s[0]) ==> NormalizeAfter(s, inRun) == NormalizeAfter(s[1..], true)
    decreases |s|
  {
    if s != [] {
      var r := NormalizeAfter(s, inRun);
      var nr := NormalizeAfter(s[1..], IsSpace(s[0]));
      NormalizeAfterIsNormalized(s[1..], IsSpace(s[0]));
      if IsSpace(s[0]) && inRun {
        assert r == nr;
        // nr cannot start with whitespace, as its own run flag is set
      } else {
        assert r == [r[0]] + nr;
        forall i | 0 <= i < |r| && IsSpace(r[i]) ensures r[i] == ' ' {
          if i > 0 {
            assert r[i] == nr[i - 1];
          }
        }
        forall i | 0 <= i < |r| - 1 ensures !(IsSpace(r[i]) && IsSpace(r[i + 1])) {
          assert r[i + 1] == nr[i];
          if i > 0 {
            assert r[i] == nr[i - 1];
          }
        }
      }
    }
  }

  lemma NormalizeIsNormalized(s: string)
    ensures IsNormalized(Normalize(s))
  {
    NormalizeAfterIsNormalized(s, false);
  }

  /** Normalisation is idempotent: a normalised string is left as it is. */
  lemma {:induction false} NormalizeKeepsNormalized(s: string)
    requires IsNormalized(s)
    ensures Normalize(s) == s
    decreases |s|
  {
    if s != [] {
      assert IsNormalized(s[1..]);
      NormalizeKeepsNormalized(s[1..]);
      if IsSpace(s[0]) {
        assert s[1..] == [] || !IsSpace(s[1..][0]);
        FlagIrrelevantBeforeNonSpace(s[1..]);
      }
    }
  }

  /** The run flag matters only when the text starts with whitespace. */
  lemma FlagIrrelevantBeforeNonSpace(s: string)
    requires s == [] || !IsSpace(s[0])
    ensures NormalizeAfter(s, true) == NormalizeAfter(s, false)
  {
  }

  lemma NormalizeIsIdempotent(s: string)
    ensures Normalize(Normalize(s)) == Normalize(s)
  {
    NormalizeIsNormalized(s);
    NormalizeKeepsNormalized(Normalize(s));
  }

  /** Normalisation of a concatenation: the second part is normalised with
      the run flag the first part leaves behind. */
  lemma {:induction false} NormalizeAfterAppend(a: string, b: string, inRun: bool)
    ensures NormalizeAfter(a + b, inRun) ==
      NormalizeAfter(a, inRun) + NormalizeAfter(b, if a == [] then inRun else IsSpace(a[|a| - 1]))
    decreases |a|
  {
    if a == [] {
      assert a + b == b;
    } else {
      var a', flag := a[1..], IsSpace(a[0]);
      var lead := if flag then (if inRun then [] else [' ']) else [a[0]];
      var endFlag := if a' == [] then flag else IsSpace(a'[|a'| - 1]);
      assert endFlag == IsSpace(a[|a| - 1]);
      NormalizeAfterConsAppend(a, b, inRun);
      NormalizeAfterAppend(a', b, flag);
      AppendIsAssociative(lead, NormalizeAfter(a', flag), NormalizeAfter(b, endFlag));
      calc {
        NormalizeAfter(a + b, inRun);
        lead + NormalizeAfter(a' + b, flag);
        lead + (NormalizeAfter(a', flag) + NormalizeAfter(b, endFlag));
        (lead + NormalizeAfter(a', flag)) + NormalizeAfter(b, endFlag);
      }
    }
  }

  lemma AppendIsAssociative(a: string, b: string, c: string)
    ensures a + (b + c) == (a + b) + c
  {
  }

  /** One step of the normalisation of `a + b`, `a` not empty. */
  lemma NormalizeAfterConsAppend(a: string, b: string, inRun: bool)
    requires a != []
    ensures var lead := if IsSpace(a[0]) then (if inRun then [] else [' ']) else [a[0]];
      && NormalizeAfter(a + b, inRun) == lead + NormalizeAfter(a[1..] + b, IsSpace(a[0]))
      && NormalizeAfter(a, inRun) == lead + NormalizeAfter(a[1..], IsSpace(a[0]))
  {
    assert (a + b)[1..] == a[1..] + b && (a + b)[0] == a[0];
  }

  /** Runs of whitespace never straddle a non-space, so normalisation
      distributes over a concatenation whose seam is not inside a run. */
  lemma NormalizeAppend(a: string, b: string)
    requires a == [] || b == [] || !IsSpace(a[|a| - 1]) || !IsSpace(b[0])
    ensures Normalize(a + b) == Normalize(a) + Normalize(b)
  {
    NormalizeAfterAppend(a, b, false);
    if a != [] && IsSpace(a[|a| - 1]) {
      FlagIrrelevantBeforeNonSpace(b);
    }
  }

  /** Whitespace that continues a run adds nothing. */
  lemma {:induction false} RunContinues(w: string)
    requires AllSpaces(w)
    ensures NormalizeAfter(w, true) == []
    decreases |w|
  {
    if w != [] {
      RunContinues(w[1..]);
    }
  }

  /** A non-empty run of whitespace normalises to one space. */
  lemma SpacesNormalizeToOne(w: string)
    requires w != [] && AllSpaces(w)
    ensures Normalize(w) == " "
  {
    RunContinues(w[1..]);
  }

  /** Normalisation brings in no digits: it only drops whitespace or turns it into spaces. */
  lemma {:induction false} NormalizeAfterKeepsNoDigits(s: string, inRun: bool)
    requires NoDigits(s)
    ensures NoDigits(NormalizeAfter(s, inRun))
    decreases |s|
  {
    if s != [] {
      assert NoDigits(s[1..]) by {
        forall i | 0 <= i < |s| - 1 ensures !IsDigit(s[1..][i]) {
          assert s[1..][i] == s[i + 1];
        }
      }
      NormalizeAfterKeepsNoDigits(s[1..], IsSpace(s[0]));
    }
  }

  /** Normalisation brings in no character other than the plain space. */
  lemma {:induction false} NormalizeAfterKeepsAbsent(s: string, inRun: bool, c: char)
    requires c != ' ' && forall i | 0 <= i < |s| :: s[i] != c
    ensures forall j | 0 <= j < |NormalizeAfter(s, inRun)| :: NormalizeAfter(s, inRun)[j] != c
    decreases |s|
  {
    if s != [] {
      forall i | 0 <= i < |s| - 1 ensures s[1..][i] != c {
        assert s[1..][i] == s[i + 1];
      }
      NormalizeAfterKeepsAbsent(s[1..], IsSpace(s[0]), c);
    }
  }

  /** Text that ends in whitespace still ends in a space once normalised. */
  lemma {:induction false} NormalizeKeepsTrailingSpace(s: string)
    requires s != [] && IsSpace(s[|s| - 1])
    ensures Normalize(s) != [] && Normalize(s)[|Normalize(s)| - 1] == ' '
    decreases |s|
  {
    var a := s[..|s| - 1];
    assert s == a + [s[|s| - 1]];
    NormalizeAfterAppend(a, [s[|s| - 1]], false);
    if a != [] && IsSpace(a[|a| - 1]) {
      NormalizeKeepsTrailingSpace(a);
    }
  }

  /** Text that starts with whitespace starts with a space once normalised. */
  lemma NormalizeKeepsLeadingSpace(s: string)
    requires s != [] && IsSpace(s[0])
    ensures Normalize(s) != [] && Normalize(s)[0] == ' '
  {
  }

  /** Text without whitespace is already in normal form. */
  lemma NoSpacesIsNormalized(s: string)
    requires forall i | 0 <= i < |s| :: !IsSpace(s[i])
    ensures Normalize(s) == s
  {
    NormalizeKeepsNormalized(s);
  }
}
