/**
 The base-course normaliser `extract_base_course`: a course label is lower-cased
 and stripped, split on the pattern `\s+\d+|[-–:]`, and the first piece, stripped
 again, is the base course ("Strategy 2: Cases" becomes "strategy").
 */
module Courses {
  import opened Wrappers
  import opened Text

  /** The single-character alternative `[-–:]`: hyphen-minus, en dash, colon. */
  predicate IsSeparator(c: char) {
    c == '-' || c == '\U{2013}' || c == ':'
  }

  /** Every character of `s[i..j]` is whitespace. */
  predicate AllSpace(s: string, i: nat, j: nat)
    requires i <= j <= |s|
  {
    forall k :: i <= k < j ==> IsSpace(s[k])
  }

  /** The alternative `\s+\d+` matches at position `i`: a whitespace run from `i` reaches a digit. */
  predicate SpaceDigitsAt(s: string, i: nat) {
    exists j :: i < j < |s| && AllSpace(s, i, j) && IsDigit(s[j])
  }

  /**
   The split pattern `\s+\d+|[-–:]` matches at position `i`. A match starts with
   a separator or with whitespace; a separator always starts one, and so does
   whitespace directly in front of a digit.
   */
  predicate CutAt(s: string, i: nat): (b: bool)
    ensures b ==> i < |s| && (IsSeparator(s[i]) || IsSpace(s[i]))
    ensures i < |s| && IsSeparator(s[i]) ==> b
    ensures i + 1 < |s| && IsSpace(s[i]) && IsDigit(s[i + 1]) ==> b
  {
    assert i + 1 < |s| && IsSpace(s[i]) ==> AllSpace(s, i, i + 1);
    i < |s| && (IsSeparator(s[i]) || SpaceDigitsAt(s, i))
  }

  /** The split pattern matches nowhere in `s`. */
  predicate HasNoCut(s: string) {
    forall i :: 0 <= i < |s| ==> !CutAt(s, i)
  }

  /** The shape of every base course. */
  predicate IsBaseCourse(s: string) {
    && (forall i :: 0 <= i < |s| ==> !IsUpper(s[i]) && !IsSeparator(s[i]))
    && (forall i :: 0 <= i < |s| - 1 ==> !(IsSpace(s[i]) && IsDigit(s[i + 1])))
    && (s == [] || (!IsSpace(s[0]) && !IsSpace(s[|s| - 1])))
  }

  /** The leftmost position at or after `i` where the split pattern matches, or `|s|` if none. */
  function FirstCut(s: string, i: nat): (k: nat)
    requires i <= |s|
    ensures i <= k <= |s|
    ensures k < |s| ==> CutAt(s, k)
    ensures forall m :: i <= m < k ==> !CutAt(s, m)
    decreases |s| - i
  {
    if i == |s| then |s| else if CutAt(s, i) then i else FirstCut(s, i + 1)
  }

  /** The leftmost-match position is unique, so any `k` with the leftmost-match property is the one `FirstCut` finds. */
  lemma FirstCutIsLeftmost(s: string, k: nat)
    requires k <= |s|
    requires k < |s| ==> CutAt(s, k)
    requires forall m :: 0 <= m < k ==> !CutAt(s, m)
    ensures FirstCut(s, 0) == k
  {
  }

  /** The label as it is split: lower-cased and stripped. */
  function Normalise(name: string): (t: string)
    ensures |t| <= |name| && NoUpper(t)
    ensures t == [] || (!IsSpace(t[0]) && !IsSpace(t[|t| - 1]))
  {
    StripKeepsNoUpper(Lower(name));
    Strip(Lower(name))
  }

  /**
   `extract_base_course`: None for a missing (NaN) label; otherwise the stripped
   piece of the normalised label in front of the first match of `\s+\d+|[-–:]`.
   */
  function ExtractBaseCourse(name: Option<string>): (r: Option<string>)
    ensures r.None? <==> name.None?
    ensures r.Some? ==> IsBaseCourse(r.value)
  {
    match name
    case None => None
    case Some(raw) =>
      var t := Normalise(raw);
      var k := FirstCut(t, 0);
      PrefixBeforeCutIsBase(raw, t, k);
      Some(Strip(t[..k]))
  }

  /** The piece in front of the leftmost match, once stripped, has the shape of a base course. */
  lemma PrefixBeforeCutIsBase(raw: string, t: string, k: nat)
    requires t == Normalise(raw) && k == FirstCut(t, 0)
    ensures IsBaseCourse(Strip(t[..k]))
  {
    StrippedPrefixIsBase(t, k);
  }

  /** No character of a match-free stretch of a lower-case string is upper-case or a separator. */
  lemma NoCutStretchHasNoSeparator(t: string, i: nat, j: nat)
    requires i <= j <= |t| && NoUpper(t)
    requires forall m :: i <= m < j ==> !CutAt(t, m)
    ensures forall m :: 0 <= m < j - i ==> !IsUpper(t[i..j][m]) && !IsSeparator(t[i..j][m])
  {
    forall m | 0 <= m < j - i
      ensures !IsUpper(t[i..j][m]) && !IsSeparator(t[i..j][m])
    {
      assert t[i..j][m] == t[i + m];
      assert !CutAt(t, i + m);
    }
  }

  /** In a match-free stretch, no whitespace character is directly followed by a digit. */
  lemma NoCutStretchHasNoSpaceDigit(t: string, i: nat, j: nat)
    requires i <= j <= |t|
    requires forall m :: i <= m < j ==> !CutAt(t, m)
    ensures forall m :: 0 <= m < j - i - 1 ==> !(IsSpace(t[i..j][m]) && IsDigit(t[i..j][m + 1]))
  {
    forall m | 0 <= m < j - i - 1
      ensures !(IsSpace(t[i..j][m]) && IsDigit(t[i..j][m + 1]))
    {
      assert t[i..j][m] == t[i + m] && t[i..j][m + 1] == t[i + m + 1];
      assert AllSpace(t, i + m, i + m + 1) ==> !IsDigit(t[i + m + 1]) by {
        assert !CutAt(t, i + m);
      }
    }
  }

  /** A stripped prefix of a lower-case string, in which the split pattern matches nowhere, has the shape of a base course. */
  lemma StrippedPrefixIsBase(t: string, k: nat)
    requires k <= |t| && NoUpper(t)
    requires forall m :: 0 <= m < k ==> !CutAt(t, m)
    ensures IsBaseCourse(Strip(t[..k]))
  {
    var i, j := StripSpan(t[..k]);
    assert Strip(t[..k]) == t[i..j];
    NoCutStretchHasNoSeparator(t, i, j);
    NoCutStretchHasNoSpaceDigit(t, i, j);
  }

  /** A string of base-course shape contains no match of the split pattern. */
  lemma BaseCourseHasNoCut(s: string)
    requires IsBaseCourse(s)
    ensures HasNoCut(s)
  {
    forall i, j | 0 <= i < j < |s| && AllSpace(s, i, j)
      ensures !IsDigit(s[j])
    {
      assert IsSpace(s[j - 1]);
    }
  }

  /**
   For a present label, the base course is the stripped prefix of the normalised
   label up to the leftmost match of `\s+\d+|[-–:]` (the whole label when there is none).
   */
  lemma ExtractIsPrefixBeforeLeftmostMatch(raw: string, k: nat)
    requires k <= |Normalise(raw)|
    requires k < |Normalise(raw)| ==> CutAt(Normalise(raw), k)
    requires forall m :: 0 <= m < k ==> !CutAt(Normalise(raw), m)
    ensures ExtractBaseCourse(Some(raw)) == Some(Strip(Normalise(raw)[..k]))
  {
    FirstCutIsLeftmost(Normalise(raw), k);
  }

  /** A base course is its own base course. */
  lemma BaseOfBase(b: string)
    requires IsBaseCourse(b)
    ensures ExtractBaseCourse(Some(b)) == Some(b)
  {
    LowerOfLowered(b);
    StripOfStripped(b);
    BaseCourseHasNoCut(b);
    FirstCutIsLeftmost(b, |b|);
    assert b[..|b|] == b;
  }

  /** `extract_base_course` is idempotent. */
  lemma ExtractIdempotent(name: Option<string>)
    ensures ExtractBaseCourse(ExtractBaseCourse(name)) == ExtractBaseCourse(name)
  {
    if name.Some? {
      BaseOfBase(ExtractBaseCourse(name).value);
    }
  }

  /** Lower-casing does not change which positions the split pattern matches at. */
  lemma LowerKeepsCuts(s: string)
    ensures forall i :: 0 <= i < |s| ==> (CutAt(Lower(s), i) <==> CutAt(s, i))
  {
    var l := Lower(s);
    forall k | 0 <= k < |s|
      ensures SameClass(l[k], s[k])
    {
      assert l[k] == ToLower(s[k]);
    }
    SameClassesSameCuts(l, s);
  }

  /** Two characters that the split pattern cannot tell apart. */
  predicate SameClass(a: char, b: char) {
    IsSpace(a) == IsSpace(b) && IsDigit(a) == IsDigit(b) && IsSeparator(a) == IsSeparator(b)
  }

  /** The split pattern matches at the same positions of two strings whose characters it cannot tell apart. */
  lemma SameClassesSameCuts(s: string, t: string)
    requires |s| == |t|
    requires forall k :: 0 <= k < |s| ==> SameClass(s[k], t[k])
    ensures forall i :: 0 <= i < |s| ==> (CutAt(s, i) <==> CutAt(t, i))
  {
    forall i, j | 0 <= i < j < |s|
      ensures AllSpace(s, i, j) <==> AllSpace(t, i, j)
    {
      assert forall k :: i <= k < j ==> SameClass(s[k], t[k]);
    }
  }

  /**
   The split pattern cannot match inside a stem that has no match and ends in a
   non-space character, whatever follows the stem.
   */
  lemma ExtendedStemHasNoCut(ls: string, t: string)
    requires ls != [] && !IsSpace(ls[|ls| - 1])
    requires HasNoCut(ls)
    requires |ls| <= |t| && t[..|ls|] == ls
    ensures forall m :: 0 <= m < |ls| ==> !CutAt(t, m)
  {
    forall m | 0 <= m < |ls|
      ensures !CutAt(t, m)
    {
      assert t[m] == ls[m];
      assert !CutAt(ls, m);
      forall e | m < e < |ls| && AllSpace(t, m, e)
        ensures !IsDigit(t[e])
      {
        assert AllSpace(ls, m, e);
        assert t[e] == ls[e];
      }
      forall e | |ls| <= e < |t|
        ensures !AllSpace(t, m, e)
      {
        assert t[|ls| - 1] == ls[|ls| - 1];
      }
    }
  }

  /**
   A stem that starts with a non-space character, followed by a suffix that
   starts with `\s+\d+`, is stripped only at its end, and the pattern matches
   right after the stem.
   */
  lemma StripOfStemThenNumber(ls: string, lu: string) returns (t: string)
    requires ls != [] && !IsSpace(ls[0])
    requires SpaceDigitsAt(lu, 0)
    ensures Strip(ls + lu) == t
    ensures |ls| < |t| && t[..|ls|] == ls && CutAt(t, |ls|)
  {
    var low := ls + lu;
    var e := SpaceDigitsShift(ls, lu);
    var j := StripKeepsFront(low, e);
    t := low[..j];
    assert t[..|ls|] == ls;
    CutSurvivesTruncation(low, |ls|, e, j);
  }

  /** A `\s+\d+` match at the front of `lu` is a match right after `ls` in `ls + lu`; `e` is the digit's position. */
  lemma SpaceDigitsShift(ls: string, lu: string) returns (e: nat)
    requires SpaceDigitsAt(lu, 0)
    ensures |ls| < e < |ls + lu| && AllSpace(ls + lu, |ls|, e) && IsDigit((ls + lu)[e])
  {
    var d :| 0 < d < |lu| && AllSpace(lu, 0, d) && IsDigit(lu[d]);
    e := |ls| + d;
    assert (ls + lu)[e] == lu[d];
  }

  /** Cutting a string after the digit of a `\s+\d+` match keeps the match. */
  lemma CutSurvivesTruncation(s: string, i: nat, e: nat, j: nat)
    requires i < e < j <= |s| && AllSpace(s, i, e) && IsDigit(s[e])
    ensures CutAt(s[..j], i)
  {
    assert AllSpace(s[..j], i, e);
    assert s[..j][e] == s[e];
  }

  /**
   A stem with no match and no surrounding whitespace, followed by a suffix that
   starts with `\s+\d+`: the stem is exactly the piece in front of the leftmost match.
   */
  lemma StemBeforeNumber(ls: string, lu: string)
    requires ls != [] && !IsSpace(ls[0]) && !IsSpace(ls[|ls| - 1])
    requires HasNoCut(ls)
    requires SpaceDigitsAt(lu, 0)
    ensures var t := Strip(ls + lu); Strip(t[..FirstCut(t, 0)]) == ls
  {
    var t := StripOfStemThenNumber(ls, lu);
    ExtendedStemHasNoCut(ls, t);
    FirstCutIsLeftmost(t, |ls|);
    StripOfStripped(ls);
  }

  /** Whitespace in front of a `\s+\d+` match extends it. */
  lemma SpaceDigitsAfterSpace(w: string, u: string)
    requires forall k :: 0 <= k < |w| ==> IsSpace(w[k])
    requires SpaceDigitsAt(u, 0)
    ensures SpaceDigitsAt(w + u, 0)
  {
    var d :| 0 < d < |u| && AllSpace(u, 0, d) && IsDigit(u[d]);
    assert (w + u)[|w| + d] == u[d];
    assert AllSpace(w + u, 0, |w| + d);
  }

  /**
   The normalised form of a stem followed by a `\s+\d+` suffix is the
   normalised stem followed by a piece that starts with `\s+\d+`.
   */
  lemma NormaliseNumbered(stem: string, suffix: string) returns (tail: string)
    requires Normalise(stem) != []
    requires SpaceDigitsAt(Lower(suffix), 0)
    ensures SpaceDigitsAt(tail, 0)
    ensures Normalise(stem + suffix) == Strip(Normalise(stem) + tail)
  {
    LowerAppend(stem, suffix);
    var pad := StripOfConcat(Lower(stem), Lower(suffix));
    tail := pad + Lower(suffix);
    SpaceDigitsAfterSpace(pad, Lower(suffix));
  }

  /**
   Labels that share a stem and differ only from a whitespace-then-digits run on
   get the normalised stem as their base course: "Strategy 1", "  Strategy 2"
   and "Strategy" all give "strategy". The stem, once normalised, must be
   non-empty and free of matches.
   */
  lemma NumberedLabelsShareBase(stem: string, suffix: string)
    requires Normalise(stem) != [] && HasNoCut(Normalise(stem))
    requires SpaceDigitsAt(suffix, 0)
    ensures ExtractBaseCourse(Some(stem + suffix)) == Some(Normalise(stem))
    ensures ExtractBaseCourse(Some(stem)) == Some(Normalise(stem))
  {
    LowerKeepsSpaceDigits(suffix);
    var tail := NormaliseNumbered(stem, suffix);
    StemBeforeNumber(Normalise(stem), tail);
    MatchFreeLabelIsBase(stem);
  }

  /** Lower-casing keeps a `\s+\d+` match at the front. */
  lemma LowerKeepsSpaceDigits(suffix: string)
    requires SpaceDigitsAt(suffix, 0)
    ensures SpaceDigitsAt(Lower(suffix), 0)
  {
    LowerKeepsCuts(suffix);
    assert CutAt(suffix, 0);
    assert !IsSeparator(Lower(suffix)[0]);
  }

  /** A label whose normalised form has no match is its own normalised form as base course. */
  lemma MatchFreeLabelIsBase(raw: string)
    requires HasNoCut(Normalise(raw))
    ensures ExtractBaseCourse(Some(raw)) == Some(Normalise(raw))
  {
    var t := Normalise(raw);
    StripOfStripped(t);
    FirstCutIsLeftmost(t, |t|);
    assert t[..|t|] == t;
  }

  /** Every character of `s` is a lower-case ASCII letter. */
  predicate LowerLetters(s: string) {
    forall i :: 0 <= i < |s| ==> 'a' <= s[i] <= 'z'
  }

  /** Lower-casing a word of ASCII letters gives a word of lower-case letters. */
  lemma LowerOfLetters(stem: string)
    requires forall i :: 0 <= i < |stem| ==> IsUpper(stem[i]) || 'a' <= stem[i] <= 'z'
    ensures LowerLetters(Lower(stem))
  {
    var l := Lower(stem);
    forall i | 0 <= i < |l|
      ensures 'a' <= l[i] <= 'z'
    {
      assert l[i] == ToLower(stem[i]);
    }
  }

  /** The split pattern cannot match in a word of lower-case letters. */
  lemma LowerLettersHaveNoCut(s: string)
    requires LowerLetters(s)
    ensures HasNoCut(s)
  {
    forall i, j | 0 <= i < j < |s|
      ensures !AllSpace(s, i, j)
    {
      assert 'a' <= s[i] <= 'z';
    }
  }

  /** A word of lower-case letters has no whitespace to strip. */
  lemma LowerLettersAreStripped(s: string)
    requires LowerLetters(s)
    ensures Strip(s) == s
  {
    if s != [] {
      assert 'a' <= s[0] <= 'z' && 'a' <= s[|s| - 1] <= 'z';
    }
    StripOfStripped(s);
  }

  /** A stem made of ASCII letters normalises to its lower-cased form, in which the split pattern matches nowhere. */
  lemma LetterStem(stem: string)
    requires forall i :: 0 <= i < |stem| ==> IsUpper(stem[i]) || 'a' <= stem[i] <= 'z'
    ensures Normalise(stem) == Lower(stem) && HasNoCut(Lower(stem))
  {
    LowerOfLetters(stem);
    LowerLettersHaveNoCut(Lower(stem));
    LowerLettersAreStripped(Lower(stem));
  }

  /** "Strategy" lower-cases to "strategy". */
  lemma StrategyStem()
    ensures Lower("Strategy") == "strategy"
  {
  }

  /** Every numbered "Strategy" session ("Strategy 1", "Strategy  12: Cases", ...) has base course "strategy". */
  lemma NumberedStrategySessions(suffix: string)
    requires SpaceDigitsAt(suffix, 0)
    ensures ExtractBaseCourse(Some("Strategy" + suffix)) == Some("strategy")
  {
    LetterStem("Strategy");
    StrategyStem();
    NumberedLabelsShareBase("Strategy", suffix);
  }

  /** "Strategy", a space and one digit gives "strategy". */
  lemma StrategyDigit(c: char)
    requires IsDigit(c)
    ensures ExtractBaseCourse(Some("Strategy" + [' ', c])) == Some("strategy")
  {
    assert AllSpace([' ', c], 0, 1);
    NumberedStrategySessions([' ', c]);
  }

  /** Example: "Strategy 1" and "Strategy 2" both give "strategy". */
  lemma StrategyOneAndTwo()
    ensures ExtractBaseCourse(Some("Strategy 1")) == Some("strategy")
    ensures ExtractBaseCourse(Some("Strategy 2")) == Some("strategy")
  {
    StrategyDigit('1');
    StrategyDigit('2');
    assert "Strategy" + [' ', '1'] == "Strategy 1";
    assert "Strategy" + [' ', '2'] == "Strategy 2";
  }

  /**
   A label that begins with a separator has the empty string as its base course,
   which is a present value, not a missing one.
   */
  lemma SeparatorFirstGivesEmptyBase(raw: string)
    requires |Normalise(raw)| > 0 && IsSeparator(Normalise(raw)[0])
    ensures ExtractBaseCourse(Some(raw)) == Some("")
  {
    var t := Normalise(raw);
    assert t[..0] == [];
    assert Strip([]) == [];
    ExtractIsPrefixBeforeLeftmostMatch(raw, 0);
  }
}
