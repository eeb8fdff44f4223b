/**
 The three Python string operations the base-course normaliser relies on:
 `str.lower()`, `str.strip()` and the character classes `\s` and `\d` of `re`.
 Lower-casing is modelled on ASCII letters only; whitespace is the fixed set of
 code points that Python's `str.isspace()` (and so `\s` and `strip()`) accepts.
 */
module Text {

  /**
   Whitespace as `str.isspace()` and `\s` define it for `str` patterns. It
   includes the ASCII blanks, and it is never a digit or an upper-case letter,
   so lower-casing leaves it in place.
   */
  predicate IsSpace(c: char): (b: bool)
    ensures c == ' ' || c == '\t' || c == '\n' || c == '\r' ==> b
    ensures b ==> !IsDigit(c) && !IsUpper(c)
  {
    || c == ' '
    || '\U{9}' <= c <= '\U{D}'
    || '\U{1C}' <= c <= '\U{1F}'
    || c == '\U{85}' || c == '\U{A0}' || c == '\U{1680}'
    || '\U{2000}' <= c <= '\U{200A}'
    || c == '\U{2028}' || c == '\U{2029}' || c == '\U{202F}'
    || c == '\U{205F}' || c == '\U{3000}'
  }

  predicate IsDigit(c: char) {
    '0' <= c <= '9'
  }

  predicate IsUpper(c: char) {
    'A' <= c <= 'Z'
  }

  /** True when no character of `s` is an upper-case letter. */
  predicate NoUpper(s: string) {
    forall i :: 0 <= i < |s| ==> !IsUpper(s[i])
  }

  function ToLower(c: char): (r: char)
    ensures !IsUpper(r)
    ensures !IsUpper(c) ==> r == c
    ensures IsUpper(c) ==> 'a' <= r <= 'z' && r as int - c as int == 'a' as int - 'A' as int
    ensures IsSpace(r) == IsSpace(c) && IsDigit(r) == IsDigit(c)
  {
    if IsUpper(c) then (c as int - 'A' as int + 'a' as int) as char else c
  }

  /** `str.lower()`. */
  function Lower(s: string): (r: string)
    ensures |r| == |s| && NoUpper(r)
    ensures forall i :: 0 <= i < |s| ==> r[i] == ToLower(s[i])
  {
    seq(|s|, i requires 0 <= i < |s| => ToLower(s[i]))
  }

  /** Lower-casing changes only the letters A to Z, so it is the identity on a string without them. */
  lemma LowerOfLowered(s: string)
    requires NoUpper(s)
    ensures Lower(s) == s
  {
  }

  lemma LowerAppend(a: string, b: string)
    ensures Lower(a + b) == Lower(a) + Lower(b)
  {
    assert forall i :: 0 <= i < |a + b| ==> Lower(a + b)[i] == (Lower(a) + Lower(b))[i];
  }

  /** The leading-whitespace half of `str.strip()`. */
  function TrimStart(s: string): (r: string)
    ensures |r| <= |s| && r == s[|s| - |r|..]
    ensures r == [] || !IsSpace(r[0])
    ensures forall k :: 0 <= k < |s| - |r| ==> IsSpace(s[k])
  {
    if |s| > 0 && IsSpace(s[0]) then TrimStart(s[1..]) else s
  }

  /** The trailing-whitespace half of `str.strip()`. */
  function TrimEnd(s: string): (r: string)
    ensures |r| <= |s| && r == s[..|r|]
    ensures r == [] || !IsSpace(r[|r| - 1])
    ensures forall k :: |r| <= k < |s| ==> IsSpace(s[k])
  {
    if |s| > 0 && IsSpace(s[|s| - 1]) then TrimEnd(s[..|s| - 1]) else s
  }

  /** `str.strip()` with no argument. */
  function Strip(s: string): (r: string)
    ensures |r| <= |s|
    ensures r == [] || (!IsSpace(r[0]) && !IsSpace(r[|r| - 1]))
  {
    TrimEnd(TrimStart(s))
  }

  /**
   Strip removes exactly a whitespace prefix and a whitespace suffix: the result
   is the slice `s[i..j]` and everything outside it is whitespace.
   */
  lemma StripSpan(s: string) returns (i: nat, j: nat)
    ensures i <= j <= |s| && Strip(s) == s[i..j]
    ensures forall k :: 0 <= k < i ==> IsSpace(s[k])
    ensures forall k :: j <= k < |s| ==> IsSpace(s[k])
  {
    var t := TrimStart(s);
    i := |s| - |t|;
    j := i + |TrimEnd(t)|;
    forall k | j <= k < |s|
      ensures IsSpace(s[k])
    {
      assert s[k] == t[k - i];
    }
  }

  /** Strip keeps a string free of upper-case letters. */
  lemma StripKeepsNoUpper(s: string)
    requires NoUpper(s)
    ensures NoUpper(Strip(s))
  {
    var i, j := StripSpan(s);
    var t := Strip(s);
    forall m | 0 <= m < |t|
      ensures !IsUpper(t[m])
    {
      assert t[m] == s[i + m];
    }
  }

  /**
   A string that starts with a non-space character and has a non-space
   character at `pos` is stripped only at its end, past `pos`.
   */
  lemma StripKeepsFront(s: string, pos: nat) returns (j: nat)
    requires pos < |s| && !IsSpace(s[0]) && !IsSpace(s[pos])
    ensures pos < j <= |s| && Strip(s) == s[..j]
  {
    var i: nat;
    i, j := StripSpan(s);
  }

  /** Whitespace in front of a string that starts with a non-space character is all that `strip()` removes at the front. */
  lemma StripSkipsSpacePrefix(w: string, x: string)
    requires forall k :: 0 <= k < |w| ==> IsSpace(w[k])
    requires x != [] && !IsSpace(x[0])
    ensures Strip(w + x) == Strip(x)
  {
    var s := w + x;
    var r := TrimStart(s);
    assert s[|w|] == x[0];
    assert |s| - |r| <= |w|;
    assert r[0] == s[|s| - |r|];
    assert forall k :: 0 <= k < |w| ==> s[k] == w[k];
    assert r == s[|w|..];
    assert s[|w|..] == x;
    assert TrimStart(x) == x;
  }

  /**
   Stripping `l + u` is stripping the stripped `l`, followed by the whitespace
   `pad` that `l` ended in, followed by `u`.
   */
  lemma StripOfConcat(l: string, u: string) returns (pad: string)
    requires Strip(l) != []
    ensures forall k :: 0 <= k < |pad| ==> IsSpace(pad[k])
    ensures Strip(l + u) == Strip(Strip(l) + (pad + u))
  {
    var i, j := StripSpan(l);
    pad := l[j..];
    Regroup(l, u, i, j);
    StripSkipsSpacePrefix(l[..i], l[i..j] + (pad + u));
  }

  lemma Regroup(l: string, u: string, i: nat, j: nat)
    requires i <= j <= |l|
    ensures l + u == l[..i] + (l[i..j] + (l[j..] + u))
  {
    assert l == l[..i] + l[i..j] + l[j..];
  }

  /** A string without leading or trailing whitespace is its own strip. */
  lemma StripOfStripped(s: string)
    requires s == [] || (!IsSpace(s[0]) && !IsSpace(s[|s| - 1]))
    ensures Strip(s) == s
  {
  }

  /** `s.strip().strip() == s.strip()`. */
  lemma StripIdempotent(s: string)
    ensures Strip(Strip(s)) == Strip(s)
  {
    StripOfStripped(Strip(s));
  }
}
