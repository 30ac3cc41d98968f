/**
 * Which texts Python 2's `float()` accepts. Surrounding whitespace is dropped; what is left is
 * an optional sign and then either `inf`, `infinity` or `nan` in any letter case, or a decimal
 * mantissa (digits with at most one `.`, at least one digit) with an optional exponent.
 * Only acceptance is modelled: the value itself stays text.
 */
module Floats {
  import opened Text

  /** The text without leading whitespace. */
  function StripLeft(s: string): (r: string)
    ensures |r| <= |s|
    ensures r == [] || !IsSpace(r[0])
  {
    if s != [] && IsSpace(s[0]) then StripLeft(s[1..]) else s
  }

  /** The text without trailing whitespace. */
  function StripRight(s: string): (r: string)
    ensures |r| <= |s|
    ensures r == [] || !IsSpace(r[|r| - 1])
  {
    if s != [] && IsSpace(s[|s| - 1]) then StripRight(s[..|s| - 1]) else s
  }

  /** Stripping on the left drops a run of whitespace and keeps the rest. */
  lemma {:induction false} StripLeftSuffix(s: string)
    ensures StripLeft(s) == s[|s| - |StripLeft(s)|..]
    ensures forall i | 0 <= i < |s| - |StripLeft(s)| :: IsSpace(s[i])
  {
    if s != [] && IsSpace(s[0]) {
      StripLeftSuffix(s[1..]);
      assert forall i | 1 <= i < |s| :: s[1..][i - 1] == s[i];
    }
  }

  /** Stripping on the right drops a run of whitespace and keeps the rest. */
  lemma {:induction false} StripRightPrefix(s: string)
    ensures StripRight(s) == s[..|StripRight(s)|]
    ensures forall i | |StripRight(s)| <= i < |s| :: IsSpace(s[i])
  {
    if s != [] && IsSpace(s[|s| - 1]) {
      StripRightPrefix(s[..|s| - 1]);
      assert forall i | 0 <= i < |s| - 1 :: s[..|s| - 1][i] == s[i];
    }
  }

  /** The position of the first `c` in `s`, or the length when there is none. */
  function FirstIndex(s: string, c: char): (i: nat)
    ensures i <= |s|
    ensures forall j | 0 <= j < i :: s[j] != c
    ensures i < |s| ==> s[i] == c
  {
    if s == [] || s[0] == c then 0 else 1 + FirstIndex(s[1..], c)
  }

  /** The position of the first `e` or `E` in `s`, or the length when there is none. */
  function ExponentIndex(s: string): (i: nat)
    ensures i <= |s|
    ensures forall j | 0 <= j < i :: s[j] != 'e' && s[j] != 'E'
    ensures i < |s| ==> s[i] == 'e' || s[i] == 'E'
  {
    if s == [] || s[0] == 'e' || s[0] == 'E' then 0 else 1 + ExponentIndex(s[1..])
  }

  /** ASCII upper-case letters made lower case; every other character kept. */
  function LowerCase(c: char): (r: char)
    ensures 'A' <= c <= 'Z' ==> IsLower(r)
    ensures !('A' <= c <= 'Z') ==> r == c
  {
    if 'A' <= c <= 'Z' then (c as int + 32) as char else c
  }

  /** The text with its ASCII letters made lower case. */
  function LowerText(s: string): (r: string)
    ensures |r| == |s| && forall i | 0 <= i < |s| :: r[i] == LowerCase(s[i])
  {
    seq(|s|, i requires 0 <= i < |s| => LowerCase(s[i]))
  }

  /** `inf`, `infinity` or `nan`, in any mixture of cases. */
  predicate SpecialName(s: string)
  {
    (|s| == 3 || |s| == 8) && var word := LowerText(s); word == "inf" || word == "infinity" || word == "nan"
  }

  /** Digits around at most one `.`, with at least one digit. */
  predicate Mantissa(s: string)
  {
    var d := FirstIndex(s, '.');
    AllDigits(s[..d]) && (d == |s| || AllDigits(s[d + 1..])) && exists i | 0 <= i < |s| :: IsDigit(s[i])
  }

  /** The part after `e`: an optional sign and at least one digit. */
  predicate ExponentPart(s: string)
  {
    var t := if s != [] && (s[0] == '+' || s[0] == '-') then s[1..] else s;
    t != [] && AllDigits(t)
  }

  /** The text with one leading sign removed, if there is one. */
  function Unsigned(s: string): (r: string)
    ensures r == s || (s != [] && (s[0] == '+' || s[0] == '-') && r == s[1..])
  {
    if s != [] && (s[0] == '+' || s[0] == '-') then s[1..] else s
  }

  /** An unsigned number: a special name, or a mantissa with an optional exponent. */
  predicate UnsignedNumber(s: string)
  {
    var e := ExponentIndex(s);
    SpecialName(s) || (Mantissa(s[..e]) && (e == |s| || ExponentPart(s[e + 1..])))
  }

  /** `float(s)` returns instead of raising `ValueError`. */
  predicate FloatText(s: string)
  {
    UnsignedNumber(Unsigned(StripLeft(StripRight(s))))
  }

  /**
   * A request time as the access log writes it (digits, a `.`, three digits) is accepted by
   * `float()`.
   */
  lemma DecimalTimeIsFloat(s: string)
    requires |s| >= 5 && AllDigits(s[..|s| - 4]) && s[|s| - 4] == '.' && AllDigits(s[|s| - 3..])
    ensures FloatText(s)
  {
    assert IsDigit(s[0]) by {
      assert s[..|s| - 4][0] == s[0];
    }
    assert IsDigit(s[|s| - 1]) by {
      assert s[|s| - 3..][2] == s[|s| - 1];
    }
    assert StripRight(s) == s;
    assert StripLeft(s) == s;
    assert Unsigned(s) == s;
    forall j | 0 <= j < |s|
      ensures s[j] != 'e' && s[j] != 'E'
    {
      if j < |s| - 4 {
        assert s[..|s| - 4][j] == s[j];
      } else if j > |s| - 4 {
        assert s[|s| - 3..][j - (|s| - 3)] == s[j];
      }
    }
    assert ExponentIndex(s) == |s|;
    assert FirstIndex(s, '.') == |s| - 4 by {
      forall j | 0 <= j < |s| - 4
        ensures s[j] != '.'
      {
        assert s[..|s| - 4][j] == s[j];
      }
    }
    assert s[..|s|] == s;
    assert s[|s| - 4 + 1..] == s[|s| - 3..];
    assert Mantissa(s);
  }

  /** A text that starts with `/` is no special name. */
  lemma SlashNotSpecial(s: string)
    requires s != [] && s[0] == '/'
    ensures !SpecialName(s)
  {
    assert LowerText(s)[0] == '/';
  }

  /** A text that is empty or starts with `/` is no mantissa. */
  lemma SlashNotMantissa(s: string)
    requires s == [] || s[0] == '/'
    ensures !Mantissa(s)
  {
    if s != [] {
      assert FirstIndex(s, '.') > 0;
      assert s[..FirstIndex(s, '.')][0] == '/';
    }
  }

  /** A text that starts with `/`, as a request path does, is refused. */
  lemma PathNotFloat(s: string)
    requires s != [] && s[0] == '/'
    ensures !FloatText(s)
  {
    var r := StripRight(s);
    StripRightPrefix(s);
    assert r != [] && r[0] == '/';
    assert Unsigned(StripLeft(r)) == r;
    SlashNotSpecial(r);
    var e := ExponentIndex(r);
    assert e == 0 || r[..e][0] == '/';
    SlashNotMantissa(r[..e]);
  }
}
