/**
  Decimal rendering and parsing of integers, and joining and splitting text on a
  separator character: Python's `str(int)` and `sep.join(parts)`, from which the
  wire frame is built, and `s.split(sep)` with integer parsing, with which the
  frame and the running-time label are read back.
 */
module Text {

  predicate IsDigit(ch: char) {
    '0' <= ch <= '9'
  }

  predicate AllDigits(s: string) {
    forall i :: 0 <= i < |s| ==> IsDigit(s[i])
  }

  function DigitChar(d: nat): (ch: char)
    requires d < 10
    ensures IsDigit(ch)
  {
    "0123456789"[d]
  }

  /** The value of a digit character; any other character reads as 0. */
  function DigitValue(ch: char): (d: nat)
    ensures d < 10
  {
    if IsDigit(ch) then (ch as int - '0' as int) else 0
  }

  lemma DigitRoundTrip(d: nat)
    requires d < 10
    ensures DigitValue(DigitChar(d)) == d
  {
  }

  /** `str(n)` for a natural number: no sign and no leading zeros. */
  function Digits(n: nat): (s: string)
    ensures |s| >= 1 && AllDigits(s)
    ensures |s| > 1 ==> s[0] != '0'
    decreases n
  {
    if n < 10 then [DigitChar(n)] else Digits(n / 10) + [DigitChar(n % 10)]
  }

  /** `str(i)` for any integer: a minus sign before the digits of a negative one. */
  function Str(i: int): (s: string)
    ensures |s| >= 1
    ensures i >= 0 ==> AllDigits(s)
    ensures i < 0 ==> s[0] == '-' && AllDigits(s[1..])
  {
    if i < 0 then "-" + Digits(-i) else Digits(i)
  }

  /** Reads a run of decimal digits, most significant first; leading zeros are allowed. */
  function Parse(s: string): nat
    decreases |s|
  {
    if s == [] then 0 else Parse(s[..|s| - 1]) * 10 + DigitValue(s[|s| - 1])
  }

  /** Reads an optionally negative decimal integer. */
  function ParseInt(s: string): int {
    if |s| > 0 && s[0] == '-' then -(Parse(s[1..]) as int) else Parse(s)
  }

  lemma {:induction false} ParseDigits(n: nat)
    ensures Parse(Digits(n)) == n
    decreases n
  {
    if n >= 10 {
      var s := Digits(n);
      assert s[..|s| - 1] == Digits(n / 10);
      ParseDigits(n / 10);
      DigitRoundTrip(n % 10);
    } else {
      DigitRoundTrip(n);
      assert Digits(n)[..0] == [];
    }
  }

  /** Decoding a rendered integer gives the integer back. */
  lemma ParseStr(i: int)
    ensures ParseInt(Str(i)) == i
  {
    if i < 0 {
      ParseNegative(-i);
      assert Str(i) == "-" + Digits(-i);
    } else {
      ParseNatural(i);
      assert Str(i) == Digits(i);
    }
  }

  lemma ParseNatural(n: nat)
    ensures ParseInt(Digits(n)) == n
  {
    var d := Digits(n);
    assert IsDigit(d[0]);
    ParseDigits(n);
  }

  lemma ParseNegative(n: nat)
    ensures ParseInt("-" + Digits(n)) == -(n as int)
  {
    var d := Digits(n);
    var s := "-" + d;
    assert s[0] == '-' && s[1..] == d;
    ParseDigits(n);
  }

  /** A leading zero does not change the value read. */
  lemma {:induction false} ParseLeadingZero(s: string)
    ensures Parse("0" + s) == Parse(s)
    decreases |s|
  {
    if s == [] {
      assert ("0" + s)[..0] == [];
    } else {
      var t := "0" + s;
      assert t[..|t| - 1] == "0" + s[..|s| - 1];
      ParseLeadingZero(s[..|s| - 1]);
    }
  }

  /** `[sep].join(parts)`. */
  function Join(parts: seq<string>, sep: char): string
    decreases |parts|
  {
    if |parts| == 0 then ""
    else if |parts| == 1 then parts[0]
    else parts[0] + [sep] + Join(parts[1..], sep)
  }

  /** `s.split(sep)`: the pieces between separators, always at least one. */
  function Split(s: string, sep: char): (pieces: seq<string>)
    ensures |pieces| >= 1
    decreases |s|
  {
    if s == [] then [""]
    else
      var rest := Split(s[1..], sep);
      if s[0] == sep then [""] + rest else [[s[0]] + rest[0]] + rest[1..]
  }

  /** The number of occurrences of `ch` in `s`. */
  function Count(s: string, ch: char): nat
    decreases |s|
  {
    if s == [] then 0 else (if s[0] == ch then 1 else 0) + Count(s[1..], ch)
  }

  predicate Free(s: string, sep: char) {
    forall i :: 0 <= i < |s| ==> s[i] != sep
  }

  lemma {:induction false} SplitFree(p: string, sep: char)
    requires Free(p, sep)
    ensures Split(p, sep) == [p]
    decreases |p|
  {
    if p != [] {
      SplitFree(p[1..], sep);
      assert [p[0]] + p[1..] == p;
    }
  }

  lemma {:induction false} SplitAfter(p: string, sep: char, q: string)
    requires Free(p, sep)
    ensures Split(p + [sep] + q, sep) == [p] + Split(q, sep)
    decreases |p|
  {
    var s := p + [sep] + q;
    if p == [] {
      assert s[1..] == q;
    } else {
      assert s[1..] == p[1..] + [sep] + q;
      SplitAfter(p[1..], sep, q);
      assert [p[0]] + p[1..] == p;
    }
  }

  /** Splitting joined pieces that hold no separator gives the pieces back. */
  lemma {:induction false} SplitJoin(parts: seq<string>, sep: char)
    requires |parts| >= 1
    requires forall k :: 0 <= k < |parts| ==> Free(parts[k], sep)
    ensures Split(Join(parts, sep), sep) == parts
    decreases |parts|
  {
    if |parts| == 1 {
      SplitFree(parts[0], sep);
    } else {
      SplitAfter(parts[0], sep, Join(parts[1..], sep));
      SplitJoin(parts[1..], sep);
    }
  }

  lemma {:induction false} CountAppend(s: string, t: string, ch: char)
    ensures Count(s + t, ch) == Count(s, ch) + Count(t, ch)
    decreases |s|
  {
    if s != [] {
      assert (s + t)[1..] == s[1..] + t;
      CountAppend(s[1..], t, ch);
    } else {
      assert s + t == t;
    }
  }

  lemma {:induction false} CountFree(s: string, ch: char)
    requires Free(s, ch)
    ensures Count(s, ch) == 0
    decreases |s|
  {
    if s != [] {
      CountFree(s[1..], ch);
    }
  }

  /** Joining n pieces that hold no separator puts exactly n - 1 separators in the text. */
  lemma {:induction false} CountJoin(parts: seq<string>, sep: char)
    requires |parts| >= 1
    requires forall k :: 0 <= k < |parts| ==> Free(parts[k], sep)
    ensures Count(Join(parts, sep), sep) == |parts| - 1
    decreases |parts|
  {
    CountFree(parts[0], sep);
    if |parts| > 1 {
      CountAppend(parts[0] + [sep], Join(parts[1..], sep), sep);
      CountAppend(parts[0], [sep], sep);
      assert Count([sep], sep) == 1 by {
        assert [sep][1..] == [];
      }
      CountJoin(parts[1..], sep);
    }
  }

  lemma DigitsFree(n: nat, sep: char)
    requires !IsDigit(sep)
    ensures Free(Digits(n), sep)
  {
  }

  lemma StrFree(i: int, sep: char)
    requires !IsDigit(sep) && sep != '-'
    ensures Free(Str(i), sep)
  {
    var s := Str(i);
    forall k | 0 <= k < |s| ensures s[k] != sep {
      if i < 0 && k > 0 {
        assert s[k] == s[1..][k - 1];
      }
    }
  }
}
