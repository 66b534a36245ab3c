/**
 * The pieces of Python's string handling that the booking code leans on:
 * `str(n)` and `int(s)` for decimal integers, the `02d` format, `str.split`
 * and the ordering of strings by code point. Only ASCII digits and ASCII
 * white space are modelled.
 */
module Text {
  import opened Wrappers

  predicate IsDigit(c: char) {
    '0' <= c <= '9'
  }

  function DigitValue(c: char): (v: nat)
    requires IsDigit(c)
    ensures v < 10
  {
    (c as int) - ('0' as int)
  }

  function DigitChar(d: nat): (c: char)
    requires d < 10
    ensures IsDigit(c) && DigitValue(c) == d
  {
    (('0' as int) + d) as char
  }

  predicate AllDigits(s: string) {
    forall i :: 0 <= i < |s| ==> IsDigit(s[i])
  }

  /** The value of a string of decimal digits, most significant first. */
  function DigitsValue(s: string): nat
    requires AllDigits(s)
  {
    if s == [] then 0 else DigitsValue(s[..|s| - 1]) * 10 + DigitValue(s[|s| - 1])
  }

  /** Python's `str(n)` for a non-negative integer: no sign, no leading zero. */
  function NatToString(n: nat): (s: string)
    ensures |s| >= 1 && AllDigits(s)
    ensures |s| > 1 ==> s[0] != '0'
  {
    if n < 10 then [DigitChar(n)] else NatToString(n / 10) + [DigitChar(n % 10)]
  }

  /** Python's `str(n)` for any integer. */
  function IntToString(n: int): string {
    if n < 0 then "-" + NatToString(-n) else NatToString(n)
  }

  lemma {:induction false} NatToStringValue(n: nat)
    ensures DigitsValue(NatToString(n)) == n
  {
    if n >= 10 {
      var s := NatToString(n);
      assert s[..|s| - 1] == NatToString(n / 10);
      NatToStringValue(n / 10);
    }
  }

  /** `str.isspace` restricted to the ASCII range. */
  predicate IsSpace(c: char) {
    c == ' ' || c == '\t' || c == '\n' || c == '\r' || c == '\U{B}' || c == '\U{C}'
    || ('\U{1C}' <= c <= '\U{1F}')
  }

  function StripLeft(s: string): (r: string)
    ensures |r| <= |s|
    ensures r != [] ==> !IsSpace(r[0])
  {
    if s != [] && IsSpace(s[0]) then StripLeft(s[1..]) else s
  }

  function StripRight(s: string): (r: string)
    ensures |r| <= |s|
    ensures r != [] ==> !IsSpace(r[|r| - 1])
  {
    if s != [] && IsSpace(s[|s| - 1]) then StripRight(s[..|s| - 1]) else s
  }

  /** Python's `str.strip()`. */
  function Strip(s: string): string {
    StripRight(StripLeft(s))
  }

  /** Digits with single underscores between them, as Python's integer literals allow. */
  predicate IsUnderscoredDigits(b: string) {
    && |b| > 0
    && IsDigit(b[0])
    && IsDigit(b[|b| - 1])
    && DigitsOrUnderscores(b)
    && forall i, j :: 0 <= i < |b| && 0 <= j < |b| && j == i + 1 ==> b[i] != '_' || b[j] != '_'
  }

  predicate DigitsOrUnderscores(b: string) {
    forall i :: 0 <= i < |b| ==> IsDigit(b[i]) || b[i] == '_'
  }

  function RemoveUnderscores(b: string): (r: string)
    requires DigitsOrUnderscores(b)
    ensures AllDigits(r)
  {
    if b == [] then []
    else if b[0] == '_' then RemoveUnderscores(b[1..])
    else [b[0]] + RemoveUnderscores(b[1..])
  }

  /**
   * Python's `int(s)` in base 10: surrounding white space is ignored, one
   * optional sign, then digits with single underscores between them; any
   * other string raises ValueError, modelled as None.
   */
  function ParseInt(s: string): (r: Option<int>)
    ensures r.Some? ==> exists i :: 0 <= i < |s| && IsDigit(s[i])
  {
    var t := Strip(s);
    if t == [] then None
    else
      var body := if t[0] == '-' || t[0] == '+' then t[1..] else t;
      if !IsUnderscoredDigits(body) then None
      else
        StripFacts(s);
        assert body[0] in t;
        var v: int := DigitsValue(RemoveUnderscores(body));
        Some(if t[0] == '-' then -v else v)
  }

  lemma StripFacts(s: string)
    ensures forall c :: c in Strip(s) ==> c in s
  {
    StripLeftSub(s);
    StripRightSub(StripLeft(s));
  }

  lemma {:induction false} StripLeftSub(s: string)
    ensures forall c :: c in StripLeft(s) ==> c in s
  {
    if s != [] && IsSpace(s[0]) {
      StripLeftSub(s[1..]);
    }
  }

  lemma {:induction false} StripRightSub(s: string)
    ensures forall c :: c in StripRight(s) ==> c in s
  {
    if s != [] && IsSpace(s[|s| - 1]) {
      StripRightSub(s[..|s| - 1]);
    }
  }

  lemma {:induction false} RemoveUnderscoresOfDigits(b: string)
    requires AllDigits(b)
    ensures RemoveUnderscores(b) == b
  {
    if b != [] {
      RemoveUnderscoresOfDigits(b[1..]);
    }
  }

  /** `int(str(n)) == n`: the decimal text of an integer reads back as that integer. */
  lemma ParseIntOfIntToString(n: int)
    ensures ParseInt(IntToString(n)) == Some(n)
  {
    var m: nat := if n < 0 then -n else n;
    var digits := NatToString(m);
    var s := IntToString(n);
    StripUnchanged(s);
    assert IsUnderscoredDigits(digits) by {
      assert IsDigit(digits[0]) && IsDigit(digits[|digits| - 1]);
    }
    RemoveUnderscoresOfDigits(digits);
    NatToStringValue(m);
    if n < 0 {
      assert s[0] == '-' && s[1..] == digits;
    } else {
      assert s == digits && IsDigit(s[0]);
    }
  }

  lemma StripUnchanged(s: string)
    requires s != [] && !IsSpace(s[0]) && !IsSpace(s[|s| - 1])
    ensures Strip(s) == s
  {
    assert StripLeft(s) == s;
  }

  /**
   * The `02d` format: a non-negative number is zero-padded to two digits;
   * a negative one is its sign followed by its digits (already two
   * characters wide).
   */
  function Pad2(n: int): (s: string)
    ensures |s| >= 2
  {
    if n < 0 then "-" + NatToString(-n)
    else if n < 10 then "0" + NatToString(n)
    else NatToString(n)
  }

  /** Python's `s.split(sep)` for a one-character separator. */
  function Split(s: string, sep: char): (r: seq<string>)
    ensures |r| >= 1
    ensures forall k :: 0 <= k < |r| ==> sep !in r[k]
  {
    if s == [] then [[]]
    else if s[0] == sep then [[]] + Split(s[1..], sep)
    else
      var rest := Split(s[1..], sep);
      [[s[0]] + rest[0]] + rest[1..]
  }

  lemma {:induction false} SplitNoSep(a: string, sep: char)
    requires sep !in a
    ensures Split(a, sep) == [a]
  {
    if a != [] {
      SplitNoSep(a[1..], sep);
      assert [a[0]] + a[1..] == a;
    }
  }

  /** Splitting a separator-free field followed by the separator peels that field off. */
  lemma {:induction false} SplitCons(a: string, sep: char, b: string)
    requires sep !in a
    ensures Split(a + [sep] + b, sep) == [a] + Split(b, sep)
  {
    if a == [] {
      assert a + [sep] + b == [sep] + b;
    } else {
      assert (a + [sep] + b)[1..] == a[1..] + [sep] + b;
      SplitCons(a[1..], sep, b);
      assert [a[0]] + a[1..] == a;
    }
  }

  /** Python's `a <= b` on strings: lexicographic by code point. */
  predicate StrLeq(a: string, b: string) {
    if a == [] then true
    else if b == [] then false
    else if a[0] != b[0] then a[0] < b[0]
    else StrLeq(a[1..], b[1..])
  }

  lemma {:induction false} StrLeqTotal(a: string, b: string)
    ensures StrLeq(a, b) || StrLeq(b, a)
  {
    if a != [] && b != [] && a[0] == b[0] {
      StrLeqTotal(a[1..], b[1..]);
    }
  }

  lemma {:induction false} StrLeqAntisymmetric(a: string, b: string)
    requires StrLeq(a, b) && StrLeq(b, a)
    ensures a == b
  {
    if a != [] && b != [] {
      StrLeqAntisymmetric(a[1..], b[1..]);
    }
  }

  lemma {:induction false} StrLeqTransitive(a: string, b: string, c: string)
    requires StrLeq(a, b) && StrLeq(b, c)
    ensures StrLeq(a, c)
  {
    if a != [] && b != [] && c != [] && a[0] == b[0] && b[0] == c[0] {
      StrLeqTransitive(a[1..], b[1..], c[1..]);
    }
  }
}
