/** The Python string built-ins the roster code relies on: `str()` of an int,
    `int()` of a string, `str.split(sep)` and `str.strip()`. */
module Strings {
  import opened Wrappers

  predicate IsDigit(c: char) { '0' <= c <= '9' }

  predicate AllDigits(s: string) {
    forall i :: 0 <= i < |s| ==> IsDigit(s[i])
  }

  function DigitChar(n: nat): (c: char)
    requires n < 10
    ensures IsDigit(c)
  {
    ('0' as int + n) as char
  }

  function DigitValue(c: char): nat
    requires IsDigit(c)
  {
    c as int - '0' as int
  }

  /** Decimal digits of `n`, most significant first, no leading zero. */
  function NatToString(n: nat): (s: string)
    ensures |s| >= 1 && AllDigits(s)
    decreases n
  {
    if n < 10 then [DigitChar(n)] else NatToString(n / 10) + [DigitChar(n % 10)]
  }

  /** Python's `str(x)` (and `f"{x}"`) for an int. */
  function IntToString(x: int): (s: string)
    ensures |s| >= 1
    ensures forall i :: 0 <= i < |s| ==> s[i] == '-' || IsDigit(s[i])
  {
    if x < 0 then "-" + NatToString(-x) else NatToString(x)
  }

  function DigitsValue(s: string): nat
    requires AllDigits(s)
  {
    if s == [] then 0 else DigitsValue(s[..|s| - 1]) * 10 + DigitValue(s[|s| - 1])
  }

  /** An optional sign followed by at least one decimal digit. */
  function ParseSigned(s: string): Option<int> {
    if |s| >= 2 && (s[0] == '-' || s[0] == '+') && AllDigits(s[1..]) then
      var magnitude: int := DigitsValue(s[1..]);
      Some(if s[0] == '-' then -magnitude else magnitude)
    else if |s| >= 1 && AllDigits(s) then
      Some(DigitsValue(s))
    else
      None
  }

  /** Python's `int(s)` on a string: surrounding whitespace (as `IntSpace`
      defines it), an optional sign and decimal digits. None where `int`
      raises ValueError. */
  function ParseInt(s: string): Option<int> {
    ParseSigned(TrimRight(TrimLeft(s, IntSpace), IntSpace))
  }

  lemma {:induction false} NatToStringRoundTrip(n: nat)
    ensures DigitsValue(NatToString(n)) == n
    decreases n
  {
    if n >= 10 {
      NatToStringRoundTrip(n / 10);
      var s := NatToString(n);
      assert s[..|s| - 1] == NatToString(n / 10);
    }
  }

  /** The digits of `str(x)` read back as `x`. */
  lemma SignedDigitsRoundTrip(x: int)
    ensures ParseSigned(IntToString(x)) == Some(x)
  {
    var s := IntToString(x);
    if x < 0 {
      var t := NatToString(-x);
      NatToStringRoundTrip(-x);
      assert s == "-" + t && s[1..] == t;
      assert |s| >= 2 && s[0] == '-' && AllDigits(s[1..]);
    } else {
      NatToStringRoundTrip(x);
      assert s == NatToString(x) && AllDigits(s);
      assert !(s[0] == '-' || s[0] == '+');
    }
  }

  /** `int(str(x)) == x`: the day number written into a column header is read back. */
  lemma IntToStringRoundTrip(x: int)
    ensures ParseInt(IntToString(x)) == Some(x)
  {
    var s := IntToString(x);
    assert forall i :: 0 <= i < |s| ==> !IntSpace(s[i]);
    TrimWithoutSpaces(s, IntSpace);
    SignedDigitsRoundTrip(x);
  }

  /** Python's `s.split(sep)` for a one-character separator: always at least one
      part, and no part contains the separator. */
  function Split(s: string, sep: char): (parts: seq<string>)
    ensures |parts| >= 1
    ensures forall i :: 0 <= i < |parts| ==> sep !in parts[i]
    decreases |s|
  {
    if s == [] then [""]
    else
      var rest := Split(s[1..], sep);
      if s[0] == sep then [""] + rest else [[s[0]] + rest[0]] + rest[1..]
  }

  /** Python's `sep.join(parts)`. */
  function Join(parts: seq<string>, sep: char): string
    requires |parts| >= 1
    decreases |parts|
  {
    if |parts| == 1 then parts[0] else parts[0] + [sep] + Join(parts[1..], sep)
  }

  /** Joining the parts of a split gives back the original string. */
  lemma {:induction false} SplitThenJoin(s: string, sep: char)
    ensures Join(Split(s, sep), sep) == s
    decreases |s|
  {
    if s != [] {
      SplitThenJoin(s[1..], sep);
      var rest := Split(s[1..], sep);
      var parts := Split(s, sep);
      if s[0] == sep {
        assert parts[1..] == rest;
      } else {
        assert parts[1..] == rest[1..];
        if |rest| > 1 {
          calc {
            Join(parts, sep);
            [s[0]] + rest[0] + [sep] + Join(rest[1..], sep);
            [s[0]] + Join(rest, sep);
          }
        }
      }
    }
  }

  /** Splitting `a + [sep] + b`, where `a` holds no separator, yields `a` first. */
  lemma {:induction false} SplitAfterSegment(a: string, sep: char, b: string)
    requires sep !in a
    ensures Split(a + [sep] + b, sep) == [a] + Split(b, sep)
    decreases |a|
  {
    var s := a + [sep] + b;
    if a == [] {
      assert s[1..] == b;
    } else {
      assert s[1..] == a[1..] + [sep] + b;
      SplitAfterSegment(a[1..], sep, b);
      assert [a[0]] + a[1..] == a;
    }
  }

  /** A string with no separator splits into itself alone. */
  lemma {:induction false} SplitWithoutSeparator(a: string, sep: char)
    requires sep !in a
    ensures Split(a, sep) == [a]
    decreases |a|
  {
    if a != [] {
      SplitWithoutSeparator(a[1..], sep);
      assert [a[0]] + a[1..] == a;
    }
  }

  /** Splitting a join of separator-free parts gives back the parts. */
  lemma {:induction false} JoinThenSplit(parts: seq<string>, sep: char)
    requires |parts| >= 1
    requires forall i :: 0 <= i < |parts| ==> sep !in parts[i]
    ensures Split(Join(parts, sep), sep) == parts
    decreases |parts|
  {
    if |parts| == 1 {
      SplitWithoutSeparator(parts[0], sep);
    } else {
      JoinThenSplit(parts[1..], sep);
      SplitAfterSegment(parts[0], sep, Join(parts[1..], sep));
    }
  }

  /** Python's `str.isspace()`: the ASCII controls \t..\r and U+001C..U+001F,
      the space, and the Unicode whitespace U+0085, U+00A0, U+1680,
      U+2000..U+200A, U+2028, U+2029, U+202F, U+205F and U+3000. */
  predicate IsSpace(c: char) {
    c == ' ' || '\t' <= c <= '\r' || '\U{1C}' <= c <= '\U{1F}'
    || c == '\U{85}' || c == '\U{A0}' || c == '\U{1680}' || '\U{2000}' <= c <= '\U{200A}'
    || c == '\U{2028}' || c == '\U{2029}' || c == '\U{202F}' || c == '\U{205F}' || c == '\U{3000}'
  }

  /** The whitespace `int()` skips around its digits: every `str.isspace()`
      character except the ASCII separators U+001C..U+001F, which `int()`
      rejects. */
  predicate IntSpace(c: char) {
    IsSpace(c) && !('\U{1C}' <= c <= '\U{1F}')
  }

  /** `s` without its leading characters in `space`. */
  function TrimLeft(s: string, space: char -> bool): string
    decreases |s|
  {
    if s != [] && space(s[0]) then TrimLeft(s[1..], space) else s
  }

  /** `s` without its trailing characters in `space`. */
  function TrimRight(s: string, space: char -> bool): string
    decreases |s|
  {
    if s != [] && space(s[|s| - 1]) then TrimRight(s[..|s| - 1], space) else s
  }

  /** Python's `s.strip()`: `s` without its leading and trailing whitespace. */
  function Strip(s: string): string {
    TrimRight(TrimLeft(s, IsSpace), IsSpace)
  }

  /** TrimLeft drops exactly the prefix in `space`: what it keeps is a suffix
      of `s` that is empty or starts outside `space`. */
  lemma {:induction false} TrimLeftDropsSpaces(s: string, space: char -> bool)
    ensures var r := TrimLeft(s, space);
            && |r| <= |s| && r == s[|s| - |r|..]
            && (r == [] || !space(r[0]))
            && forall i :: 0 <= i < |s| - |r| ==> space(s[i])
    decreases |s|
  {
    if s != [] && space(s[0]) {
      TrimLeftDropsSpaces(s[1..], space);
    }
  }

  /** TrimRight drops exactly the suffix in `space`: what it keeps is a prefix
      of `s` that is empty or ends outside `space`. */
  lemma {:induction false} TrimRightDropsSpaces(s: string, space: char -> bool)
    ensures var r := TrimRight(s, space);
            && |r| <= |s| && r == s[..|r|]
            && (r == [] || !space(r[|r| - 1]))
            && forall i :: |r| <= i < |s| ==> space(s[i])
    decreases |s|
  {
    if s != [] && space(s[|s| - 1]) {
      TrimRightDropsSpaces(s[..|s| - 1], space);
    }
  }

  /** The strip of `s` is the slice between its leading and its trailing
      whitespace: it neither starts nor ends with a space, and it is empty
      exactly when `s` is all whitespace. */
  lemma StripSlice(s: string)
    ensures var r := Strip(s);
            && (exists a, b :: 0 <= a <= b <= |s| && r == s[a..b]
                  && (forall i :: 0 <= i < a ==> IsSpace(s[i]))
                  && (forall i :: b <= i < |s| ==> IsSpace(s[i])))
            && (r == [] || (!IsSpace(r[0]) && !IsSpace(r[|r| - 1])))
            && (r == [] <==> forall i :: 0 <= i < |s| ==> IsSpace(s[i]))
  {
    var l := TrimLeft(s, IsSpace);
    TrimLeftDropsSpaces(s, IsSpace);
    TrimRightDropsSpaces(l, IsSpace);
    var r := TrimRight(l, IsSpace);
    var a := |s| - |l|;
    assert r == s[a..a + |r|];
    if r == [] {
      assert l == [];
    }
  }

  /** Every character of the strip of `s` is a character of `s`. */
  lemma StripKeepsCharacters(s: string)
    ensures forall i :: 0 <= i < |Strip(s)| ==> Strip(s)[i] in s
  {
    StripSlice(s);
    var a, b :| 0 <= a <= b <= |s| && Strip(s) == s[a..b];
    forall i | 0 <= i < |Strip(s)|
      ensures Strip(s)[i] in s
    {
      assert Strip(s)[i] == s[a + i];
    }
  }

  /** A string with no character in `space` is left as it is by both trims. */
  lemma TrimWithoutSpaces(s: string, space: char -> bool)
    requires forall i :: 0 <= i < |s| ==> !space(s[i])
    ensures TrimRight(TrimLeft(s, space), space) == s
  {
    assert TrimLeft(s, space) == s;
    assert TrimRight(s, space) == s;
  }

  /** Trimming the front of `s + [c]` trims the front of `s` and keeps `c`,
      unless all of `s` is trimmed. */
  lemma {:induction false} TrimLeftSnoc(s: string, c: char, space: char -> bool)
    ensures TrimLeft(s + [c], space)
            == if TrimLeft(s, space) == [] then TrimLeft([c], space) else TrimLeft(s, space) + [c]
    decreases |s|
  {
    if s != [] && space(s[0]) {
      assert (s + [c])[1..] == s[1..] + [c];
      TrimLeftSnoc(s[1..], c, space);
    } else if s == [] {
      assert s + [c] == [c];
    }
  }

  /** `int()` raises on text that ends with one of the separators
      U+001C..U+001F, although `strip()` removes it. */
  lemma ParseIntRejectsSeparator(s: string, c: char)
    requires '\U{1C}' <= c <= '\U{1F}'
    ensures ParseInt(s + [c]) == None
    ensures Strip(s + [c]) == Strip(s)
  {
    TrimLeftSnoc(s, c, IntSpace);
    var l := TrimLeft(s + [c], IntSpace);
    assert TrimLeft([c], IntSpace) == [c];
    assert l != [] && l[|l| - 1] == c;
    assert TrimRight(l, IntSpace) == l;
    if |l| >= 2 {
      assert l[1..][|l| - 2] == c;
    }
    TrimLeftSnoc(s, c, IsSpace);
    var m := TrimLeft(s, IsSpace);
    if m == [] {
      assert TrimLeft([c], IsSpace) == TrimLeft([c][1..], IsSpace);
      assert [c][1..] == [];
    } else {
      assert (m + [c])[..|m|] == m;
    }
  }

  /** Stripping twice is stripping once. */
  lemma StripIdempotent(s: string)
    ensures Strip(Strip(s)) == Strip(s)
  {
    var r := Strip(s);
    StripSlice(s);
    assert TrimLeft(r, IsSpace) == r;
    assert TrimRight(r, IsSpace) == r;
  }
}
