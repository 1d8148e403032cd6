/** String operations the core relies on: lower-casing, substring tests, splitting on a
    separator, stripping whitespace, and the decimal rendering and parsing of integers
    (Python's `str(n)` and `int(s)`). Characters are classified in the ASCII range only. */
module Text {
  import opened Wrappers

  // ---------------------------------------------------------------- case

  function LowerChar(c: char): char {
    if 'A' <= c <= 'Z' then (c as int + 32) as char else c
  }

  /** Python's `str.lower()`, restricted to ASCII letters. */
  function Lower(s: string): string {
    seq(|s|, i requires 0 <= i < |s| => LowerChar(s[i]))
  }

  lemma LowerIdempotent(s: string)
    ensures Lower(Lower(s)) == Lower(s)
  {
  }

  lemma LowerOfLowercase(s: string)
    requires forall i :: 0 <= i < |s| ==> !('A' <= s[i] <= 'Z')
    ensures Lower(s) == s
  {
  }

  // ---------------------------------------------------------------- substrings

  /** `p in s` for strings: p occurs somewhere in s. */
  predicate Contains(s: string, p: string)
    decreases |s|
  {
    p <= s || (|s| > 0 && Contains(s[1..], p))
  }

  lemma {:induction false} ContainsWitness(s: string, p: string, i: nat)
    requires i + |p| <= |s| && s[i..i + |p|] == p
    ensures Contains(s, p)
    decreases i
  {
    if i == 0 {
      assert p <= s;
    } else {
      assert s[1..][i - 1..i - 1 + |p|] == s[i..i + |p|];
      ContainsWitness(s[1..], p, i - 1);
    }
  }

  predicate EndsWith(s: string, suffix: string) {
    |suffix| <= |s| && s[|s| - |suffix|..] == suffix
  }

  /** `c * n` for a one-character string c. */
  function Repeat(c: char, n: nat): (r: string)
    ensures |r| == n && forall i :: 0 <= i < n ==> r[i] == c
  {
    if n == 0 then "" else Repeat(c, n - 1) + [c]
  }

  // ---------------------------------------------------------------- split / join

  function CountChar(s: string, c: char): nat {
    if s == [] then 0 else (if s[0] == c then 1 else 0) + CountChar(s[1..], c)
  }

  /** Python's `s.split(sep)` for a one-character separator. */
  function Split(s: string, sep: char): (parts: seq<string>)
    ensures |parts| >= 1
  {
    if s == [] then [""]
    else
      var rest := Split(s[1..], sep);
      if s[0] == sep then [""] + rest else [[s[0]] + rest[0]] + rest[1..]
  }

  /** Python's `sep.join(parts)`. */
  function Join(parts: seq<string>, sep: char): string
    requires |parts| >= 1
  {
    if |parts| == 1 then parts[0] else parts[0] + [sep] + Join(parts[1..], sep)
  }

  /** Splitting yields one more part than there are separators, no part holds the separator,
      and joining the parts back gives the original string. */
  lemma {:induction false} SplitJoin(s: string, sep: char)
    ensures |Split(s, sep)| == CountChar(s, sep) + 1
    ensures forall k :: 0 <= k < |Split(s, sep)| ==> CountChar(Split(s, sep)[k], sep) == 0
    ensures Join(Split(s, sep), sep) == s
  {
    if s != [] {
      SplitJoin(s[1..], sep);
      var rest := Split(s[1..], sep);
      if s[0] == sep {
        assert Split(s, sep)[1..] == rest;
      } else {
        var parts := Split(s, sep);
        assert parts[0] == [s[0]] + rest[0];
        assert ([s[0]] + rest[0])[1..] == rest[0];
        assert CountChar(parts[0], sep) == CountChar(rest[0], sep);
        assert parts[1..] == rest[1..];
        if |rest| == 1 {
          assert Join(parts, sep) == [s[0]] + rest[0] == [s[0]] + Join(rest, sep);
        } else {
          assert Join(parts, sep) == [s[0]] + rest[0] + [sep] + Join(rest[1..], sep);
          assert Join(rest, sep) == rest[0] + [sep] + Join(rest[1..], sep);
        }
        assert s == [s[0]] + s[1..];
      }
    }
  }

  lemma {:induction false} CountCharAppend(a: string, b: string, c: char)
    ensures CountChar(a + b, c) == CountChar(a, c) + CountChar(b, c)
  {
    if a != [] {
      assert (a + b)[1..] == a[1..] + b;
      CountCharAppend(a[1..], b, c);
    } else {
      assert a + b == b;
    }
  }

  // ---------------------------------------------------------------- whitespace

  /** Python's `str.isspace()` on ASCII characters (the class `\s` of a `str` regex). */
  predicate IsSpace(c: char) {
    c == ' ' || 9 <= c as int <= 13 || 28 <= c as int <= 31
  }

  function StripLeft(s: string): (r: string)
    ensures |r| <= |s| && r == s[|s| - |r|..]
    ensures r == [] || !IsSpace(r[0])
  {
    if s != [] && IsSpace(s[0]) then StripLeft(s[1..]) else s
  }

  function StripRight(s: string): (r: string)
    ensures |r| <= |s| && r == s[..|r|]
    ensures r == [] || !IsSpace(r[|r| - 1])
  {
    if s != [] && IsSpace(s[|s| - 1]) then StripRight(s[..|s| - 1]) else s
  }

  /** Python's `str.strip()`. */
  function Strip(s: string): string {
    StripRight(StripLeft(s))
  }

  lemma StripRightKeepsFirst(s: string)
    requires s != [] && !IsSpace(s[0])
    ensures StripRight(s) != [] && StripRight(s)[0] == s[0]
  {
  }

  /** Stripping keeps a non-empty result bounded by non-space characters on both sides. */
  lemma StripBounded(s: string)
    ensures Strip(s) == [] || (!IsSpace(Strip(s)[0]) && !IsSpace(Strip(s)[|Strip(s)| - 1]))
  {
    if StripLeft(s) != [] {
      StripRightKeepsFirst(StripLeft(s));
    }
  }

  lemma StripUnchanged(s: string)
    requires s == [] || (!IsSpace(s[0]) && !IsSpace(s[|s| - 1]))
    ensures Strip(s) == s
  {
  }

  predicate AllSpace(w: string) {
    forall i :: 0 <= i < |w| ==> IsSpace(w[i])
  }

  /** Leading whitespace is removed up to the first character that is not whitespace. */
  lemma {:induction false} StripLeftOfSpaces(w: string, t: string)
    requires AllSpace(w) && (t == [] || !IsSpace(t[0]))
    ensures StripLeft(w + t) == t
  {
    if w == [] {
      assert w + t == t;
    } else {
      assert (w + t)[0] == w[0] && (w + t)[1..] == w[1..] + t;
      StripLeftOfSpaces(w[1..], t);
    }
  }

  /** Trailing whitespace is removed back to the last character that is not whitespace. */
  lemma {:induction false} StripRightOfSpaces(t: string, w: string)
    requires AllSpace(w) && (t == [] || !IsSpace(t[|t| - 1]))
    ensures StripRight(t + w) == t
  {
    if w == [] {
      assert t + w == t;
    } else {
      var w' := w[..|w| - 1];
      assert (t + w)[|t + w| - 1] == w[|w| - 1] && (t + w)[..|t + w| - 1] == t + w';
      StripRightOfSpaces(t, w');
    }
  }

  /** `str.strip()` removes exactly the whitespace around a string that starts and ends with
      something else. */
  lemma StripSurrounded(w1: string, s: string, w2: string)
    requires AllSpace(w1) && AllSpace(w2)
    requires s == [] || (!IsSpace(s[0]) && !IsSpace(s[|s| - 1]))
    ensures Strip(w1 + s + w2) == s
  {
    if s == [] {
      assert w1 + s + w2 == w1 + w2;
      assert AllSpace(w1 + w2) by {
        forall i | 0 <= i < |w1 + w2| ensures IsSpace((w1 + w2)[i]) {
          if i >= |w1| { assert (w1 + w2)[i] == w2[i - |w1|]; }
        }
      }
      StripLeftOfSpaces(w1 + w2, []);
      assert w1 + w2 + [] == w1 + w2;
    } else {
      assert w1 + s + w2 == w1 + (s + w2);
      assert (s + w2)[0] == s[0];
      StripLeftOfSpaces(w1, s + w2);
      StripRightOfSpaces(s, w2);
    }
  }

  // ---------------------------------------------------------------- integers

  predicate IsDigit(c: char) {
    '0' <= c <= '9'
  }

  function DigitChar(d: nat): char
    requires d < 10
  {
    ('0' as int + d) as char
  }

  function DigitValue(c: char): nat
    requires IsDigit(c)
  {
    c as int - '0' as int
  }

  /** Decimal digits of a natural number, most significant first, without leading zeros. */
  function NatToString(n: nat): string
  {
    if n < 10 then [DigitChar(n)] else NatToString(n / 10) + [DigitChar(n % 10)]
  }

  /** Python's `str(n)` for an integer. */
  function IntToString(n: int): string {
    if n < 0 then "-" + NatToString(-n) else NatToString(n)
  }

  /** The value of a string of decimal digits. */
  function DigitsValue(s: string): nat
    requires forall i :: 0 <= i < |s| ==> IsDigit(s[i])
  {
    if s == [] then 0 else DigitsValue(s[..|s| - 1]) * 10 + DigitValue(s[|s| - 1])
  }

  predicate AllDigits(s: string) {
    forall i :: 0 <= i < |s| ==> IsDigit(s[i])
  }

  /** Digits with single underscores between them, as Python's integer literals allow. */
  predicate GroupedDigits(s: string) {
    && s != [] && IsDigit(s[0]) && IsDigit(s[|s| - 1])
    && (forall i :: 0 <= i < |s| ==> IsDigit(s[i]) || s[i] == '_')
    && (forall i :: 0 <= i < |s| - 1 ==> s[i] == '_' ==> s[i + 1] != '_')
  }

  /** s with every underscore removed. */
  function DropUnderscores(s: string): (r: string)
    ensures (forall i :: 0 <= i < |s| ==> IsDigit(s[i]) || s[i] == '_') ==> AllDigits(r)
    ensures AllDigits(s) ==> r == s
  {
    if s == [] then []
    else DropUnderscores(s[..|s| - 1]) + (if s[|s| - 1] == '_' then [] else [s[|s| - 1]])
  }

  function ParseNat(s: string): Option<nat> {
    if GroupedDigits(s) then Some(DigitsValue(DropUnderscores(s))) else None
  }

  /** An optional sign followed by grouped digits, with nothing around them. */
  function ParseSigned(t: string): Option<int> {
    if t != [] && (t[0] == '-' || t[0] == '+') then
      match ParseNat(t[1..])
      case Some(n) =>
        var v: int := if t[0] == '-' then -(n as int) else n;
        Some(v)
      case None => None
    else
      match ParseNat(t)
      case Some(n) => Some(n)
      case None => None
  }

  /** Python's `int(s)` for a `str`: surrounding whitespace is ignored, then an optional sign and
      digits that may be grouped by single underscores; anything else is a ValueError (None). */
  function ParseInt(s: string): Option<int> {
    ParseSigned(Strip(s))
  }

  lemma StripExample()
    ensures Strip(" 7\n") == "7"
  {
    assert StripLeft(" 7\n") == "7\n";
    assert StripRight("7\n") == "7";
  }

  lemma SingleDigitParse()
    ensures ParseSigned("7") == Some(7)
  {
    var t := "7";
    assert |t| == 1 && t[0] == '7';
    assert AllDigits(t);
    UnsignedDigitsParse(t);
    assert t[..0] == [];
  }

  /** Whitespace around the text is ignored: `int(w1 + s + w2) == int(s)` for all whitespace
      w1 and w2 and every s that neither starts nor ends with whitespace. */
  lemma ParseIntIgnoresSurroundingSpace(w1: string, s: string, w2: string)
    requires AllSpace(w1) && AllSpace(w2)
    requires s == [] || (!IsSpace(s[0]) && !IsSpace(s[|s| - 1]))
    ensures ParseInt(w1 + s + w2) == ParseInt(s)
  {
    StripSurrounded(w1, s, w2);
    StripUnchanged(s);
  }

  /** For instance, " 7\n" reads as 7. */
  lemma ParseIntStripsWhitespace()
    ensures ParseInt(" 7\n") == Some(7)
  {
    StripExample();
    assert ParseInt(" 7\n") == ParseSigned("7");
    SingleDigitParse();
  }

  lemma {:induction false} DropUnderscoresAppend(x: string, y: string)
    ensures DropUnderscores(x + y) == DropUnderscores(x) + DropUnderscores(y)
  {
    if y == [] {
      assert x + y == x;
    } else {
      var y' := y[..|y| - 1];
      assert (x + y)[..|x + y| - 1] == x + y';
      DropUnderscoresAppend(x, y');
    }
  }

  /** Two digit groups joined by a single underscore read as the digits joined without it. */
  lemma UnderscoreGroupingKeepsValue(a: string, b: string)
    requires a != [] && b != [] && AllDigits(a) && AllDigits(b)
    ensures ParseInt(a + "_" + b) == ParseInt(a + b) == Some(DigitsValue(a + b))
  {
    var s := a + "_" + b;
    var t := a + b;
    JoinedGroupsAreGrouped(a, b);
    JoinedDigitsAreDigits(a, b);
    JoinedGroupsDrop(a, b);
    assert s[0] == a[0] && t[0] == a[0];
    assert s[|s| - 1] == b[|b| - 1] && t[|t| - 1] == b[|b| - 1];
    UnsignedParse(s);
    UnsignedParse(t);
  }

  /** Text that starts with a digit and ends with no space is read as grouped digits alone. */
  lemma UnsignedParse(s: string)
    requires s != [] && IsDigit(s[0]) && !IsSpace(s[|s| - 1])
    ensures GroupedDigits(s) ==> ParseInt(s) == Some(DigitsValue(DropUnderscores(s)))
    ensures !GroupedDigits(s) ==> ParseInt(s) == None
  {
    StripUnchanged(s);
  }

  lemma JoinedGroupsDrop(a: string, b: string)
    ensures DropUnderscores(a + "_" + b) == a + b
    requires AllDigits(a) && AllDigits(b)
  {
    var x := a + "_";
    assert x[..|x| - 1] == a && x[|x| - 1] == '_';
    assert DropUnderscores(x) == a;
    DropUnderscoresAppend(x, b);
  }

  lemma JoinedGroupsAreGrouped(a: string, b: string)
    requires a != [] && b != [] && AllDigits(a) && AllDigits(b)
    ensures GroupedDigits(a + "_" + b)
  {
    var s := a + "_" + b;
    assert forall i :: 0 <= i < |s| ==> (i < |a| ==> s[i] == a[i]) && (i > |a| ==> s[i] == b[i - |a| - 1]);
  }

  lemma JoinedDigitsAreDigits(a: string, b: string)
    requires AllDigits(a) && AllDigits(b)
    ensures AllDigits(a + b)
  {
    var t := a + b;
    assert forall i :: 0 <= i < |t| ==> (i < |a| ==> t[i] == a[i]) && (i >= |a| ==> t[i] == b[i - |a|]);
  }

  /** Two underscores in a row are refused. */
  lemma DoubledUnderscoreRejected(a: string, b: string)
    requires AllDigits(a) && AllDigits(b)
    ensures ParseInt(a + "__" + b) == None
  {
    var s := a + "__" + b;
    assert s[|a|] == '_' && s[|a| + 1] == '_';
    assert s[0] != '-' && s[0] != '+' by {
      if a != [] { assert s[0] == a[0]; }
    }
    assert !IsSpace(s[0]) && !IsSpace(s[|s| - 1]) by {
      if a != [] { assert s[0] == a[0]; }
      if b != [] { assert s[|s| - 1] == b[|b| - 1]; }
    }
    StripUnchanged(s);
  }

  lemma {:induction false} NatToStringDigits(n: nat)
    ensures NatToString(n) != [] && AllDigits(NatToString(n))
    ensures DigitsValue(NatToString(n)) == n
  {
    if n >= 10 {
      NatToStringDigits(n / 10);
      var s := NatToString(n);
      assert s[..|s| - 1] == NatToString(n / 10);
    }
  }

  /** Reading back the decimal rendering of any integer gives the integer. */
  lemma IntToStringRoundTrip(n: int)
    ensures ParseInt(IntToString(n)) == Some(n)
  {
    var s := IntToString(n);
    NatToStringDigits(if n < 0 then -n else n);
    assert !IsSpace(s[0]) && !IsSpace(s[|s| - 1]);
    StripUnchanged(s);
    SignedRoundTrip(n);
  }

  lemma SignedRoundTrip(n: int)
    ensures ParseSigned(IntToString(n)) == Some(n)
  {
    if n < 0 {
      NatToStringDigits(-n);
      NegativeParse(NatToString(-n));
    } else {
      NatToStringDigits(n);
      UnsignedDigitsParse(NatToString(n));
    }
  }

  /** Plain digits are read as their value. */
  lemma UnsignedDigitsParse(t: string)
    requires t != [] && AllDigits(t)
    ensures ParseSigned(t) == Some(DigitsValue(t))
  {
    DigitsParse(t);
  }

  /** A minus sign before plain digits negates their value. */
  lemma NegativeParse(t: string)
    requires t != [] && AllDigits(t)
    ensures ParseSigned("-" + t) == Some(-(DigitsValue(t) as int))
  {
    var s := "-" + t;
    assert s[0] == '-' && s[1..] == t;
    DigitsParse(t);
  }

  lemma DigitsParse(t: string)
    requires t != [] && AllDigits(t)
    ensures ParseNat(t) == Some(DigitsValue(t))
    ensures t[0] != '-' && t[0] != '+'
  {
    assert GroupedDigits(t);
    assert IsDigit(t[0]);
  }
}
