/**
 * The pieces of Python's str API that the modelled code relies on: strip,
 * split, join, substring search, ASCII case mapping, and the decimal
 * conversions behind `str(n)` and `int(s)`.
 */
module Strings {
  import opened Wrappers

  /** The ASCII characters that `str.strip()` and `str.split()` treat as whitespace. */
  predicate IsSpace(c: char) {
    c == ' ' || c == '\t' || c == '\n' || c == '\r' || c == '\U{000B}' || c == '\U{000C}' ||
    '\U{001C}' <= c <= '\U{001F}'
  }

  predicate IsDigit(c: char) {
    '0' <= c <= '9'
  }

  predicate IsAsciiAlnum(c: char) {
    IsDigit(c) || 'a' <= c <= 'z' || 'A' <= c <= 'Z'
  }

  predicate AllDigits(s: string) {
    forall i | 0 <= i < |s| :: IsDigit(s[i])
  }

  /** `sub` occurs in `s` starting at index `i`. */
  predicate OccursAt(s: string, sub: string, i: int) {
    0 <= i <= |s| - |sub| && s[i..i + |sub|] == sub
  }

  /** `sub in s` */
  predicate Contains(s: string, sub: string) {
    exists i | 0 <= i <= |s| - |sub| :: OccursAt(s, sub, i)
  }

  /** `s.startswith(p)` */
  predicate StartsWith(s: string, p: string) {
    |p| <= |s| && s[..|p|] == p
  }

  /** `s.lstrip()` */
  function StripLeft(s: string): (r: string)
    ensures |r| <= |s|
    ensures r == [] || !IsSpace(r[0])
    ensures forall i | 0 <= i < |s| - |r| :: IsSpace(s[i])
    decreases |s|
  {
    if |s| > 0 && IsSpace(s[0]) then StripLeft(s[1..]) else s
  }

  /** `s.rstrip()` */
  function StripRight(s: string): (r: string)
    ensures |r| <= |s| && r == s[..|r|]
    ensures r == [] || !IsSpace(r[|r| - 1])
    ensures forall i | |r| <= i < |s| :: IsSpace(s[i])
    decreases |s|
  {
    if |s| > 0 && IsSpace(s[|s| - 1]) then StripRight(s[..|s| - 1]) else s
  }

  /** `s.strip()`: a string with no whitespace at either end is returned unchanged. */
  function Strip(s: string): (r: string)
    ensures |r| <= |s|
    ensures r == [] || (!IsSpace(r[0]) && !IsSpace(r[|r| - 1]))
    ensures |s| > 0 && !IsSpace(s[0]) && !IsSpace(s[|s| - 1]) ==> r == s
  {
    StripRight(StripLeft(s))
  }

  /** `s.rstrip(c)` for a single character `c`. */
  function TrimRightChar(s: string, c: char): (r: string)
    ensures |r| <= |s| && r == s[..|r|]
    ensures r == [] || r[|r| - 1] != c
    ensures forall i | |r| <= i < |s| :: s[i] == c
    decreases |s|
  {
    if |s| > 0 && s[|s| - 1] == c then TrimRightChar(s[..|s| - 1], c) else s
  }

  /** `s.lstrip(c)` for a single character `c`. */
  function TrimLeftChar(s: string, c: char): (r: string)
    ensures |r| <= |s| && r == s[|s| - |r|..]
    ensures r == [] || r[0] != c
    ensures forall i | 0 <= i < |s| - |r| :: s[i] == c
    decreases |s|
  {
    if |s| > 0 && s[0] == c then TrimLeftChar(s[1..], c) else s
  }

  /** `s.find(c)`, as an option. */
  function IndexOf(s: string, c: char): (r: Option<nat>)
    ensures r.None? <==> c !in s
    ensures r.Some? ==> r.value < |s| && s[r.value] == c && c !in s[..r.value]
    decreases |s|
  {
    if |s| == 0 then None
    else if s[0] == c then Some(0)
    else
      var k := IndexOf(s[1..], c);
      if k.None? then None else Some(k.value + 1)
  }

  /** `sep.join(parts)` */
  function Join(parts: seq<string>, sep: string): string
    decreases |parts|
  {
    if |parts| == 0 then ""
    else if |parts| == 1 then parts[0]
    else parts[0] + sep + Join(parts[1..], sep)
  }

  /** `s.split(c)` for a one-character separator: never empty, and joining gives `s` back. */
  function Split(s: string, c: char): (r: seq<string>)
    ensures |r| >= 1
    ensures forall i | 0 <= i < |r| :: c !in r[i]
    ensures Join(r, [c]) == s
    decreases |s|
  {
    var k := IndexOf(s, c);
    if k.None? then [s]
    else
      var rest := Split(s[k.value + 1..], c);
      assert s == s[..k.value] + [c] + s[k.value + 1..];
      [s[..k.value]] + rest
  }

  /** Joining one more part at the end. */
  lemma {:induction false} JoinSnoc(parts: seq<string>, x: string, sep: string)
    requires |parts| >= 1
    ensures Join(parts + [x], sep) == Join(parts, sep) + sep + x
    decreases |parts|
  {
    if |parts| == 1 {
      assert parts + [x] == [parts[0], x];
    } else {
      JoinSnoc(parts[1..], x, sep);
      assert (parts + [x])[1..] == parts[1..] + [x];
    }
  }

  /** `s.split(c)` undoes `c.join(parts)` when no part contains `c`. */
  lemma {:induction false} SplitJoin(parts: seq<string>, c: char)
    requires |parts| >= 1
    requires forall i | 0 <= i < |parts| :: c !in parts[i]
    ensures Split(Join(parts, [c]), c) == parts
    decreases |parts|
  {
    if |parts| == 1 {
      assert IndexOf(parts[0], c).None?;
    } else {
      var s := Join(parts, [c]);
      var rest := Join(parts[1..], [c]);
      assert s == parts[0] + [c] + rest;
      SplitFirstOfJoin(parts[0], rest, c);
      SplitJoin(parts[1..], c);
      assert parts == [parts[0]] + parts[1..];
    }
  }

  /** Splitting at the first `c` recovers the two halves when the first holds no `c`. */
  lemma {:induction false} SplitFirstOfJoin(x: string, y: string, c: char)
    requires c !in x
    ensures SplitFirst(x + [c] + y, c) == Some((x, y))
  {
    var s := x + [c] + y;
    var k := IndexOf(s, c);
    assert s[|x|] == c;
    assert s[..|x|] == x;
    assert s[|x| + 1..] == y;
  }

  /** Every piece `s.split(c)` returns is no longer than `s`, and shorter when `c in s`. */
  lemma {:induction false} SplitPartsShorter(s: string, c: char)
    ensures forall i | 0 <= i < |Split(s, c)| :: |Split(s, c)[i]| <= |s|
    ensures c in s ==> forall i | 0 <= i < |Split(s, c)| :: |Split(s, c)[i]| < |s|
    decreases |s|
  {
    var k := IndexOf(s, c);
    if k.Some? {
      var tail := s[k.value + 1..];
      var rest := Split(tail, c);
      SplitPartsShorter(tail, c);
      var parts := Split(s, c);
      assert parts == [s[..k.value]] + rest;
      forall i | 0 <= i < |parts|
        ensures |parts[i]| < |s|
      {
        if i > 0 {
          assert parts[i] == rest[i - 1];
        }
      }
    }
  }

  /** `s.split(c, 1)` when `c in s`: the text before and after the first `c`. */
  function SplitFirst(s: string, c: char): (r: Option<(string, string)>)
    ensures r.None? <==> c !in s
    ensures r.Some? ==> c !in r.value.0 && s == r.value.0 + [c] + r.value.1
  {
    var k := IndexOf(s, c);
    if k.None? then None
    else
      assert s == s[..k.value] + [c] + s[k.value + 1..];
      Some((s[..k.value], s[k.value + 1..]))
  }

  /** Length of the leading run of non-whitespace characters. */
  function WordLength(s: string): (n: nat)
    ensures n <= |s|
    ensures forall i | 0 <= i < n :: !IsSpace(s[i])
    ensures n == |s| || IsSpace(s[n])
    decreases |s|
  {
    if |s| == 0 || IsSpace(s[0]) then 0 else 1 + WordLength(s[1..])
  }

  /** A non-empty run of non-whitespace characters. */
  predicate IsWord(w: string) {
    w != [] && forall j | 0 <= j < |w| :: !IsSpace(w[j])
  }

  /** `s.split()`: the words between runs of whitespace. */
  function SplitWhitespace(s: string): seq<string>
    decreases |s|
  {
    var t := StripLeft(s);
    if t == [] then []
    else
      var w := WordLength(t);
      [t[..w]] + SplitWhitespace(t[w..])
  }

  /** No word `s.split()` returns is empty or holds whitespace. */
  lemma {:induction false} SplitWhitespaceWords(s: string)
    ensures forall i | 0 <= i < |SplitWhitespace(s)| :: IsWord(SplitWhitespace(s)[i])
    decreases |s|
  {
    var t := StripLeft(s);
    if t != [] {
      var w := WordLength(t);
      var rest := SplitWhitespace(t[w..]);
      SplitWhitespaceWords(t[w..]);
      var words := SplitWhitespace(s);
      assert words == [t[..w]] + rest;
      forall i | 0 <= i < |words|
        ensures IsWord(words[i])
      {
        if i > 0 {
          assert words[i] == rest[i - 1];
        }
      }
    }
  }

  /** A word followed by nothing or by whitespace: the word is the leading run. */
  lemma {:induction false} WordLengthOfWord(w: string, t: string)
    requires forall j | 0 <= j < |w| :: !IsSpace(w[j])
    requires t == [] || IsSpace(t[0])
    ensures WordLength(w + t) == |w|
    decreases |w|
  {
    if w != [] {
      WordLengthOfWord(w[1..], t);
      assert (w + t)[1..] == w[1..] + t;
    }
  }

  /** A string with no whitespace is its own `strip()`. */
  lemma {:induction false} StripOfWord(w: string)
    requires forall j | 0 <= j < |w| :: !IsSpace(w[j])
    ensures Strip(w) == w
  {
    if w == [] {
      assert StripLeft(w) == w;
      assert StripRight(w) == w;
    }
  }

  /** `" ".join(words).split() == words` when every word is non-empty and has no whitespace. */
  lemma {:induction false} SplitWhitespaceJoin(words: seq<string>)
    requires forall i | 0 <= i < |words| :: IsWord(words[i])
    ensures SplitWhitespace(Join(words, " ")) == words
    decreases |words|
  {
    if |words| == 0 {
      assert StripLeft("") == "";
    } else {
      var w := words[0];
      assert IsWord(w);
      if |words| == 1 {
        var s := Join(words, " ");
        assert s == w && StripLeft(s) == s;
        WordLengthOfWord(w, []);
        assert w + [] == w;
        assert s[|w|..] == [] && StripLeft([]) == [];
        assert s[..|w|] == w;
      } else {
        var rest := Join(words[1..], " ");
        var s := Join(words, " ");
        assert s == w + (" " + rest);
        assert StripLeft(s) == s;
        WordLengthOfWord(w, " " + rest);
        assert s[..|w|] == w;
        assert s[|w|..] == " " + rest;
        assert StripLeft(" " + rest) == StripLeft(rest);
        assert SplitWhitespace(" " + rest) == SplitWhitespace(rest);
        SplitWhitespaceJoin(words[1..]);
        assert words == [w] + words[1..];
      }
    }
  }

  /** `s.replace(a, b)` for single characters. */
  function ReplaceChar(s: string, a: char, b: char): (r: string)
    ensures |r| == |s|
    ensures forall i | 0 <= i < |s| :: r[i] == if s[i] == a then b else s[i]
  {
    seq(|s|, i requires 0 <= i < |s| => if s[i] == a then b else s[i])
  }

  function LowerChar(c: char): char {
    if 'A' <= c <= 'Z' then (c as int + 32) as char else c
  }

  /** `s.lower()` on the ASCII letters. */
  function Lower(s: string): (r: string)
    ensures |r| == |s|
    ensures forall i | 0 <= i < |s| :: r[i] == LowerChar(s[i])
  {
    seq(|s|, i requires 0 <= i < |s| => LowerChar(s[i]))
  }

  function UpperChar(c: char): char {
    if 'a' <= c <= 'z' then (c as int - 32) as char else c
  }

  /** `s.upper()` on the ASCII letters. */
  function Upper(s: string): (r: string)
    ensures |r| == |s|
    ensures forall i | 0 <= i < |s| :: r[i] == UpperChar(s[i])
  {
    seq(|s|, i requires 0 <= i < |s| => UpperChar(s[i]))
  }

  function DigitChar(d: nat): (c: char)
    requires d < 10
    ensures IsDigit(c)
  {
    (48 + d) as char
  }

  function DigitValue(c: char): nat
    requires IsDigit(c)
  {
    c as int - 48
  }

  /** `str(n)` for a natural number: one or more decimal digits. */
  function NatToString(n: nat): (r: string)
    ensures |r| >= 1 && AllDigits(r)
    decreases n
  {
    if n < 10 then [DigitChar(n)] else NatToString(n / 10) + [DigitChar(n % 10)]
  }

  /** `str(n)` for any integer: digits, after a minus sign when `n` is negative. */
  function IntToString(n: int): (r: string)
    ensures |r| >= 1
    ensures forall i | 0 <= i < |r| :: IsDigit(r[i]) || (i == 0 && r[i] == '-')
  {
    if n < 0 then "-" + NatToString(-n) else NatToString(n)
  }

  /** `int(x)` on a float: truncation toward zero. */
  function Truncate(x: real): (n: int)
    ensures x >= 0.0 ==> n as real <= x < n as real + 1.0
    ensures x < 0.0 ==> n as real - 1.0 < x <= n as real
  {
    if x >= 0.0 then x.Floor else -((-x).Floor)
  }

  /** The value of a string of decimal digits. */
  function DigitsValue(s: string): nat
    requires AllDigits(s)
    decreases |s|
  {
    if s == [] then 0 else DigitsValue(s[..|s| - 1]) * 10 + DigitValue(s[|s| - 1])
  }

  /** One or more decimal digits, read as a number; anything else is refused. */
  function ParseDigits(t: string): Option<nat> {
    if t != [] && AllDigits(t) then Some(DigitsValue(t)) else None
  }

  /** `t` with no surrounding whitespace: an optional sign, then digits. */
  function ParseSigned(t: string): Option<int> {
    if t == [] then None
    else if t[0] == '-' then
      var v := ParseDigits(t[1..]);
      if v.None? then None else Some(0 - v.value)
    else if t[0] == '+' then
      var v := ParseDigits(t[1..]);
      if v.None? then None else Some(v.value as int)
    else
      var v := ParseDigits(t);
      if v.None? then None else Some(v.value as int)
  }

  /**
   * `int(s)` on a base-10 string: surrounding whitespace, an optional sign and
   * at least one digit. `None` stands for the ValueError Python raises.
   */
  function ParseInt(s: string): Option<int> {
    ParseSigned(Strip(s))
  }

  lemma {:induction false} NatToStringRoundTrip(n: nat)
    ensures DigitsValue(NatToString(n)) == n
    decreases n
  {
    if n >= 10 {
      NatToStringRoundTrip(n / 10);
      var s := NatToString(n);
      assert s[..|s| - 1] == NatToString(n / 10);
    }
  }

  /** A digit string parses to its value. */
  lemma {:induction false} ParseIntOfDigits(d: string)
    requires |d| >= 1 && AllDigits(d)
    ensures ParseInt(d) == Some(DigitsValue(d) as int)
  {
    assert IsDigit(d[0]) && IsDigit(d[|d| - 1]);
    assert Strip(d) == d;
  }

  /** A digit string after a minus sign parses to the negated value. */
  lemma {:induction false} ParseIntOfNegatedDigits(d: string, n: int)
    requires |d| >= 1 && AllDigits(d) && DigitsValue(d) == -n
    ensures ParseInt("-" + d) == Some(n)
  {
    var m := "-" + d;
    assert m[0] == '-' && m[1..] == d;
    assert IsDigit(d[|d| - 1]);
    assert m[|m| - 1] == d[|d| - 1];
    assert Strip(m) == m;
    assert ParseDigits(d) == Some(DigitsValue(d));
    assert ParseSigned(m) == Some(n);
    assert ParseInt(m) == ParseSigned(Strip(m));
  }

  /** `int(str(n)) == n`: the decimal rendering is read back exactly. */
  lemma {:induction false} IntToStringRoundTrip(n: int)
    ensures ParseInt(IntToString(n)) == Some(n)
  {
    if n < 0 {
      var d := NatToString(-n);
      assert IntToString(n) == "-" + d;
      NatToStringRoundTrip(-n);
      ParseIntOfNegatedDigits(d, n);
    } else {
      var d := NatToString(n);
      assert IntToString(n) == d;
      NatToStringRoundTrip(n);
      ParseIntOfDigits(d);
    }
  }

  /** `str` is injective on integers. */
  lemma {:induction false} IntToStringInjective(a: int, b: int)
    requires IntToString(a) == IntToString(b)
    ensures a == b
  {
    IntToStringRoundTrip(a);
    IntToStringRoundTrip(b);
  }
}
