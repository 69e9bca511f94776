/**
 * The few JavaScript string built-ins the todo core relies on:
 * `String.prototype.trim`, `split` on a one-character separator,
 * upper-casing a first character, and number-to-string conversion.
 */
module JsStrings {

  // ---------------------------------------------------------------------------
  // trim
  // ---------------------------------------------------------------------------

  /** ECMAScript WhiteSpace and LineTerminator code points: what `trim` strips. */
  const Whitespace: seq<char> :=
    [' ', '\t', '\n', '\r', '\U{000B}', '\U{000C}', '\U{00A0}', '\U{FEFF}', '\U{1680}',
     '\U{2000}', '\U{2001}', '\U{2002}', '\U{2003}', '\U{2004}', '\U{2005}', '\U{2006}',
     '\U{2007}', '\U{2008}', '\U{2009}', '\U{200A}',
     '\U{2028}', '\U{2029}', '\U{202F}', '\U{205F}', '\U{3000}']

  /** Whether `c` is one of the characters of `cs`. */
  predicate OneOf(c: char, cs: seq<char>) {
    cs != [] && (cs[0] == c || OneOf(c, cs[1..]))
  }

  predicate IsWhitespace(c: char) {
    OneOf(c, Whitespace)
  }

  /** How many whitespace characters `s` starts with. */
  function LeadingSpace(s: string): (n: nat)
    ensures n <= |s|
    ensures n == |s| || !IsWhitespace(s[n])
  {
    if s != [] && IsWhitespace(s[0]) then 1 + LeadingSpace(s[1..]) else 0
  }

  /** The characters counted by `LeadingSpace` are all whitespace. */
  lemma {:induction false} LeadingSpaceIsWhitespace(s: string)
    ensures forall i :: 0 <= i < LeadingSpace(s) ==> IsWhitespace(s[i])
  {
    if s != [] && IsWhitespace(s[0]) {
      LeadingSpaceIsWhitespace(s[1..]);
      forall i | 1 <= i < LeadingSpace(s) ensures IsWhitespace(s[i]) {
        assert s[i] == s[1..][i - 1];
      }
    }
  }

  /** The length of `s` without its trailing whitespace. */
  function TrailingStart(s: string): (n: nat)
    ensures n <= |s|
    ensures n == 0 || !IsWhitespace(s[n - 1])
  {
    if s != [] && IsWhitespace(s[|s| - 1]) then TrailingStart(s[..|s| - 1]) else |s|
  }

  /** The characters past `TrailingStart` are all whitespace. */
  lemma {:induction false} TrailingStartIsWhitespace(s: string)
    ensures forall i :: TrailingStart(s) <= i < |s| ==> IsWhitespace(s[i])
  {
    if s != [] && IsWhitespace(s[|s| - 1]) {
      TrailingStartIsWhitespace(s[..|s| - 1]);
      forall i | TrailingStart(s) <= i < |s| - 1 ensures IsWhitespace(s[i]) {
        assert s[i] == s[..|s| - 1][i];
      }
    }
  }

  /** `s.trim()`: leading and then trailing whitespace dropped. */
  function Trim(s: string): string {
    var k := LeadingSpace(s);
    s[k..][..TrailingStart(s[k..])]
  }

  /**
   * What `trim` leaves is the middle of `s` between a whitespace prefix and a
   * whitespace suffix, and it starts and ends with a non-whitespace character.
   */
  lemma TrimMiddle(s: string)
    ensures var r, k := Trim(s), LeadingSpace(s);
      && k + |r| <= |s| && r == s[k..k + |r|]
      && (forall i :: 0 <= i < k ==> IsWhitespace(s[i]))
      && (forall i :: k + |r| <= i < |s| ==> IsWhitespace(s[i]))
    ensures var r := Trim(s);
      r == [] || (!IsWhitespace(r[0]) && !IsWhitespace(r[|r| - 1]))
  {
    var k := LeadingSpace(s);
    var t := s[k..];
    var m := TrailingStart(t);
    var r := t[..m];
    assert Trim(s) == r;
    assert r == s[k..k + m];
    LeadingSpaceIsWhitespace(s);
    TrailingStartIsWhitespace(t);
    forall i | k + m <= i < |s| ensures IsWhitespace(s[i]) {
      assert s[i] == t[i - k];
    }
    if m > 0 {
      assert r[0] == s[k];
      assert r[m - 1] == t[m - 1];
    }
  }

  /** `trim` gives the empty string exactly when `s` is all whitespace. */
  lemma TrimEmpty(s: string)
    ensures Trim(s) == [] <==> forall i :: 0 <= i < |s| ==> IsWhitespace(s[i])
  {
    TrimMiddle(s);
    if Trim(s) != [] {
      assert Trim(s)[0] == s[LeadingSpace(s)];
    }
  }

  /** Trimming twice is trimming once. */
  lemma TrimIdempotent(s: string)
    ensures Trim(Trim(s)) == Trim(s)
  {
    var r := Trim(s);
    TrimMiddle(s);
    assert LeadingSpace(r) == 0;
    assert TrailingStart(r) == |r|;
    assert r[0..] == r && r[..|r|] == r;
  }

  // ---------------------------------------------------------------------------
  // split
  // ---------------------------------------------------------------------------

  /** `s.split(sep)` for a one-character separator: never empty, no part holds `sep`. */
  function Split(s: string, sep: char): (parts: seq<string>)
    ensures |parts| >= 1
    ensures forall i :: 0 <= i < |parts| ==> sep !in parts[i]
  {
    if s == [] then [[]]
    else
      var rest := Split(s[1..], sep);
      if s[0] == sep then [[]] + rest else [[s[0]] + rest[0]] + rest[1..]
  }

  /** `parts.join(sep)`. */
  function Join(parts: seq<string>, sep: char): string
    requires |parts| >= 1
  {
    if |parts| == 1 then parts[0] else parts[0] + [sep] + Join(parts[1..], sep)
  }

  /** Joining the parts of a split with the same separator gives the string back. */
  lemma {:induction false} JoinSplit(s: string, sep: char)
    ensures Join(Split(s, sep), sep) == s
  {
    if s != [] {
      var rest := Split(s[1..], sep);
      JoinSplit(s[1..], sep);
      var parts := Split(s, sep);
      if s[0] == sep {
        assert parts[1..] == rest;
      } else if |rest| > 1 {
        assert parts[1..] == rest[1..];
        assert Join(rest, sep) == rest[0] + [sep] + Join(rest[1..], sep);
      }
    }
  }

  /** A string without the separator splits into itself alone. */
  lemma {:induction false} SplitWithout(s: string, sep: char)
    requires sep !in s
    ensures Split(s, sep) == [s]
  {
    if s != [] {
      SplitWithout(s[1..], sep);
      assert [s[0]] + s[1..] == s;
    }
  }

  /** Splitting `q + sep + p`, where `q` has no separator, gives `q` and then the parts of `p`. */
  lemma {:induction false} SplitAfterFirst(q: string, p: string, sep: char)
    requires sep !in q
    ensures Split(q + [sep] + p, sep) == [q] + Split(p, sep)
  {
    if q == [] {
      assert ([sep] + p)[1..] == p;
    } else {
      assert (q + [sep] + p)[1..] == q[1..] + [sep] + p;
      SplitAfterFirst(q[1..], p, sep);
      assert [q[0]] + q[1..] == q;
    }
  }

  // ---------------------------------------------------------------------------
  // upper-casing the first character
  // ---------------------------------------------------------------------------

  /** `toUpperCase` on one character, for the ASCII letters. */
  function ToUpper(c: char): char {
    if 'a' <= c <= 'z' then (c as int - 32) as char else c
  }

  /** `s.charAt(0).toUpperCase() + s.substr(1)`. */
  function UpperFirst(s: string): string {
    if s == [] then [] else [ToUpper(s[0])] + s[1..]
  }

  /** Upper-casing the first character keeps the length and the rest, and leaves no lower-case first letter. */
  lemma UpperFirstShape(s: string)
    ensures |UpperFirst(s)| == |s|
    ensures s != [] ==> UpperFirst(s)[1..] == s[1..] && !('a' <= UpperFirst(s)[0] <= 'z')
  {
  }

  // ---------------------------------------------------------------------------
  // numbers as decimal text
  // ---------------------------------------------------------------------------

  predicate IsDigit(c: char) {
    '0' <= c <= '9'
  }

  function DigitChar(d: nat): (c: char)
    requires d < 10
  {
    ('0' as int + d) as char
  }

  /** The decimal text of a natural number: digits only, no leading zero. */
  function NatToString(n: nat): (r: string)
    ensures |r| >= 1
    ensures forall i :: 0 <= i < |r| ==> IsDigit(r[i])
    ensures r[0] == '0' ==> n == 0
    decreases n
  {
    if n < 10 then [DigitChar(n)] else NatToString(n / 10) + [DigitChar(n % 10)]
  }

  /** JavaScript's `String(n)` for an integer: an optional minus sign, then decimal digits. */
  function IntToString(n: int): (r: string)
    ensures |r| >= 1
    ensures r[0] == '-' <==> n < 0
    ensures forall i :: 0 <= i < |r| ==> IsDigit(r[i]) || (i == 0 && r[i] == '-')
  {
    if n < 0 then "-" + NatToString(-n) else NatToString(n)
  }

  /** The value of a run of decimal digits. */
  function DigitsValue(s: string): nat
    requires forall i :: 0 <= i < |s| ==> IsDigit(s[i])
  {
    if s == [] then 0
    else
      assert IsDigit(s[|s| - 1]);
      DigitsValue(s[..|s| - 1]) * 10 + (s[|s| - 1] as int - '0' as int)
  }

  /** Reading back the decimal text of `n` gives `n`. */
  lemma {:induction false} NatToStringRoundTrip(n: nat)
    ensures DigitsValue(NatToString(n)) == n
    decreases n
  {
    if n >= 10 {
      NatToStringRoundTrip(n / 10);
      var r := NatToString(n);
      assert r[..|r| - 1] == NatToString(n / 10);
    }
  }
}
