/**
 * String operations of JavaScript that the core relies on: the whitespace class
 * shared by `String.prototype.trim` and the regex class `\s`, trimming,
 * `split` on one character, `indexOf`, prefix and suffix tests, and the decimal
 * rendering of a non-negative integer inside a template literal.
 * Strings are sequences of Unicode scalar values.
 */
module Text {

  /** JavaScript's WhiteSpace and LineTerminator code points (ECMA-262). */
  predicate IsSpace(c: char) {
    || c == '\t' || c == '\n' || c == '\U{000B}' || c == '\U{000C}' || c == '\r'
    || c == ' ' || c == '\U{00A0}' || c == '\U{1680}'
    || ('\U{2000}' <= c <= '\U{200A}')
    || c == '\U{2028}' || c == '\U{2029}' || c == '\U{202F}' || c == '\U{205F}'
    || c == '\U{3000}' || c == '\U{FEFF}'
  }

  predicate AllSpace(s: string) {
    forall i :: 0 <= i < |s| ==> IsSpace(s[i])
  }

  predicate StartsWith(s: string, prefix: string) {
    prefix <= s
  }

  predicate EndsWith(s: string, suffix: string) {
    |suffix| <= |s| && s[|s| - |suffix|..] == suffix
  }

  lemma StartsWithAppend(a: string, b: string, p: string)
    requires StartsWith(a, p)
    ensures StartsWith(a + b, p)
  {
    assert (a + b)[..|p|] == a[..|p|];
  }

  lemma StartsWithDrop(s: string, p: string, x: string)
    requires StartsWith(s, p + x)
    ensures StartsWith(s[|p|..], x)
  {
    assert s[|p|..][..|x|] == (p + x)[|p|..];
  }

  lemma EndsWithAppend(a: string, b: string)
    ensures EndsWith(a + b, b)
  {
    assert (a + b)[|a|..] == b;
  }

  lemma EndsWithExtend(a: string, b: string, c: string)
    requires EndsWith(a, b)
    ensures EndsWith(a + c, b + c)
  {
    assert (a + c)[|a + c| - |b + c|..] == a[|a| - |b|..] + c;
  }

  lemma EndsWithTrans(s: string, a: string, b: string)
    requires EndsWith(s, a) && EndsWith(a, b)
    ensures EndsWith(s, b)
  {
    assert s[|s| - |b|..] == s[|s| - |a|..][|a| - |b|..];
  }

  /** Two suffixes of one string: the shorter is a suffix of the longer. */
  lemma EndsWithBoth(s: string, a: string, b: string)
    requires EndsWith(s, a) && EndsWith(s, b) && |b| <= |a|
    ensures EndsWith(a, b)
  {
    assert a[|a| - |b|..] == s[|s| - |a|..][|a| - |b|..];
  }

  /** `s.trimStart()`: the leading whitespace is removed, nothing else. */
  function TrimStart(s: string): (r: string)
    ensures |r| <= |s|
    ensures AllSpace(s[..|s| - |r|])
    ensures r == [] || !IsSpace(r[0])
  {
    if s != [] && IsSpace(s[0]) then TrimStart(s[1..]) else s
  }

  /** What `trimStart` keeps is the tail of its input. */
  lemma {:induction false} TrimStartSuffix(s: string)
    ensures TrimStart(s) == s[|s| - |TrimStart(s)|..]
  {
    if s != [] && IsSpace(s[0]) {
      TrimStartSuffix(s[1..]);
    }
  }

  /** `s.trimEnd()`: the trailing whitespace is removed, nothing else. */
  function TrimEnd(s: string): (r: string)
    ensures |r| <= |s| && r == s[..|r|]
    ensures AllSpace(s[|r|..])
    ensures r == [] || !IsSpace(r[|r| - 1])
  {
    if s != [] && IsSpace(s[|s| - 1]) then TrimEnd(s[..|s| - 1]) else s
  }

  /** `s.trim()`. */
  function Trim(s: string): string {
    TrimEnd(TrimStart(s))
  }

  lemma {:induction false} TrimStartNoop(s: string)
    requires s == [] || !IsSpace(s[0])
    ensures TrimStart(s) == s
  {
  }

  lemma {:induction false} TrimEndNoop(s: string)
    requires s == [] || !IsSpace(s[|s| - 1])
    ensures TrimEnd(s) == s
  {
  }

  /** `trim` leaves a string without whitespace at either end as it is. */
  lemma TrimNoop(s: string)
    requires s == [] || (!IsSpace(s[0]) && !IsSpace(s[|s| - 1]))
    ensures Trim(s) == s
  {
    TrimStartNoop(s);
    TrimEndNoop(s);
  }

  /** Number of occurrences of `c` in `s`. */
  function Count(s: string, c: char): nat {
    if s == [] then 0 else (if s[0] == c then 1 else 0) + Count(s[1..], c)
  }

  /** `s.indexOf(c)`: the first position of `c`, or -1. */
  function IndexOf(s: string, c: char): (r: int)
    ensures -1 <= r < |s|
    ensures r == -1 <==> c !in s
    ensures r >= 0 ==> s[r] == c && c !in s[..r]
  {
    if s == [] then -1
    else if s[0] == c then 0
    else
      var k := IndexOf(s[1..], c);
      assert s[1..][..k + 1] == s[1..k + 2] || k == -1;
      if k == -1 then -1 else k + 1
  }

  /** `s.split(d)` for a one-character separator. */
  function Split(s: string, d: char): (r: seq<string>)
    ensures |r| == Count(s, d) + 1
    ensures forall i :: 0 <= i < |r| ==> d !in r[i]
  {
    if s == [] then [[]]
    else
      var rest := Split(s[1..], d);
      if s[0] == d then [[]] + rest
      else [[s[0]] + rest[0]] + rest[1..]
  }

  /** `parts.join(d)` for a one-character separator. */
  function Join(parts: seq<string>, d: char): string {
    if parts == [] then []
    else if |parts| == 1 then parts[0]
    else parts[0] + [d] + Join(parts[1..], d)
  }

  /** A new empty first part adds one separator in front. */
  lemma JoinEmptyHead(parts: seq<string>, d: char)
    requires parts != []
    ensures Join([[]] + parts, d) == [d] + Join(parts, d)
  {
    assert ([[]] + parts)[1..] == parts;
  }

  /** A character put in front of the first part goes in front of the joined text. */
  lemma JoinExtendHead(c: char, parts: seq<string>, d: char)
    requires parts != []
    ensures Join([[c] + parts[0]] + parts[1..], d) == [c] + Join(parts, d)
  {
    var ps := [[c] + parts[0]] + parts[1..];
    assert ps[1..] == parts[1..];
  }

  /** Splitting and joining on the same separator gives the text back. */
  lemma {:induction false} JoinSplit(s: string, d: char)
    ensures Join(Split(s, d), d) == s
  {
    if s != [] {
      var rest := Split(s[1..], d);
      JoinSplit(s[1..], d);
      if s[0] == d {
        JoinEmptyHead(rest, d);
      } else {
        JoinExtendHead(s[0], rest, d);
      }
      assert s == [s[0]] + s[1..];
    }
  }

  /** Text free of the separator joins onto the first part of what follows it. */
  lemma {:induction false} SplitPrefix(p: string, t: string, d: char)
    requires d !in p
    ensures Split(p + t, d) == [p + Split(t, d)[0]] + Split(t, d)[1..]
  {
    if p != [] {
      SplitPrefix(p[1..], t, d);
      var r := Split(p[1..] + t, d);
      assert (p + t)[0] == p[0] && (p + t)[1..] == p[1..] + t;
      assert Split(p + t, d) == [[p[0]] + r[0]] + r[1..];
      assert r[0] == p[1..] + Split(t, d)[0] && r[1..] == Split(t, d)[1..];
      assert [p[0]] + (p[1..] + Split(t, d)[0]) == p + Split(t, d)[0];
    } else {
      var r := Split(t, d);
      assert p + t == t && p + r[0] == r[0];
      assert r == [r[0]] + r[1..];
    }
  }

  /** Joining parts free of the separator and splitting again gives the parts back. */
  lemma {:induction false} SplitJoin(parts: seq<string>, d: char)
    requires parts != []
    requires forall i :: 0 <= i < |parts| ==> d !in parts[i]
    ensures Split(Join(parts, d), d) == parts
  {
    if |parts| == 1 {
      SplitPrefix(parts[0], [], d);
      assert parts[0] + [] == parts[0];
    } else {
      var rest := Join(parts[1..], d);
      SplitJoin(parts[1..], d);
      SplitPrefix(parts[0], [d] + rest, d);
      assert parts[0] + [d] + rest == parts[0] + ([d] + rest);
      assert ([d] + rest)[0] == d && ([d] + rest)[1..] == rest;
      assert Split([d] + rest, d) == [[]] + parts[1..];
      assert parts[0] + [] == parts[0];
      assert parts == [parts[0]] + parts[1..];
    }
  }

  /** `parts.join('')`. */
  function Concat(parts: seq<string>): string {
    if parts == [] then [] else Concat(parts[..|parts| - 1]) + parts[|parts| - 1]
  }

  /** The joined text ends with the joined last pieces. */
  lemma ConcatLast(parts: seq<string>)
    requires parts != []
    ensures Concat(parts) == Concat(parts[..|parts| - 1]) + parts[|parts| - 1]
  {
  }

  /** The joined text starts with its first piece. */
  lemma {:induction false} ConcatStartsWith(parts: seq<string>)
    requires parts != []
    ensures StartsWith(Concat(parts), parts[0])
  {
    var init := parts[..|parts| - 1];
    if |parts| == 1 {
      assert Concat(init) == [];
      assert Concat(parts) == parts[0];
    } else {
      ConcatStartsWith(init);
      StartsWithAppend(Concat(init), parts[|parts| - 1], init[0]);
    }
  }

  /** A decimal digit. */
  predicate IsDigit(c: char) {
    '0' <= c <= '9'
  }

  /** The leading run of decimal digits. */
  function LeadingDigits(s: string): (r: string)
    ensures r <= s && forall i :: 0 <= i < |r| ==> IsDigit(r[i])
  {
    if s != [] && IsDigit(s[0]) then [s[0]] + LeadingDigits(s[1..]) else []
  }

  lemma {:induction false} LeadingDigitsOf(s: string, d: string)
    requires forall i :: 0 <= i < |d| ==> IsDigit(d[i])
    requires |d| < |s| && d <= s && !IsDigit(s[|d|])
    ensures LeadingDigits(s) == d
  {
    if d != [] {
      assert d[1..] <= s[1..];
      LeadingDigitsOf(s[1..], d[1..]);
      assert d == [d[0]] + d[1..];
    }
  }

  /** Decimal digits of a natural number, as JavaScript prints it in a template literal. */
  function NatToString(n: nat): (r: string)
    ensures r != [] && forall i :: 0 <= i < |r| ==> '0' <= r[i] <= '9'
    ensures |r| > 1 ==> r[0] != '0'
    decreases n
  {
    if n < 10 then [Digit(n)] else NatToString(n / 10) + [Digit(n % 10)]
  }

  function Digit(d: nat): (c: char)
    requires d < 10
    ensures '0' <= c <= '9' && (c as int) - ('0' as int) == d
  {
    ((d + '0' as int) as char)
  }

  /** The value of a string of decimal digits. */
  function DigitsValue(s: string): nat
    requires forall i :: 0 <= i < |s| ==> '0' <= s[i] <= '9'
  {
    if s == [] then 0
    else DigitsValue(s[..|s| - 1]) * 10 + ((s[|s| - 1] as int) - ('0' as int))
  }

  /** Printing a number and reading its digits back gives the number. */
  lemma {:induction false} NatToStringValue(n: nat)
    ensures DigitsValue(NatToString(n)) == n
    decreases n
  {
    if n >= 10 {
      NatToStringValue(n / 10);
      var s := NatToString(n);
      assert s[..|s| - 1] == NatToString(n / 10);
    }
  }
}
