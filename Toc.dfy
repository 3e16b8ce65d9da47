/**
 * `extractToc`: the level-2 and level-3 headings of a parsed document, with
 * the ids the anchor plugin already put on them, in document order. The
 * parse itself is the caller's: the extractor gets the token sequence.
 */
module Toc {
  import opened Text
  import opened Wrappers
  import opened Tokens

  /** `{ level, text, slug }`. */
  datatype Heading = Heading(level: int, text: string, slug: string)

  /** A digit of base `radix` (10 or 16), as `parseInt` reads it. */
  predicate IsRadixDigit(c: char, radix: nat) {
    if radix == 16 then IsDigit(c) || 'a' <= c <= 'f' || 'A' <= c <= 'F' else IsDigit(c)
  }

  function DigitValue(c: char): nat {
    if IsDigit(c) then (c as int) - ('0' as int)
    else if 'a' <= c <= 'f' then (c as int) - ('a' as int) + 10
    else if 'A' <= c <= 'F' then (c as int) - ('A' as int) + 10
    else 0
  }

  /** The leading run of digits of base `radix`. */
  function RadixDigits(s: string, radix: nat): (r: string)
    ensures r <= s && forall i :: 0 <= i < |r| ==> IsRadixDigit(r[i], radix)
  {
    if s != [] && IsRadixDigit(s[0], radix) then [s[0]] + RadixDigits(s[1..], radix) else []
  }

  /** The value of a string of digits of base `radix`. */
  function RadixValue(s: string, radix: nat): nat {
    if s == [] then 0
    else if radix == 16 then RadixValue(s[..|s| - 1], radix) * 16 + DigitValue(s[|s| - 1])
    else RadixValue(s[..|s| - 1], radix) * 10 + DigitValue(s[|s| - 1])
  }

  /** A `0x` or `0X` prefix. */
  predicate HexPrefixed(u: string) {
    |u| >= 2 && u[0] == '0' && (u[1] == 'x' || u[1] == 'X')
  }

  /** The digits after the sign: base 16 after a `0x` prefix, else base 10; None without a digit. */
  function ParseUnsigned(u: string): Option<nat> {
    var radix := if HexPrefixed(u) then 16 else 10;
    var digits := RadixDigits(if HexPrefixed(u) then u[2..] else u, radix);
    if digits == [] then None else Some(RadixValue(digits, radix))
  }

  /** The text after one leading `-` or `+`. */
  function DropSign(t: string): string {
    if t != [] && (t[0] == '-' || t[0] == '+') then t[1..] else t
  }

  /**
   * `parseInt(s)`: leading whitespace is skipped, one sign is read, a `0x` or
   * `0X` prefix switches to base 16, then the longest run of digits is the
   * number; with no digit the result is NaN, here None.
   */
  function ParseInt(s: string): Option<int> {
    var t := TrimStart(s);
    match ParseUnsigned(DropSign(t))
    case None => None
    case Some(value) => Some(if t != [] && t[0] == '-' then -(value as int) else value)
  }

  /** A run of decimal digits read in base 10 is the value `DigitsValue` gives. */
  lemma {:induction false} RadixValueDecimal(s: string)
    requires forall i :: 0 <= i < |s| ==> '0' <= s[i] <= '9'
    ensures RadixValue(s, 10) == DigitsValue(s)
    decreases |s|
  {
    if s != [] {
      RadixValueDecimal(s[..|s| - 1]);
    }
  }

  /** The whole of a string of decimal digits is its leading run. */
  lemma {:induction false} RadixDigitsAll(s: string)
    requires forall i :: 0 <= i < |s| ==> '0' <= s[i] <= '9'
    ensures RadixDigits(s, 10) == s
    decreases |s|
  {
    if s != [] {
      RadixDigitsAll(s[1..]);
    }
  }

  /** Unsigned decimal digits with no leading zero are read in base 10 as their value. */
  lemma ParseUnsignedDecimal(u: string)
    requires u != [] && forall i :: 0 <= i < |u| ==> '0' <= u[i] <= '9'
    requires |u| >= 2 ==> u[0] != '0'
    ensures ParseUnsigned(u) == Some(DigitsValue(u))
  {
    assert !HexPrefixed(u);
    RadixDigitsAll(u);
    RadixValueDecimal(u);
  }

  /** `parseInt` reads back a printed natural number. */
  lemma ParseIntNat(n: nat)
    ensures ParseInt(NatToString(n)) == Some(n)
  {
    var s := NatToString(n);
    TrimStartNoop(s);
    assert DropSign(s) == s;
    ParseUnsignedDecimal(s);
    NatToStringValue(n);
  }

  /** `parseInt(tag.slice(1))`. */
  function Level(tag: string): Option<int> {
    ParseInt(if tag == [] then [] else tag[1..])
  }

  /** The level of `hN` is N. */
  lemma LevelOfTag(n: nat)
    ensures Level("h" + NatToString(n)) == Some(n)
  {
    assert ("h" + NatToString(n))[1..] == NatToString(n);
    ParseIntNat(n);
  }

  /** The entry the token at `i` contributes: none, or one heading. */
  function EntryAt(ts: seq<Token>, i: nat, levelOf: string -> Option<int>): seq<Heading>
    requires i < |ts|
  {
    if ts[i].kind != HeadingOpen then []
    else
      match levelOf(ts[i].tag)
      case None => []
      case Some(level) =>
        if !(2 <= level <= 3) then []
        else
          var slug := ts[i].id.GetOr("");
          var text := if i + 1 < |ts| then ts[i + 1].content else "";
          if slug != "" then [Heading(level, text, slug)] else []
  }

  /** The table of contents of the first `n` tokens. */
  function TocOf(ts: seq<Token>, n: nat, levelOf: string -> Option<int>): (r: seq<Heading>)
    requires n <= |ts|
    ensures |r| <= n
  {
    if n == 0 then [] else TocOf(ts, n - 1, levelOf) + EntryAt(ts, n - 1, levelOf)
  }

  /** One more token adds its entry at the end of the table. */
  lemma TocOfNext(ts: seq<Token>, i: nat, levelOf: string -> Option<int>)
    requires i < |ts|
    ensures TocOf(ts, i + 1, levelOf) == TocOf(ts, i, levelOf) + EntryAt(ts, i, levelOf)
  {
  }

  /** One pass of the loop in `extractToc`: the heading the token at `i` adds, if any. */
  method HeadingAt(tokens: array<Token>, i: nat) returns (entry: seq<Heading>)
    requires i < tokens.Length
    ensures entry == EntryAt(tokens[..], i, Level)
  {
    entry := [];
    if tokens[i].kind == HeadingOpen {
      var level := Level(tokens[i].tag);
      if level.Some? && 2 <= level.value <= 3 {
        var slug := tokens[i].id.GetOr("");
        var text := if i + 1 < tokens.Length then tokens[i + 1].content else "";
        if slug != "" {
          entry := [Heading(level.value, text, slug)];
        }
      }
    }
  }

  /** `extractToc` on the parsed tokens. */
  method ExtractToc(tokens: array<Token>) returns (headings: seq<Heading>)
    ensures headings == TocOf(tokens[..], tokens.Length, Level)
  {
    ghost var ts := tokens[..];
    headings := [];
    var i := 0;
    while i < tokens.Length
      invariant 0 <= i <= tokens.Length
      invariant headings == TocOf(ts, i, Level)
    {
      var entry := HeadingAt(tokens, i);
      TocOfNext(ts, i, Level);
      headings := headings + entry;
      i := i + 1;
    }
  }

  /** The token at `i` is listed: a level-2 or level-3 heading with a non-empty id. */
  predicate Listed(ts: seq<Token>, i: nat, levelOf: string -> Option<int>)
    requires i < |ts|
  {
    && ts[i].kind == HeadingOpen
    && levelOf(ts[i].tag).Some? && 2 <= levelOf(ts[i].tag).value <= 3
    && ts[i].id.Some? && ts[i].id.value != ""
  }

  /** The heading a listed token gives: its level, the next token's text, its id. */
  function HeadingFor(ts: seq<Token>, i: nat, levelOf: string -> Option<int>): Heading
    requires i < |ts| && Listed(ts, i, levelOf)
  {
    Heading(levelOf(ts[i].tag).value, if i + 1 < |ts| then ts[i + 1].content else "", ts[i].id.value)
  }

  lemma EntryAtListed(ts: seq<Token>, i: nat, levelOf: string -> Option<int>)
    requires i < |ts|
    ensures Listed(ts, i, levelOf) ==> EntryAt(ts, i, levelOf) == [HeadingFor(ts, i, levelOf)]
    ensures !Listed(ts, i, levelOf) ==> EntryAt(ts, i, levelOf) == []
  {
  }

  /** The table of the first `m` tokens starts the table of the first `n`. */
  lemma {:induction false} TocPrefix(ts: seq<Token>, m: nat, n: nat, levelOf: string -> Option<int>)
    requires m <= n <= |ts|
    ensures TocOf(ts, m, levelOf) <= TocOf(ts, n, levelOf)
    decreases n - m
  {
    if m < n {
      TocPrefix(ts, m, n - 1, levelOf);
    }
  }

  /**
   * Each listed heading is in the table, at the position given by the number
   * of listed headings before it: the table keeps document order.
   */
  lemma TocListsHeading(ts: seq<Token>, i: nat, levelOf: string -> Option<int>)
    requires i < |ts| && Listed(ts, i, levelOf)
    ensures |TocOf(ts, i, levelOf)| < |TocOf(ts, |ts|, levelOf)|
    ensures TocOf(ts, |ts|, levelOf)[|TocOf(ts, i, levelOf)|] == HeadingFor(ts, i, levelOf)
  {
    EntryAtListed(ts, i, levelOf);
    assert TocOf(ts, i + 1, levelOf) == TocOf(ts, i, levelOf) + [HeadingFor(ts, i, levelOf)];
    TocPrefix(ts, i + 1, |ts|, levelOf);
    assert TocOf(ts, i + 1, levelOf)[|TocOf(ts, i, levelOf)|] == HeadingFor(ts, i, levelOf);
  }

  /**
   * Every entry of the table comes from a listed heading: its level is 2 or
   * 3, its slug is the token's non-empty id, its text the next token's.
   */
  lemma {:induction false} TocEntriesListed(ts: seq<Token>, n: nat, k: nat, levelOf: string -> Option<int>) returns (i: nat)
    requires n <= |ts| && k < |TocOf(ts, n, levelOf)|
    ensures i < n && Listed(ts, i, levelOf) && TocOf(ts, n, levelOf)[k] == HeadingFor(ts, i, levelOf)
    decreases n
  {
    var init, entry := TocOf(ts, n - 1, levelOf), EntryAt(ts, n - 1, levelOf);
    EntryAtListed(ts, n - 1, levelOf);
    assert TocOf(ts, n, levelOf) == init + entry;
    if k < |init| {
      i := TocEntriesListed(ts, n - 1, k, levelOf);
      assert TocOf(ts, n, levelOf)[k] == init[k];
    } else {
      i := n - 1;
      assert entry == [HeadingFor(ts, i, levelOf)];
    }
  }

  /** Every entry has level 2 or 3 and a non-empty slug. */
  lemma TocEntryBounds(ts: seq<Token>, n: nat, k: nat, levelOf: string -> Option<int>)
    requires n <= |ts| && k < |TocOf(ts, n, levelOf)|
    ensures 2 <= TocOf(ts, n, levelOf)[k].level <= 3 && TocOf(ts, n, levelOf)[k].slug != ""
  {
    var i := TocEntriesListed(ts, n, k, levelOf);
  }
}
