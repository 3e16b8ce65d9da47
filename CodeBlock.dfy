/**
 * The `highlight` callback of the Markdown renderer: it picks the language,
 * highlights or escapes the code, counts its lines, and wraps it in a fixed
 * HTML fragment that is collapsed when the code is longer than 40 lines.
 */
module CodeBlock {
  import opened Text
  import opened Wrappers

  /**
   * The syntax highlighter, seen from outside: `knows` is `getLanguage(lang)`
   * being truthy, and `highlight` is the highlighted HTML, or None when the
   * call throws.
   */
  datatype Highlighter = Highlighter(knows: string -> bool, highlight: (string, string) -> Option<string>)

  /** Code longer than this many lines is collapsed. */
  const CollapseThreshold := 40

  /** `lang && hljs.getLanguage(lang) ? lang : 'text'`. */
  function Language(h: Highlighter, lang: string): (r: string)
    ensures lang != [] && h.knows(lang) ==> r == lang
    ensures !(lang != [] && h.knows(lang)) ==> r == "text"
  {
    if lang != [] && h.knows(lang) then lang else "text"
  }

  /** HTML escaping of one character, as the Markdown library's `escapeHtml` does it. */
  function EscapeChar(c: char): string {
    if c == '&' then "&amp;"
    else if c == '<' then "&lt;"
    else if c == '>' then "&gt;"
    else if c == '"' then "&quot;"
    else [c]
  }

  /** `md.utils.escapeHtml(str)`: '&', '<', '>' and '"' become entities. */
  function EscapeHtml(s: string): string {
    if s == [] then [] else EscapeChar(s[0]) + EscapeHtml(s[1..])
  }

  /** Reading the four entities back. */
  function UnescapeHtml(s: string): string
    decreases |s|
  {
    if s == [] then []
    else if s[0] == '&' && "&amp;" <= s then ['&'] + UnescapeHtml(s[5..])
    else if s[0] == '&' && "&lt;" <= s then ['<'] + UnescapeHtml(s[4..])
    else if s[0] == '&' && "&gt;" <= s then ['>'] + UnescapeHtml(s[4..])
    else if s[0] == '&' && "&quot;" <= s then ['"'] + UnescapeHtml(s[6..])
    else [s[0]] + UnescapeHtml(s[1..])
  }

  lemma UnescapeChar(c: char, t: string)
    ensures UnescapeHtml(EscapeChar(c) + t) == [c] + UnescapeHtml(t)
  {
    var e := EscapeChar(c) + t;
    if c == '&' {
      assert e[5..] == t && "&amp;" <= e;
    } else if c == '<' {
      assert e[4..] == t && "&lt;" <= e;
    } else if c == '>' {
      assert e[1] == 'g' && e[4..] == t && "&gt;" <= e;
    } else if c == '"' {
      assert e[1] == 'q' && e[6..] == t && "&quot;" <= e;
    } else {
      assert e[0] == c && e[1..] == t;
    }
  }

  /** Escaping loses nothing: the code can be read back from the escaped text. */
  lemma {:induction false} UnescapeEscape(s: string)
    ensures UnescapeHtml(EscapeHtml(s)) == s
  {
    if s != [] {
      UnescapeChar(s[0], EscapeHtml(s[1..]));
      UnescapeEscape(s[1..]);
      assert s == [s[0]] + s[1..];
    }
  }

  /** Escaped text holds no character that could open or close a tag or an attribute. */
  lemma {:induction false} EscapeHtmlIsInert(s: string)
    ensures forall i :: 0 <= i < |EscapeHtml(s)| ==> EscapeHtml(s)[i] !in "<>\""
  {
    if s != [] {
      EscapeHtmlIsInert(s[1..]);
      var e := EscapeChar(s[0]);
      var t := EscapeHtml(s[1..]);
      assert forall i :: 0 <= i < |e| ==> e[i] !in "<>\"";
      assert forall i :: 0 <= i < |e + t| ==> (e + t)[i] == (if i < |e| then e[i] else t[i - |e|]);
    }
  }

  /**
   * The code inside `<code>`: highlighted when the language is not 'text' and
   * the highlighter does not throw, else escaped.
   */
  function Highlighted(h: Highlighter, str: string, language: string): string {
    if language != "text" then
      match h.highlight(str, language)
      case Some(v) => v
      case None => EscapeHtml(str)
    else EscapeHtml(str)
  }

  /** On the escaping path the code comes back out of the fragment unchanged. */
  lemma HighlightedFallback(h: Highlighter, str: string, language: string)
    requires language == "text" || h.highlight(str, language).None?
    ensures Highlighted(h, str, language) == EscapeHtml(str)
    ensures UnescapeHtml(Highlighted(h, str, language)) == str
  {
    UnescapeEscape(str);
  }

  /** `str.trimEnd().split('\n').length`. */
  function LineCount(str: string): (n: nat)
    ensures n == Count(TrimEnd(str), '\n') + 1
  {
    |Split(TrimEnd(str), '\n')|
  }

  lemma {:induction false} TrimEndDropsSpace(s: string, ws: string)
    requires AllSpace(ws)
    ensures TrimEnd(s + ws) == TrimEnd(s)
    decreases |ws|
  {
    if ws != [] {
      var w := ws[..|ws| - 1];
      assert (s + ws)[..|s + ws| - 1] == s + w;
      TrimEndDropsSpace(s, w);
    } else {
      assert s + ws == s;
    }
  }

  /** Trailing whitespace, blank lines included, does not count as lines. */
  lemma LineCountIgnoresTrailingSpace(str: string, ws: string)
    requires AllSpace(ws)
    ensures LineCount(str + ws) == LineCount(str)
  {
    TrimEndDropsSpace(str, ws);
  }

  /** The class of the outer `<div>`. */
  function WrapperClass(collapsible: bool): string {
    if collapsible then "code-block-wrapper collapsed" else "code-block-wrapper"
  }

  /** The pieces of the expand button. */
  function OverlayParts(lineCount: nat): seq<string> {
    [ "<div class=\"code-expand-overlay\">",
      "<button class=\"code-expand-btn\" onclick=\"toggleCode(this)\" title=\"Toggle code visibility\">",
      "<span class=\"material-icons-round expand-icon\">unfold_more</span>",
      "<span class=\"expand-text\">Show All (" + NatToString(lineCount) + " lines)</span>",
      "</button>",
      "</div>" ]
  }

  /** The expand button, emitted only for collapsed blocks. */
  function ExpandOverlay(collapsible: bool, lineCount: nat): string {
    if collapsible then Concat(OverlayParts(lineCount)) else []
  }

  /** The header bar with the language tag and the copy button. */
  function Header(language: string): string {
    Concat([ "<div class=\"code-block-header\">",
             "<div class=\"code-mac-dots\"></div>",
             "<div class=\"code-actions\">",
             "<span class=\"code-lang-tag\">" + language + "</span>",
             "<button class=\"code-copy-btn\" onclick=\"copyCode(this)\" aria-label=\"Copy code\">",
             "<span class=\"material-icons-round icon-copy\">content_copy</span>",
             "<span class=\"copy-status\">Copied!</span>",
             "</button>",
             "</div>",
             "</div>" ])
  }

  /** The opening tag of the wrapper up to the line count. */
  function WrapperOpenPrefix(collapsible: bool): string {
    "<div class=\"" + WrapperClass(collapsible) + "\" data-lines=\""
  }

  /** The opening tag of the wrapper. */
  function WrapperOpen(collapsible: bool, lineCount: nat): string {
    WrapperOpenPrefix(collapsible) + NatToString(lineCount) + "\">"
  }

  /** The `<pre><code>` element around the code. */
  function CodeElement(language: string, highlighted: string): string {
    "<pre><code class=\"hljs language-" + language + "\">" + highlighted + "</code></pre>"
  }

  /** The seven pieces of the fragment. */
  function FragmentParts(h: Highlighter, str: string, lang: string): seq<string> {
    var language := Language(h, lang);
    var lineCount := LineCount(str);
    var collapsible := lineCount > CollapseThreshold;
    [ WrapperOpen(collapsible, lineCount),
      Header(language),
      "<div class=\"code-scroll-container\">",
      CodeElement(language, Highlighted(h, str, language)),
      "</div>",
      ExpandOverlay(collapsible, lineCount),
      "</div>" ]
  }

  /** The `highlight(str, lang)` callback. */
  function FormatCodeBlock(h: Highlighter, str: string, lang: string): string {
    Concat(FragmentParts(h, str, lang))
  }

  // Reading the fragment back.

  /** `<div class="code-block-wrapper collapsed" data-lines="`. */
  const CollapsedOpen := WrapperOpenPrefix(true)
  /** `<div class="code-block-wrapper" data-lines="`. */
  const PlainOpen := WrapperOpenPrefix(false)

  /** The collapse flag and the line count, read off the wrapper's opening tag. */
  function ReadWrapper(html: string): Option<(bool, nat)> {
    if CollapsedOpen <= html then
      var digits := LeadingDigits(html[|CollapsedOpen|..]);
      if digits == [] then None else Some((true, DigitsValue(digits)))
    else if PlainOpen <= html then
      var digits := LeadingDigits(html[|PlainOpen|..]);
      if digits == [] then None else Some((false, DigitsValue(digits)))
    else None
  }

  /** After the tag's start come the decimal digits of the count, then a quote. */
  lemma ReadCount(html: string, open: string, n: nat)
    requires StartsWith(html, open + NatToString(n) + "\"")
    ensures |open| <= |html|
    ensures LeadingDigits(html[|open|..]) == NatToString(n)
    ensures DigitsValue(LeadingDigits(html[|open|..])) == n
  {
    var digits := NatToString(n);
    assert open + digits + "\"" == open + (digits + "\"");
    StartsWithDrop(html, open, digits + "\"");
    var after := html[|open|..];
    assert after[|digits|] == '"';
    LeadingDigitsOf(after, digits);
    NatToStringValue(n);
  }

  /** The plain wrapper tag has a quote where the collapsed one has a space: the two never start the same text. */
  lemma PlainIsNotCollapsed(html: string)
    requires StartsWith(html, PlainOpen)
    ensures !StartsWith(html, CollapsedOpen)
  {
    assert PlainOpen[30] == '"';
    assert CollapsedOpen[30] == ' ';
    assert html[30] == PlainOpen[30];
  }

  /** A text that starts with `p + x` starts with `p`. */
  lemma StartsWithPrefix(s: string, p: string, x: string)
    requires StartsWith(s, p + x)
    ensures StartsWith(s, p)
  {
    assert (p + x)[..|p|] == p;
  }

  /** The opening tag with its count and closing quote starts with the tag's start. */
  lemma WrapperOpenStarts(html: string, c: bool, n: nat)
    requires StartsWith(html, WrapperOpen(c, n))
    ensures StartsWith(html, WrapperOpenPrefix(c) + NatToString(n) + "\"")
    ensures StartsWith(html, WrapperOpenPrefix(c))
  {
    StartsWithPrefix(html, WrapperOpenPrefix(c), NatToString(n) + "\"");
  }

  /** A collapsed tag followed by the digits of `n` reads as collapsed with count `n`. */
  lemma ReadCollapsed(html: string, n: nat)
    requires StartsWith(html, CollapsedOpen)
    requires LeadingDigits(html[|CollapsedOpen|..]) == NatToString(n)
    requires DigitsValue(NatToString(n)) == n
    ensures ReadWrapper(html) == Some((true, n))
  {
  }

  /** A plain tag followed by the digits of `n` reads as not collapsed with count `n`. */
  lemma ReadPlain(html: string, n: nat)
    requires StartsWith(html, PlainOpen)
    requires LeadingDigits(html[|PlainOpen|..]) == NatToString(n)
    requires DigitsValue(NatToString(n)) == n
    ensures ReadWrapper(html) == Some((false, n))
  {
    PlainIsNotCollapsed(html);
  }

  /** Any text that opens with the wrapper tag reads back its flag and its count. */
  lemma ReadWrapperOpen(html: string, c: bool, n: nat)
    requires StartsWith(html, WrapperOpen(c, n))
    ensures ReadWrapper(html) == Some((c, n))
  {
    WrapperOpenStarts(html, c, n);
    ReadCount(html, WrapperOpenPrefix(c), n);
    NatToStringValue(n);
    if c {
      ReadCollapsed(html, n);
    } else {
      ReadPlain(html, n);
    }
  }

  /**
   * `data-lines` holds the line count, and the wrapper carries the class
   * `collapsed` exactly when that count exceeds 40.
   */
  lemma ReadWrapperFormat(h: Highlighter, str: string, lang: string)
    ensures ReadWrapper(FormatCodeBlock(h, str, lang)) == Some((LineCount(str) > CollapseThreshold, LineCount(str)))
  {
    var n := LineCount(str);
    ConcatStartsWith(FragmentParts(h, str, lang));
    ReadWrapperOpen(FormatCodeBlock(h, str, lang), n > CollapseThreshold, n);
  }

  /** The last tags of the fragment when the expand overlay closes it. */
  const OverlayEnd := "</button>" + "</div>" + "</div>"

  /** The last tags of the fragment when no overlay is emitted. */
  const CodeEnd := "</code></pre>" + "</div>" + "</div>"

  /** Two pieces at the end of a join end the joined text. */
  lemma ConcatEndsWithLastTwo(parts: seq<string>)
    requires |parts| >= 2
    ensures EndsWith(Concat(parts), parts[|parts| - 2] + parts[|parts| - 1])
  {
    var init := parts[..|parts| - 1];
    ConcatLast(parts);
    ConcatLast(init);
    assert init[..|init| - 1] == parts[..|parts| - 2];
    EndsWithAppend(Concat(parts[..|parts| - 2]), parts[|parts| - 2]);
    EndsWithExtend(Concat(init), parts[|parts| - 2], parts[|parts| - 1]);
  }

  /** A join whose last piece is `last` and whose piece before it ends with `tail`. */
  lemma ConcatEndsWith(parts: seq<string>, tail: string)
    requires |parts| >= 2 && EndsWith(parts[|parts| - 2], tail)
    ensures EndsWith(Concat(parts), tail + parts[|parts| - 1])
  {
    var init := parts[..|parts| - 1];
    ConcatLast(parts);
    ConcatLast(init);
    assert init[..|init| - 1] == parts[..|parts| - 2];
    EndsWithAppend(Concat(parts[..|parts| - 2]), parts[|parts| - 2]);
    EndsWithTrans(Concat(init), parts[|parts| - 2], tail);
    EndsWithExtend(Concat(init), tail, parts[|parts| - 1]);
  }

  /** A join whose last two pieces are the overlay's pieces joined and a closing tag. */
  lemma OverlayPiecesEnd(parts: seq<string>, o: seq<string>)
    requires |o| == 6 && o[4] == "</button>" && o[5] == "</div>"
    requires |parts| == 7 && parts[5] == Concat(o) && parts[6] == "</div>"
    ensures EndsWith(Concat(parts), OverlayEnd)
  {
    ConcatEndsWithLastTwo(o);
    ConcatEndsWith(parts, "</button>" + "</div>");
  }

  /** The collapsed fragment ends with the expand button's closing tags. */
  lemma CollapsedEnd(h: Highlighter, str: string, lang: string)
    requires LineCount(str) > CollapseThreshold
    ensures EndsWith(FormatCodeBlock(h, str, lang), OverlayEnd)
  {
    OverlayPiecesEnd(FragmentParts(h, str, lang), OverlayParts(LineCount(str)));
  }

  /** A join of pieces ending in code, a closing tag, nothing and a closing tag. */
  lemma PlainPiecesEnd(parts: seq<string>)
    requires |parts| == 7 && EndsWith(parts[3], "</code></pre>")
    requires parts[4] == "</div>" && parts[5] == [] && parts[6] == "</div>"
    ensures EndsWith(Concat(parts), CodeEnd)
  {
    ConcatLast(parts);
    ConcatLast(parts[..6]);
    assert parts[..6][..5] == parts[..5];
    assert Concat(parts[..6]) == Concat(parts[..5]);
    ConcatEndsWith(parts[..5], "</code></pre>");
    EndsWithExtend(Concat(parts[..5]), "</code></pre>" + "</div>", "</div>");
  }

  /** The fragment of a block that is not collapsed ends with its code and two closing tags. */
  lemma PlainEnd(h: Highlighter, str: string, lang: string)
    requires LineCount(str) <= CollapseThreshold
    ensures EndsWith(FormatCodeBlock(h, str, lang), CodeEnd)
  {
    var parts := FragmentParts(h, str, lang);
    var code := parts[3];
    var v := code[..|code| - |"</code></pre>"|];
    assert code == v + "</code></pre>";
    EndsWithAppend(v, "</code></pre>");
    PlainPiecesEnd(parts);
  }

  /** A text that ends with the code's closing tags does not end with the expand button's. */
  lemma NotOverlayEnd(html: string)
    requires EndsWith(html, CodeEnd)
    ensures !EndsWith(html, OverlayEnd)
  {
    assert html[|html| - 14] == html[|html| - |CodeEnd|..][11] == CodeEnd[11] == 'e';
    assert OverlayEnd[7] == 'n';
  }

  /** The expand overlay ends the fragment exactly when the block is collapsed. */
  lemma OverlayIffCollapsed(h: Highlighter, str: string, lang: string)
    ensures EndsWith(FormatCodeBlock(h, str, lang), OverlayEnd) <==> LineCount(str) > CollapseThreshold
  {
    var html := FormatCodeBlock(h, str, lang);
    if LineCount(str) > CollapseThreshold {
      CollapsedEnd(h, str, lang);
    } else {
      PlainEnd(h, str, lang);
      NotOverlayEnd(html);
    }
  }
}
