/**
 * The `callout` core rule, which runs after block parsing: a blockquote whose
 * first paragraph starts with a marker such as `[!NOTE]` becomes a callout.
 * The rule works in place on the token array; `Pass` is its specification on
 * sequences, the composition of one `Step` per index in order, since each step
 * sees what the earlier ones changed.
 */
module Callout {
  import opened Text
  import opened Wrappers
  import opened Tokens

  /** The marker names the rule recognises, in the order the regex tries them. */
  const Tags: seq<string> := ["NOTE", "WARNING", "TIP", "DANGER", "IMPORTANT", "CAUTION"]

  /** `[!TAG]`. */
  function Marker(tag: string): string {
    "[!" + tag + "]"
  }

  /** The first tag in `Tags[k..]` whose marker starts `content`. */
  function MarkerTag(content: string, k: nat): (r: Option<string>)
    requires k <= |Tags|
    ensures r.Some? ==> r.value in Tags[k..] && Marker(r.value) <= content
    decreases |Tags| - k
  {
    if k == |Tags| then None
    else if Marker(Tags[k]) <= content then Some(Tags[k])
    else MarkerTag(content, k + 1)
  }

  /**
   * `content.match(/^\[!(NOTE|WARNING|TIP|DANGER|IMPORTANT|CAUTION)\]\s*\n?([\s\S]*)/)`
   * as (group 1, group 2). The greedy `\s*` takes every leading whitespace
   * character, newlines included, so `\n?` is always empty and group 2 is the
   * text after the marker with its leading whitespace removed.
   */
  function MatchMarker(content: string): (r: Option<(string, string)>)
    ensures r.Some? ==> (r.value.0 in Tags && Marker(r.value.0) <= content
                         && r.value.1 == TrimStart(content[|Marker(r.value.0)|..]))
  {
    match MarkerTag(content, 0)
    case None => None
    case Some(tag) => Some((tag, TrimStart(content[|Marker(tag)|..])))
  }

  /** The search finds no tag only when no tag's marker starts the content. */
  lemma {:induction false} MarkerTagNone(content: string, k: nat)
    requires k <= |Tags|
    ensures MarkerTag(content, k).None? <==> forall t :: t in Tags[k..] ==> !(Marker(t) <= content)
    decreases |Tags| - k
  {
    if k < |Tags| {
      MarkerTagNone(content, k + 1);
      assert Tags[k..] == [Tags[k]] + Tags[k + 1..];
    }
  }

  /** The regex fails exactly when no tag's marker starts the content. */
  lemma MatchMarkerNone(content: string)
    ensures MatchMarker(content).None? <==> forall t :: t in Tags ==> !(Marker(t) <= content)
  {
    MarkerTagNone(content, 0);
    assert Tags[0..] == Tags;
  }

  /** A recognised marker at the start of the content is the one the regex matches. */
  lemma MatchMarkerFinds(content: string, tag: string)
    requires tag in Tags && Marker(tag) <= content
    ensures MatchMarker(content) == Some((tag, TrimStart(content[|Marker(tag)|..])))
  {
    var m := MatchMarker(content);
    MatchMarkerNone(content);
    assert m.Some? by {
      assert tag in Tags && Marker(tag) <= content;
    }
    var t := m.value.0;
    TagsAgree(t, tag, content);
    MarkerInjective(t, tag);
  }

  /** After a recognised marker, group 2 is the rest of the content with its leading whitespace removed. */
  lemma MatchMarkerAfter(tag: string, after: string)
    requires tag in Tags
    ensures MatchMarker(Marker(tag) + after) == Some((tag, TrimStart(after)))
  {
    var p := Marker(tag);
    assert p <= p + after;
    assert (p + after)[|p|..] == after;
    MatchMarkerFinds(p + after, tag);
  }

  /** A marker, any whitespace, then text: the marker and the whitespace go, the text is kept. */
  lemma MatchMarkerKeepsRest(tag: string, ws: string, rest: string)
    requires tag in Tags && AllSpace(ws) && (rest == [] || !IsSpace(rest[0]))
    ensures MatchMarker(Marker(tag) + ws + rest) == Some((tag, rest))
  {
    assert Marker(tag) + ws + rest == Marker(tag) + (ws + rest);
    MatchMarkerAfter(tag, ws + rest);
    TrimStartOf(ws, rest);
  }

  lemma MarkerInjective(t: string, u: string)
    requires Marker(t) == Marker(u)
    ensures t == u
  {
    assert t == Marker(t)[2..|Marker(t)| - 1];
    assert u == Marker(u)[2..|Marker(u)| - 1];
  }

  lemma TagsAgree(t: string, u: string, content: string)
    requires t in Tags && u in Tags && Marker(t) <= content && Marker(u) <= content
    ensures Marker(t) == Marker(u)
  {
    var a := Marker(t);
    var b := Marker(u);
    if |a| < |b| {
      assert b[|a| - 1] == content[|a| - 1] == a[|a| - 1] == ']';
    } else if |b| < |a| {
      assert a[|b| - 1] == content[|b| - 1] == b[|b| - 1] == ']';
    }
    assert a == content[..|a|];
  }

  lemma {:induction false} TrimStartOf(ws: string, rest: string)
    requires AllSpace(ws) && (rest == [] || !IsSpace(rest[0]))
    ensures TrimStart(ws + rest) == rest
    decreases |ws|
  {
    if ws == [] {
      assert ws + rest == rest;
      TrimStartNoop(rest);
    } else {
      assert (ws + rest)[1..] == ws[1..] + rest;
      TrimStartOf(ws[1..], rest);
    }
  }

  /** `String.prototype.toLowerCase` on the ASCII letters the tags are made of. */
  function AsciiLower(s: string): (r: string)
    ensures |r| == |s|
    ensures forall i :: 0 <= i < |s| ==> r[i] == if 'A' <= s[i] <= 'Z' then (s[i] as int + 32) as char else s[i]
  {
    seq(|s|, i requires 0 <= i < |s| => if 'A' <= s[i] <= 'Z' then (s[i] as int + 32) as char else s[i])
  }

  /** `iconMap[type] || 'info'`. */
  function Icon(calloutType: string): string {
    if calloutType == "note" then "info"
    else if calloutType == "warning" then "warning"
    else if calloutType == "tip" then "lightbulb"
    else if calloutType == "danger" then "dangerous"
    else if calloutType == "important" then "priority_high"
    else if calloutType == "caution" then "error_outline"
    else "info"
  }

  /** The metadata of a matched callout. */
  function MetaFor(tag: string): CalloutMeta {
    var calloutType := AsciiLower(tag);
    CalloutMeta(calloutType, Icon(calloutType))
  }

  /** The six metadata values a callout can carry. */
  const Metas: seq<CalloutMeta> := [
    CalloutMeta("note", "info"), CalloutMeta("warning", "warning"), CalloutMeta("tip", "lightbulb"),
    CalloutMeta("danger", "dangerous"), CalloutMeta("important", "priority_high"),
    CalloutMeta("caution", "error_outline")]

  /** Each tag gives its lower-cased name and the icon of the table. */
  lemma MetaForTags()
    ensures forall k :: 0 <= k < |Tags| ==> MetaFor(Tags[k]) == Metas[k]
  {
    assert AsciiLower("NOTE") == "note";
    assert AsciiLower("WARNING") == "warning";
    assert AsciiLower("TIP") == "tip";
    assert AsciiLower("DANGER") == "danger";
    assert AsciiLower("IMPORTANT") == "important";
    assert AsciiLower("CAUTION") == "caution";
  }

  /** The first inline token from `j` on, unless a blockquote closes first. */
  function FindInline(ts: seq<Token>, j: nat): (r: Option<nat>)
    ensures r.Some? ==> j <= r.value < |ts| && ts[r.value].kind == Inline
    decreases |ts| - j
  {
    if j >= |ts| then None
    else if ts[j].kind == Inline then Some(j)
    else if ts[j].kind == BlockquoteClose then None
    else FindInline(ts, j + 1)
  }

  /** The inline token found is the first one, and no blockquote closes before it. */
  lemma {:induction false} FindInlineFirst(ts: seq<Token>, j: nat, m: nat)
    requires FindInline(ts, j).Some? && j <= m < FindInline(ts, j).value
    ensures ts[m].kind != Inline && ts[m].kind != BlockquoteClose
    decreases |ts| - j
  {
    if j < m {
      FindInlineFirst(ts, j + 1, m);
    }
  }

  /** The first inline token from `j` on, with no close before it, is the one found. */
  lemma {:induction false} FindInlineAt(ts: seq<Token>, j: nat, x: nat)
    requires j <= x < |ts| && ts[x].kind == Inline
    requires forall m :: j <= m < x ==> ts[m].kind != Inline && ts[m].kind != BlockquoteClose
    ensures FindInline(ts, j) == Some(x)
    decreases x - j
  {
    if j < x {
      FindInlineAt(ts, j + 1, x);
    }
  }

  /** A close with no inline token before it stops the search. */
  lemma {:induction false} FindInlineStops(ts: seq<Token>, j: nat, c: nat)
    requires j <= c < |ts| && ts[c].kind == BlockquoteClose
    requires forall m :: j <= m < c ==> ts[m].kind != Inline
    ensures FindInline(ts, j).None?
    decreases c - j
  {
    if j < c {
      FindInlineStops(ts, j + 1, c);
    }
  }

  /** The first `blockquote_close` from `j` on. */
  function FindClose(ts: seq<Token>, j: nat): (r: Option<nat>)
    ensures r.Some? ==> j <= r.value < |ts| && ts[r.value].kind == BlockquoteClose
    decreases |ts| - j
  {
    if j >= |ts| then None
    else if ts[j].kind == BlockquoteClose then Some(j)
    else FindClose(ts, j + 1)
  }

  /** The close found is the first one from `j` on. */
  lemma {:induction false} FindCloseFirst(ts: seq<Token>, j: nat, m: nat)
    requires j <= m < |ts|
    requires FindClose(ts, j).Some? ==> m < FindClose(ts, j).value
    ensures ts[m].kind != BlockquoteClose
    decreases |ts| - j
  {
    if j < m {
      FindCloseFirst(ts, j + 1, m);
    }
  }

  /** With no close from `j` on, none is found. */
  lemma {:induction false} FindCloseNone(ts: seq<Token>, j: nat)
    requires forall m :: j <= m < |ts| ==> ts[m].kind != BlockquoteClose
    ensures FindClose(ts, j).None?
    decreases |ts| - j
  {
    if j < |ts| {
      FindCloseNone(ts, j + 1);
    }
  }

  /** The first close from `j` on is the one found. */
  lemma {:induction false} FindCloseAt(ts: seq<Token>, j: nat, c: nat)
    requires j <= c < |ts| && ts[c].kind == BlockquoteClose
    requires forall m :: j <= m < c ==> ts[m].kind != BlockquoteClose
    ensures FindClose(ts, j) == Some(c)
    decreases c - j
  {
    if j < c {
      FindCloseAt(ts, j + 1, c);
    }
  }

  /** The open token and the inline token of a matched callout, before its close is retagged. */
  function Retag(ts: seq<Token>, i: nat, j: nat, tag: string, rest: string): (r: seq<Token>)
    requires i < |ts| && j < |ts|
    ensures |r| == |ts|
  {
    ts[i := ts[i].(kind := CalloutOpen, meta := Some(MetaFor(tag)))][j := ts[j].(content := rest)]
  }

  /** The first `blockquote_close` from `from` on becomes a `callout_close`, if there is one. */
  function RetagClose(ts: seq<Token>, from: nat): (r: seq<Token>)
    ensures |r| == |ts|
  {
    match FindClose(ts, from)
    case None => ts
    case Some(c) => ts[c := ts[c].(kind := CalloutClose)]
  }

  /** What the rule does for the blockquote opened at `i` whose first inline token is at `j`. */
  function Convert(ts: seq<Token>, i: nat, j: nat): (r: seq<Token>)
    requires i < |ts| && j < |ts|
    ensures |r| == |ts|
  {
    match MatchMarker(ts[j].content)
    case None => ts
    case Some(m) => RetagClose(Retag(ts, i, j, m.0, m.1), j + 1)
  }

  /** What the rule does for the token at index `i`. */
  function Step(ts: seq<Token>, i: nat): (r: seq<Token>)
    requires i < |ts|
    ensures |r| == |ts|
  {
    if ts[i].kind != BlockquoteOpen then ts
    else
      match FindInline(ts, i + 1)
      case None => ts
      case Some(j) => Convert(ts, i, j)
  }

  /** The steps for the indices `i`, `i + 1`, ... in turn. */
  function Run(ts: seq<Token>, i: nat): (r: seq<Token>)
    ensures |r| == |ts|
    decreases |ts| - i
  {
    if i >= |ts| then ts else Run(Step(ts, i), i + 1)
  }

  /** The whole rule. */
  function Pass(ts: seq<Token>): seq<Token> {
    Run(ts, 0)
  }

  /** `b` is a suffix of `a`. */
  predicate IsSuffix(b: string, a: string) {
    |b| <= |a| && a[|a| - |b|..] == b
  }

  /**
   * The only ways the rule changes a token: a `blockquote_open` becomes a
   * `callout_open` with the metadata of one of the six tags; an inline token
   * keeps a suffix of its content; a `blockquote_close` becomes a
   * `callout_close`. Nothing else of the token changes.
   */
  predicate AllowedChange(a: Token, b: Token) {
    || b == a
    || (a.kind == BlockquoteOpen && b.meta.Some? && b.meta.value in Metas
        && b == a.(kind := CalloutOpen, meta := b.meta))
    || (a.kind == Inline && IsSuffix(b.content, a.content) && b == a.(content := b.content))
    || (a.kind == BlockquoteClose && b == a.(kind := CalloutClose))
  }

  lemma AllowedChangeTrans(a: Token, b: Token, c: Token)
    requires AllowedChange(a, b) && AllowedChange(b, c)
    ensures AllowedChange(a, c)
  {
    if a.kind == Inline && b != a && c != b {
      var x := a.content;
      var y := b.content;
      assert c.content == y[|y| - |c.content|..] == x[|x| - |y|..][|y| - |c.content|..];
    }
  }

  /** The group after a marker is a suffix of the content. */
  lemma MatchMarkerSuffix(content: string)
    requires MatchMarker(content).Some?
    ensures IsSuffix(MatchMarker(content).value.1, content)
  {
    var m := MatchMarker(content).value;
    var after := content[|Marker(m.0)|..];
    TrimStartSuffix(after);
    assert m.1 == after[|after| - |m.1|..];
  }

  /** The metadata of a recognised tag is one of the six. */
  lemma MetaForInMetas(tag: string)
    requires tag in Tags
    ensures MetaFor(tag) in Metas
  {
    MetaForTags();
    var k :| 0 <= k < |Tags| && Tags[k] == tag;
    assert MetaFor(tag) == Metas[k];
  }

  /** The open token and the inline token of a matched callout change only in allowed ways. */
  lemma RetagAllowed(ts: seq<Token>, i: nat, j: nat, tag: string, rest: string, k: nat)
    requires i < |ts| && j < |ts| && k < |ts| && i != j
    requires ts[i].kind == BlockquoteOpen && ts[j].kind == Inline
    requires tag in Tags && IsSuffix(rest, ts[j].content)
    ensures AllowedChange(ts[k], Retag(ts, i, j, tag, rest)[k])
  {
    var t1 := Retag(ts, i, j, tag, rest);
    if k == i {
      MetaForInMetas(tag);
      assert t1[k] == ts[i].(kind := CalloutOpen, meta := Some(MetaFor(tag)));
    } else if k == j {
      assert t1[k] == ts[j].(content := rest);
    } else {
      assert t1[k] == ts[k];
    }
  }

  /** Retagging the close changes the token at `k` only in an allowed way. */
  lemma RetagCloseAllowed(ts: seq<Token>, from: nat, k: nat)
    requires k < |ts|
    ensures AllowedChange(ts[k], RetagClose(ts, from)[k])
  {
    match FindClose(ts, from)
    case None =>
    case Some(c) =>
      if c == k {
        assert ts[c].kind == BlockquoteClose;
      }
  }

  /** Converting a blockquote changes the token at `k` only in an allowed way. */
  lemma ConvertAllowed(ts: seq<Token>, i: nat, j: nat, k: nat)
    requires i < j < |ts| && k < |ts|
    requires ts[i].kind == BlockquoteOpen && ts[j].kind == Inline
    ensures AllowedChange(ts[k], Convert(ts, i, j)[k])
  {
    var m := MatchMarker(ts[j].content);
    if m.Some? {
      var t1 := Retag(ts, i, j, m.value.0, m.value.1);
      MatchMarkerSuffix(ts[j].content);
      RetagAllowed(ts, i, j, m.value.0, m.value.1, k);
      RetagCloseAllowed(t1, j + 1, k);
      AllowedChangeTrans(ts[k], t1[k], RetagClose(t1, j + 1)[k]);
    }
  }

  /** One step changes the token at `k` only in an allowed way. */
  lemma StepAllowed(ts: seq<Token>, i: nat, k: nat)
    requires i < |ts| && k < |ts|
    ensures AllowedChange(ts[k], Step(ts, i)[k])
  {
    if ts[i].kind == BlockquoteOpen && FindInline(ts, i + 1).Some? {
      ConvertAllowed(ts, i, FindInline(ts, i + 1).value, k);
    }
  }

  /** Running the remaining steps changes the token at `k` only in an allowed way. */
  lemma {:induction false} RunAllowed(ts: seq<Token>, i: nat, k: nat)
    requires k < |ts|
    ensures AllowedChange(ts[k], Run(ts, i)[k])
    decreases |ts| - i
  {
    if i < |ts| {
      var s := Step(ts, i);
      StepAllowed(ts, i, k);
      RunAllowed(s, i + 1, k);
      AllowedChangeTrans(ts[k], s[k], Run(s, i + 1)[k]);
    }
  }

  /**
   * The rule keeps the token count and changes tokens only as `AllowedChange`
   * says: every token of another type is untouched.
   */
  lemma PassAllowed(ts: seq<Token>)
    ensures |Pass(ts)| == |ts|
    ensures forall k :: 0 <= k < |ts| ==> AllowedChange(ts[k], Pass(ts)[k])
    ensures forall k :: 0 <= k < |ts| && !(ts[k].kind == BlockquoteOpen || ts[k].kind == Inline || ts[k].kind == BlockquoteClose) ==> Pass(ts)[k] == ts[k]
  {
    forall k | 0 <= k < |ts| ensures AllowedChange(ts[k], Pass(ts)[k]) {
      RunAllowed(ts, 0, k);
    }
  }

  lemma FindInlineSkips(ts: seq<Token>, j: nat)
    requires j < |ts| && ts[j].kind != Inline && ts[j].kind != BlockquoteClose
    ensures FindInline(ts, j) == FindInline(ts, j + 1)
  {
  }

  lemma FindCloseSkips(ts: seq<Token>, j: nat)
    requires j < |ts| && ts[j].kind != BlockquoteClose
    ensures FindClose(ts, j) == FindClose(ts, j + 1)
  {
  }

  lemma StepSkips(ts: seq<Token>, i: nat)
    requires i < |ts| && (ts[i].kind != BlockquoteOpen || FindInline(ts, i + 1).None?)
    ensures Step(ts, i) == ts
  {
  }

  lemma StepConverts(ts: seq<Token>, i: nat, j: nat)
    requires i < |ts| && ts[i].kind == BlockquoteOpen && FindInline(ts, i + 1) == Some(j)
    ensures Step(ts, i) == Convert(ts, i, j)
  {
  }

  lemma ConvertUnmatched(ts: seq<Token>, i: nat, j: nat)
    requires i < |ts| && j < |ts| && MatchMarker(ts[j].content).None?
    ensures Convert(ts, i, j) == ts
  {
  }

  lemma ConvertMatched(ts: seq<Token>, i: nat, j: nat, tag: string, rest: string)
    requires i < |ts| && j < |ts| && MatchMarker(ts[j].content) == Some((tag, rest))
    ensures Convert(ts, i, j) == RetagClose(Retag(ts, i, j, tag, rest), j + 1)
  {
  }

  lemma RetagCloseNone(ts: seq<Token>, from: nat)
    requires FindClose(ts, from).None?
    ensures RetagClose(ts, from) == ts
  {
  }

  lemma RetagCloseSome(ts: seq<Token>, from: nat, c: nat)
    requires FindClose(ts, from) == Some(c)
    ensures RetagClose(ts, from) == ts[c := ts[c].(kind := CalloutClose)]
  {
  }

  /** The inner search for the blockquote's first inline token; -1 when there is none. */
  method FirstInline(tokens: array<Token>, i: nat) returns (inlineIdx: int)
    requires i < tokens.Length
    ensures -1 <= inlineIdx
    ensures inlineIdx == -1 <==> FindInline(tokens[..], i + 1).None?
    ensures inlineIdx != -1 ==> FindInline(tokens[..], i + 1) == Some(inlineIdx as nat)
  {
    inlineIdx := -1;
    var j := i + 1;
    while j < tokens.Length
      invariant i + 1 <= j <= tokens.Length
      invariant FindInline(tokens[..], j) == FindInline(tokens[..], i + 1)
    {
      if tokens[j].kind == Inline {
        inlineIdx := j;
        return;
      }
      if tokens[j].kind == BlockquoteClose {
        return;
      }
      FindInlineSkips(tokens[..], j);
      j := j + 1;
    }
  }

  /** The first `blockquote_close` after `from` becomes a `callout_close`. */
  method CloseCallout(tokens: array<Token>, from: nat)
    modifies tokens
    ensures tokens[..] == RetagClose(old(tokens[..]), from)
  {
    ghost var before := tokens[..];
    var j := from;
    while j < tokens.Length
      invariant from <= j
      invariant tokens[..] == before
      invariant FindClose(before, j) == FindClose(before, from)
    {
      if tokens[j].kind == BlockquoteClose {
        RetagCloseSome(before, from, j);
        tokens[j] := tokens[j].(kind := CalloutClose);
        return;
      }
      FindCloseSkips(before, j);
      j := j + 1;
    }
    RetagCloseNone(before, from);
  }

  /** The blockquote opened at `i` with its first inline token at `inlineIdx` becomes a callout when that token starts with a marker. */
  method ConvertBlockquote(tokens: array<Token>, i: nat, inlineIdx: nat)
    requires i < inlineIdx < tokens.Length
    modifies tokens
    ensures tokens[..] == Convert(old(tokens[..]), i, inlineIdx)
  {
    ghost var before := tokens[..];
    var m := MatchMarker(tokens[inlineIdx].content);
    if m.None? {
      ConvertUnmatched(before, i, inlineIdx);
      return;
    }
    var tag := m.value.0;
    var restContent := m.value.1;
    ConvertMatched(before, i, inlineIdx, tag, restContent);
    var calloutType := AsciiLower(tag);
    tokens[i] := tokens[i].(kind := CalloutOpen, meta := Some(CalloutMeta(calloutType, Icon(calloutType))));
    tokens[inlineIdx] := tokens[inlineIdx].(content := restContent);
    assert tokens[..] == Retag(before, i, inlineIdx, tag, restContent);
    CloseCallout(tokens, inlineIdx + 1);
  }

  /** An open whose first inline token comes before any close is converted at that token. */
  lemma StepFindsInline(ts: seq<Token>, i: nat, j: nat)
    requires i < j < |ts| && ts[i].kind == BlockquoteOpen && ts[j].kind == Inline
    requires forall m :: i < m < j ==> ts[m].kind != Inline && ts[m].kind != BlockquoteClose
    ensures Step(ts, i) == Convert(ts, i, j)
  {
    FindInlineAt(ts, i + 1, j);
    StepConverts(ts, i, j);
  }

  /** A marked inline token: the open and the token are retagged, then the first later close. */
  lemma ConvertMarked(ts: seq<Token>, i: nat, j: nat, k: nat, ws: string, rest: string)
    requires i < |ts| && j < |ts| && k < |Tags|
    requires ts[j].content == Marker(Tags[k]) + ws + rest && AllSpace(ws) && (rest == [] || !IsSpace(rest[0]))
    ensures Convert(ts, i, j) == RetagClose(Retag(ts, i, j, Tags[k], rest), j + 1)
  {
    MatchMarkerKeepsRest(Tags[k], ws, rest);
    ConvertMatched(ts, i, j, Tags[k], rest);
  }

  /** After the open and the inline token are retagged, the close retagged is the first one after the inline token. */
  lemma RetagThenClose(ts: seq<Token>, i: nat, j: nat, c: nat, tag: string, rest: string)
    requires i < j < c < |ts| && ts[c].kind == BlockquoteClose
    requires forall m :: j < m < c ==> ts[m].kind != BlockquoteClose
    ensures RetagClose(Retag(ts, i, j, tag, rest), j + 1) == Retag(ts, i, j, tag, rest)[c := ts[c].(kind := CalloutClose)]
  {
    var t1 := Retag(ts, i, j, tag, rest);
    FindCloseAt(t1, j + 1, c);
    RetagCloseSome(t1, j + 1, c);
  }

  /** With no close after the inline token, only the open and the inline token change. */
  lemma RetagThenNoClose(ts: seq<Token>, i: nat, j: nat, tag: string, rest: string)
    requires i < j < |ts|
    requires forall m :: j < m < |ts| ==> ts[m].kind != BlockquoteClose
    ensures RetagClose(Retag(ts, i, j, tag, rest), j + 1) == Retag(ts, i, j, tag, rest)
  {
    var t1 := Retag(ts, i, j, tag, rest);
    FindCloseNone(t1, j + 1);
    RetagCloseNone(t1, j + 1);
  }

  /** The metadata of the tag at position `k`. */
  lemma MetaForTag(k: nat)
    requires k < |Tags|
    ensures MetaFor(Tags[k]) == Metas[k]
  {
    MetaForTags();
  }

  /**
   * A blockquote whose first inline token, met before any close, starts with
   * a marker: the open becomes a callout carrying the tag's metadata, the
   * marker and the whitespace after it leave the inline token, and the first
   * later close becomes the callout's close. No other token changes.
   */
  lemma StepMatched(ts: seq<Token>, i: nat, j: nat, c: nat, k: nat, ws: string, rest: string)
    requires i < j < c < |ts| && k < |Tags|
    requires ts[i].kind == BlockquoteOpen && ts[j].kind == Inline && ts[c].kind == BlockquoteClose
    requires forall m :: i < m < j ==> ts[m].kind != Inline && ts[m].kind != BlockquoteClose
    requires forall m :: j < m < c ==> ts[m].kind != BlockquoteClose
    requires ts[j].content == Marker(Tags[k]) + ws + rest && AllSpace(ws) && (rest == [] || !IsSpace(rest[0]))
    ensures Step(ts, i) == ts[i := ts[i].(kind := CalloutOpen, meta := Some(Metas[k]))]
                              [j := ts[j].(content := rest)]
                              [c := ts[c].(kind := CalloutClose)]
  {
    StepFindsInline(ts, i, j);
    ConvertMarked(ts, i, j, k, ws, rest);
    RetagThenClose(ts, i, j, c, Tags[k], rest);
    MetaForTag(k);
  }

  /** As `StepMatched`, when no close follows: only the open and the inline token change. */
  lemma StepMatchedUnclosed(ts: seq<Token>, i: nat, j: nat, k: nat, ws: string, rest: string)
    requires i < j < |ts| && k < |Tags|
    requires ts[i].kind == BlockquoteOpen && ts[j].kind == Inline
    requires forall m :: i < m < j ==> ts[m].kind != Inline && ts[m].kind != BlockquoteClose
    requires forall m :: j < m < |ts| ==> ts[m].kind != BlockquoteClose
    requires ts[j].content == Marker(Tags[k]) + ws + rest && AllSpace(ws) && (rest == [] || !IsSpace(rest[0]))
    ensures Step(ts, i) == ts[i := ts[i].(kind := CalloutOpen, meta := Some(Metas[k]))]
                              [j := ts[j].(content := rest)]
  {
    StepFindsInline(ts, i, j);
    ConvertMarked(ts, i, j, k, ws, rest);
    RetagThenNoClose(ts, i, j, Tags[k], rest);
    MetaForTag(k);
  }

  /** A blockquote whose first inline token, met before any close, has no marker is left as it is. */
  lemma StepUnmarked(ts: seq<Token>, i: nat, j: nat)
    requires i < j < |ts| && ts[j].kind == Inline
    requires forall m :: i < m < j ==> ts[m].kind != Inline && ts[m].kind != BlockquoteClose
    requires forall t :: t in Tags ==> !(Marker(t) <= ts[j].content)
    ensures Step(ts, i) == ts
  {
    FindInlineAt(ts, i + 1, j);
    MatchMarkerNone(ts[j].content);
    if ts[i].kind == BlockquoteOpen {
      StepConverts(ts, i, j);
      ConvertUnmatched(ts, i, j);
    } else {
      StepSkips(ts, i);
    }
  }

  /** A blockquote that closes before any inline token is left as it is. */
  lemma StepNoInline(ts: seq<Token>, i: nat, c: nat)
    requires i < c < |ts| && ts[c].kind == BlockquoteClose
    requires forall m :: i < m < c ==> ts[m].kind != Inline
    ensures Step(ts, i) == ts
  {
    FindInlineStops(ts, i + 1, c);
    StepSkips(ts, i);
  }

  /** Once no blockquote opens from `i` on, the remaining steps change nothing. */
  lemma {:induction false} RunSkips(ts: seq<Token>, i: nat)
    requires forall m :: i <= m < |ts| ==> ts[m].kind != BlockquoteOpen
    ensures Run(ts, i) == ts
    decreases |ts| - i
  {
    if i < |ts| {
      StepSkips(ts, i);
      RunSkips(ts, i + 1);
    }
  }

  /** A step that changes nothing moves the run on to the next index. */
  lemma RunUnchangedStep(ts: seq<Token>, i: nat)
    requires i < |ts| && Step(ts, i) == ts
    ensures Run(ts, i) == Run(ts, i + 1)
  {
  }

  /**
   * `> > [!NOTE] x`: the outer blockquote's first inline token sits in the
   * inner one, so the outer open becomes the callout while the close retagged
   * is the first later one, the inner blockquote's; the outer close stays a
   * `blockquote_close`.
   */
  lemma NestedQuoteRetagsInnerClose(ts: seq<Token>, k: nat, ws: string, rest: string)
    requires |ts| == 7 && k < |Tags|
    requires ts[0].kind == BlockquoteOpen && ts[1].kind == BlockquoteOpen
    requires ts[2].kind == Other("paragraph_open") && ts[4].kind == Other("paragraph_close")
    requires ts[5].kind == BlockquoteClose && ts[6].kind == BlockquoteClose
    requires ts[3].kind == Inline && ts[3].content == Marker(Tags[k]) + ws + rest
    requires AllSpace(ws) && (rest == [] || !IsSpace(rest[0]))
    requires forall t :: t in Tags ==> !(Marker(t) <= rest)
    ensures Pass(ts)[0].kind == CalloutOpen && Pass(ts)[0].meta == Some(Metas[k])
    ensures Pass(ts)[1].kind == BlockquoteOpen && Pass(ts)[3].content == rest
    ensures Pass(ts)[5].kind == CalloutClose && Pass(ts)[6].kind == BlockquoteClose
  {
    var s1 := ts[0 := ts[0].(kind := CalloutOpen, meta := Some(Metas[k]))][3 := ts[3].(content := rest)]
                [5 := ts[5].(kind := CalloutClose)];
    NestedFirstStep(ts, k, ws, rest, s1);
    assert s1[1] == ts[1] && s1[2] == ts[2] && s1[4] == ts[4] && s1[6] == ts[6];
    NestedLaterSteps(s1);
  }

  lemma NestedFirstStep(ts: seq<Token>, k: nat, ws: string, rest: string, s1: seq<Token>)
    requires |ts| == 7 && k < |Tags|
    requires ts[0].kind == BlockquoteOpen && ts[1].kind == BlockquoteOpen
    requires ts[2].kind == Other("paragraph_open") && ts[4].kind == Other("paragraph_close")
    requires ts[5].kind == BlockquoteClose && ts[6].kind == BlockquoteClose
    requires ts[3].kind == Inline && ts[3].content == Marker(Tags[k]) + ws + rest
    requires AllSpace(ws) && (rest == [] || !IsSpace(rest[0]))
    requires s1 == ts[0 := ts[0].(kind := CalloutOpen, meta := Some(Metas[k]))][3 := ts[3].(content := rest)]
                     [5 := ts[5].(kind := CalloutClose)]
    ensures Pass(ts) == Run(s1, 1)
  {
    StepMatched(ts, 0, 3, 5, k, ws, rest);
  }

  /** The same seven tokens after the first step: the inner quote's text has no marker, so its step changes nothing. */
  lemma NestedSecondStep(s1: seq<Token>)
    requires |s1| == 7 && s1[1].kind == BlockquoteOpen && s1[3].kind == Inline
    requires s1[2].kind == Other("paragraph_open") && s1[4].kind == Other("paragraph_close")
    requires s1[5].kind == CalloutClose && s1[6].kind == BlockquoteClose
    requires forall t :: t in Tags ==> !(Marker(t) <= s1[3].content)
    ensures Step(s1, 1) == s1
  {
    StepUnmarked(s1, 1, 3);
  }

  /** No blockquote opens after the inner one, so the remaining steps change nothing. */
  lemma NestedRestUnchanged(s1: seq<Token>)
    requires |s1| == 7 && s1[2].kind == Other("paragraph_open") && s1[3].kind == Inline
    requires s1[4].kind == Other("paragraph_close") && s1[5].kind == CalloutClose && s1[6].kind == BlockquoteClose
    ensures Run(s1, 2) == s1
  {
    RunSkips(s1, 2);
  }

  lemma NestedLaterSteps(s1: seq<Token>)
    requires |s1| == 7 && s1[1].kind == BlockquoteOpen && s1[3].kind == Inline
    requires s1[2].kind == Other("paragraph_open") && s1[4].kind == Other("paragraph_close")
    requires s1[5].kind == CalloutClose && s1[6].kind == BlockquoteClose
    requires forall t :: t in Tags ==> !(Marker(t) <= s1[3].content)
    ensures Run(s1, 1) == s1
  {
    NestedSecondStep(s1);
    RunUnchangedStep(s1, 1);
    NestedRestUnchanged(s1);
  }

  /** One turn of the rule's outer loop: the token at `i` and what it opens. */
  method CalloutAt(tokens: array<Token>, i: nat)
    requires i < tokens.Length
    modifies tokens
    ensures tokens[..] == Step(old(tokens[..]), i)
  {
    ghost var before := tokens[..];
    if tokens[i].kind != BlockquoteOpen {
      StepSkips(before, i);
      return;
    }
    var inlineIdx := FirstInline(tokens, i);
    if inlineIdx == -1 {
      StepSkips(before, i);
      return;
    }
    StepConverts(before, i, inlineIdx);
    ConvertBlockquote(tokens, i, inlineIdx);
  }

  /** The rule on the token array, in place. */
  method CalloutPass(tokens: array<Token>)
    modifies tokens
    ensures tokens[..] == Pass(old(tokens[..]))
  {
    var i := 0;
    while i < tokens.Length
      invariant 0 <= i <= tokens.Length
      invariant Run(tokens[..], i) == Pass(old(tokens[..]))
    {
      CalloutAt(tokens, i);
      i := i + 1;
    }
  }
}
