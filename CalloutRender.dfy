/**
 * The renderers of the two callout tokens. `callout_open` joins five pieces
 * with no separator, so no whitespace sits between the tags; `callout_close`
 * closes the two `div` elements the open left unclosed.
 */
module CalloutRender {
  import opened Text
  import opened Wrappers
  import opened Tokens
  import Callout

  /** What comes before the callout type. */
  const TypeHead := "<div class=\"callout callout-"

  /** What sits between the type and the icon name. */
  const IconHead := "\">" + "<div class=\"callout-icon-wrapper\">" + "<span class=\"material-icons-round\">"

  /** What follows the icon name. */
  const IconTail := "</span>" + "</div>" + "<div class=\"callout-content-wrapper\">"

  /** The five pieces the open renderer joins. */
  function OpenParts(m: CalloutMeta): seq<string> {
    [ TypeHead + m.calloutType + "\">",
      "<div class=\"callout-icon-wrapper\">",
      "<span class=\"material-icons-round\">" + m.icon + "</span>",
      "</div>",
      "<div class=\"callout-content-wrapper\">" ]
  }

  /** `callout_open` for the token's `meta`. */
  function RenderOpen(m: CalloutMeta): string {
    Concat(OpenParts(m))
  }

  /** `callout_close`. */
  const CloseHtml := "</div></div>"

  lemma Concat5(a: string, b: string, c: string, d: string, e: string)
    ensures Concat([a, b, c, d, e]) == a + b + c + d + e
  {
    var p := [a, b, c, d, e];
    ConcatLast(p);
    ConcatLast(p[..4]);
    ConcatLast(p[..3]);
    ConcatLast(p[..2]);
    ConcatLast(p[..1]);
    assert p[..4][..3] == p[..3] && p[..3][..2] == p[..2] && p[..2][..1] == p[..1] && p[..1][..0] == [];
    assert p[..1] == [a];
  }

  lemma Regroup(h: string, t: string, q: string, d1: string, s1: string, i: string, s2: string, d2: string, d3: string)
    ensures (h + t + q) + d1 + (s1 + i + s2) + d2 + d3 == h + t + (q + d1 + s1) + i + (s2 + d2 + d3)
  {
  }

  /** The open tag is the type and the icon name framed by fixed text. */
  lemma RenderOpenFrame(m: CalloutMeta)
    ensures RenderOpen(m) == TypeHead + m.calloutType + IconHead + m.icon + IconTail
  {
    Concat5(TypeHead + m.calloutType + "\">", "<div class=\"callout-icon-wrapper\">",
      "<span class=\"material-icons-round\">" + m.icon + "</span>", "</div>", "<div class=\"callout-content-wrapper\">");
    Regroup(TypeHead, m.calloutType, "\">", "<div class=\"callout-icon-wrapper\">",
      "<span class=\"material-icons-round\">", m.icon, "</span>", "</div>", "<div class=\"callout-content-wrapper\">");
  }

  /** The text of `s` before the first `c`, and what follows from that `c` on. */
  function CutAt(s: string, c: char): (r: Option<(string, string)>)
    ensures r.None? <==> c !in s
    ensures r.Some? ==> r.value.0 + r.value.1 == s && c !in r.value.0 && r.value.1[0] == c
  {
    var k := IndexOf(s, c);
    if k == -1 then None
    else
      assert s[..k] + s[k..] == s;
      Some((s[..k], s[k..]))
  }

  /** Cutting at the first `c` splits exactly where it occurs first. */
  lemma CutAtFirst(x: string, y: string, c: char)
    requires c !in x && y != [] && y[0] == c
    ensures CutAt(x + y, c) == Some((x, y))
  {
    var s := x + y;
    assert s[|x|] == c;
    var k := IndexOf(s, c);
    assert forall i :: 0 <= i < |x| ==> s[i] == x[i];
    assert s[..k][..] == s[..k];
    assert k <= |x| by {
      assert forall i :: 0 <= i < k ==> s[i] != c by {
        forall i | 0 <= i < k ensures s[i] != c {
          assert s[..k][i] == s[i];
        }
      }
    }
    assert k == |x|;
    assert s[..k] == x && s[k..] == y;
  }

  /** After `mid`, the text up to the first `<`, which must be followed by exactly `tail`. */
  function ReadSecond(after: string, mid: string, tail: string): Option<string> {
    if !(mid <= after) then None
    else
      match CutAt(after[|mid|..], '<')
      case None => None
      case Some((second, rest)) => if rest == tail then Some(second) else None
  }

  /**
   * What an open tag framed by `head`, `mid` and `tail` holds: the text after
   * `head` up to the first `"`, then the text `ReadSecond` finds.
   */
  function ReadFramed(html: string, head: string, mid: string, tail: string): Option<(string, string)> {
    if !(head <= html) then None
    else
      match CutAt(html[|head|..], '"')
      case None => None
      case Some((first, after)) =>
        match ReadSecond(after, mid, tail)
        case None => None
        case Some(second) => Some((first, second))
  }

  lemma ReadSecondOf(mid: string, second: string, tail: string)
    requires '<' !in second && tail != [] && tail[0] == '<'
    ensures ReadSecond(mid + (second + tail), mid, tail) == Some(second)
  {
    assert (mid + (second + tail))[|mid|..] == second + tail;
    CutAtFirst(second, tail, '<');
  }

  lemma ReadFramedOf(head: string, first: string, mid: string, second: string, tail: string)
    requires '"' !in first && mid != [] && mid[0] == '"'
    requires '<' !in second && tail != [] && tail[0] == '<'
    ensures ReadFramed(head + first + mid + second + tail, head, mid, tail) == Some((first, second))
  {
    var after := mid + (second + tail);
    var html := head + (first + after);
    assert head + first + mid + second + tail == html;
    assert html[|head|..] == first + after;
    CutAtFirst(first, after, '"');
    ReadSecondOf(mid, second, tail);
  }

  /** The type and the icon name read back from an open tag. */
  function ReadOpen(html: string): Option<CalloutMeta> {
    match ReadFramed(html, TypeHead, IconHead, IconTail)
    case None => None
    case Some((calloutType, icon)) => Some(CalloutMeta(calloutType, icon))
  }

  /** A type without `"` and an icon name without `<` are read back from the open tag. */
  lemma ReadRenderOpen(m: CalloutMeta)
    requires '"' !in m.calloutType && '<' !in m.icon
    ensures ReadOpen(RenderOpen(m)) == Some(m)
  {
    RenderOpenFrame(m);
    assert IconHead[0] == '"' && IconTail[0] == '<';
    ReadFramedOf(TypeHead, m.calloutType, IconHead, m.icon, IconTail);
  }

  /** Every metadata value the callout rule attaches is read back from its open tag. */
  lemma ReadRenderMetas(m: CalloutMeta)
    requires m in Callout.Metas
    ensures ReadOpen(RenderOpen(m)) == Some(m)
  {
    assert '"' !in m.calloutType && '<' !in m.icon;
    ReadRenderOpen(m);
  }
}
