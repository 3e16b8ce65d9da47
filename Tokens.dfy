/**
 * The block tokens the Markdown parser hands to the core rules and renderers.
 * Only the fields the core reads or writes are kept: the token type (`kind`,
 * as `type` is a reserved word here), the HTML tag, the text content, the
 * callout metadata a rule may attach, and the `id` attribute, which the anchor
 * plugin sets on headings (None where `attrGet('id')` gives null).
 */
module Tokens {
  import opened Wrappers

  /** `{ type, icon }` as the callout rule stores it in `meta`. */
  datatype CalloutMeta = CalloutMeta(calloutType: string, icon: string)

  /**
   * The token types the core tests or writes; every other type the parser
   * emits (`paragraph_open`, `fence`, ...) is `Other` with its name. `Other`
   * never carries one of the six names above (`Canonical`): `KindOf` reads a
   * type name that way.
   */
  datatype Kind =
    | BlockquoteOpen   // "blockquote_open"
    | BlockquoteClose  // "blockquote_close"
    | CalloutOpen      // "callout_open"
    | CalloutClose     // "callout_close"
    | Inline           // "inline"
    | HeadingOpen      // "heading_open"
    | Other(name: string)

  /** The type names the core tests or writes. */
  const SpecialNames := ["blockquote_open", "blockquote_close", "callout_open", "callout_close", "inline", "heading_open"]

  /** The `type` string of a token of kind `k`. */
  function Name(k: Kind): string {
    match k
    case BlockquoteOpen => "blockquote_open"
    case BlockquoteClose => "blockquote_close"
    case CalloutOpen => "callout_open"
    case CalloutClose => "callout_close"
    case Inline => "inline"
    case HeadingOpen => "heading_open"
    case Other(name) => name
  }

  /** Each type has one kind: `Other` holds none of the names the core tests. */
  predicate Canonical(k: Kind) {
    k.Other? ==> k.name !in SpecialNames
  }

  /** The kind of a token whose `type` is `name`. */
  function KindOf(name: string): (k: Kind)
    ensures Name(k) == name && Canonical(k)
  {
    if name == "blockquote_open" then BlockquoteOpen
    else if name == "blockquote_close" then BlockquoteClose
    else if name == "callout_open" then CalloutOpen
    else if name == "callout_close" then CalloutClose
    else if name == "inline" then Inline
    else if name == "heading_open" then HeadingOpen
    else Other(name)
  }

  /** Reading back the name of a canonical kind gives the kind. */
  lemma KindOfName(k: Kind)
    requires Canonical(k)
    ensures KindOf(Name(k)) == k
  {
  }

  datatype Token = Token(kind: Kind, tag: string, content: string, meta: Option<CalloutMeta>, id: Option<string>)
}
