/**
 * How the document index turns a source path into a route: the `link`, its
 * `segments`, the `title`, `date` and `tags` of one document, and the cleaning
 * of a route or directory path before it is looked up.
 * `decodeURIComponent` is the parameter `decode`; `None` stands for the
 * `URIError` it throws, after which the source carries on with the raw text.
 */
module Routes {
  import opened Text
  import opened Wrappers
  import Frontmatter

  /** One entry of the document list. `date` and `tags` are `None` where the source stores `null` or `[]`. */
  datatype Doc = Doc(
    link: string,
    title: string,
    meta: map<string, string>,
    content: string,
    segments: seq<string>,
    rawPath: string,
    date: Option<string>,
    tags: Option<string>)

  /** `s.replace(/^<p>/, '')` for a literal pattern `p`. */
  function StripPrefix(s: string, p: string): string {
    if StartsWith(s, p) then s[|p|..] else s
  }

  /** `s.replace(/<x>$/, '')` for a literal pattern `x`. */
  function StripSuffix(s: string, x: string): string {
    if EndsWith(s, x) then s[..|s| - |x|] else s
  }

  /** `decodeURIComponent(s)`, or `s` itself when decoding throws. */
  function DecodeOr(decode: string -> Option<string>, s: string): string {
    decode(s).GetOr(s)
  }

  /** The route of the document at `path`: no `/docs` prefix, no `.md`, no `/index`, a leading `/`. */
  function LinkOf(decode: string -> Option<string>, path: string): (link: string)
    ensures StartsWith(link, "/")
  {
    var bare := StripSuffix(StripPrefix(DecodeOr(decode, path), "/docs"), ".md");
    var page := if EndsWith(bare, "/index") then bare[..|bare| - 6] else bare;
    if StartsWith(page, "/") then page else "/" + page
  }

  /** A page file `/docs<rel>.md` gets the route `rel`. */
  lemma LinkOfPage(decode: string -> Option<string>, path: string, rel: string)
    requires DecodeOr(decode, path) == "/docs" + rel + ".md"
    requires StartsWith(rel, "/") && !EndsWith(rel, "/index")
    ensures LinkOf(decode, path) == rel
  {
    var s := "/docs" + rel + ".md";
    assert StartsWith(s, "/docs");
    assert s[5..] == rel + ".md";
    EndsWithAppend(rel, ".md");
    assert (rel + ".md")[..|rel|] == rel;
  }

  /** A directory's default page `/docs<dir>/index.md` gets the route `dir`, or `/` for the top. */
  lemma LinkOfIndex(decode: string -> Option<string>, path: string, dir: string)
    requires DecodeOr(decode, path) == "/docs" + dir + "/index.md"
    requires dir == [] || StartsWith(dir, "/")
    ensures LinkOf(decode, path) == if dir == [] then "/" else dir
  {
    var s := "/docs" + dir + "/index.md";
    assert StartsWith(s, "/docs");
    assert s[5..] == dir + "/index" + ".md";
    EndsWithAppend(dir + "/index", ".md");
    assert (dir + "/index" + ".md")[..|dir| + 6] == dir + "/index";
    EndsWithAppend(dir, "/index");
    assert (dir + "/index")[..|dir|] == dir;
  }

  /** `/docs/guide/index.md` is the route `/guide`, and `/docs/index.md` is `/`. */
  lemma LinkExamples(decode: string -> Option<string>)
    requires decode("/docs/guide/index.md").GetOr("/docs/guide/index.md") == "/docs/guide/index.md"
    requires decode("/docs/index.md").GetOr("/docs/index.md") == "/docs/index.md"
    ensures LinkOf(decode, "/docs/guide/index.md") == "/guide"
    ensures LinkOf(decode, "/docs/index.md") == "/"
  {
    LinkOfIndex(decode, "/docs/guide/index.md", "/guide");
    LinkOfIndex(decode, "/docs/index.md", "");
  }

  /** `parts.filter(Boolean)`: the non-empty parts, in order. */
  function NonEmpty(parts: seq<string>): (r: seq<string>)
    ensures |r| <= |parts|
    ensures forall i :: 0 <= i < |r| ==> r[i] != [] && r[i] in parts
  {
    if parts == [] then []
    else if parts[0] == [] then NonEmpty(parts[1..])
    else [parts[0]] + NonEmpty(parts[1..])
  }

  lemma {:induction false} NonEmptyKeeps(parts: seq<string>)
    requires forall i :: 0 <= i < |parts| ==> parts[i] != []
    ensures NonEmpty(parts) == parts
  {
    if parts != [] {
      NonEmptyKeeps(parts[1..]);
    }
  }

  /** `link.split('/').filter(Boolean)`: the directory names and file name of a route. */
  function Segments(link: string): (r: seq<string>)
    ensures forall i :: 0 <= i < |r| ==> r[i] != [] && '/' !in r[i]
  {
    NonEmpty(Split(link, '/'))
  }

  /** The root route has no segments. */
  lemma RootHasNoSegments()
    ensures Segments("/") == []
  {
    assert Split("/", '/') == [[], []];
  }

  /** Segments and `'/' + segments.join('/')` are inverse on names without `/`. */
  lemma SegmentsOfJoin(segs: seq<string>)
    requires forall i :: 0 <= i < |segs| ==> segs[i] != [] && '/' !in segs[i]
    ensures Segments("/" + Join(segs, '/')) == segs
  {
    if segs == [] {
      RootHasNoSegments();
    } else {
      JoinEmptyHead(segs, '/');
      SplitJoin([[]] + segs, '/');
      assert ([[]] + segs)[1..] == segs;
      NonEmptyKeeps(segs);
    }
  }

  /** `meta.title || (segments[segments.length - 1] || 'Home')`. */
  function Title(meta: map<string, string>, segments: seq<string>): (t: string)
    ensures t != []
    ensures Field(meta, "title").Some? ==> t == meta["title"]
    ensures Field(meta, "title").None? ==>
      t == if segments != [] && segments[|segments| - 1] != [] then segments[|segments| - 1] else "Home"
  {
    if "title" in meta && meta["title"] != [] then meta["title"]
    else if segments != [] && segments[|segments| - 1] != [] then segments[|segments| - 1]
    else "Home"
  }

  /** `meta[key] || fallback` for a string-valued field: `None` when absent or empty. */
  function Field(meta: map<string, string>, key: string): (r: Option<string>)
    ensures r.Some? <==> key in meta && meta[key] != []
    ensures r.Some? ==> r.value == meta[key]
  {
    if key in meta && meta[key] != [] then Some(meta[key]) else None
  }

  /** The route `getDocByRoute` looks up: one trailing `/` removed unless the route is `/`, then decoded. */
  function CleanRoute(decode: string -> Option<string>, route: string): string {
    DecodeOr(decode, if route == "/" then "/" else StripSuffix(route, "/"))
  }

  /** A route with one trailing `/` is looked up as the route without it; `/` itself is kept. */
  lemma CleanRouteTrailingSlash(decode: string -> Option<string>, route: string)
    requires route != [] && !EndsWith(route, "/")
    ensures CleanRoute(decode, route + "/") == CleanRoute(decode, route)
    ensures CleanRoute(decode, "/") == DecodeOr(decode, "/")
  {
    EndsWithAppend(route, "/");
    assert (route + "/")[..|route|] == route;
  }

  /** The directory `getDocsInDir` lists: `/` becomes empty, otherwise one trailing `/` is removed; then decoded. */
  function CleanDir(decode: string -> Option<string>, dir: string): string {
    DecodeOr(decode, if dir == "/" then "" else StripSuffix(dir, "/"))
  }

  /** The entry the loader builds for the file at `path` with text `raw`. */
  function MakeDoc(decode: string -> Option<string>, path: string, raw: string): (d: Doc)
    ensures StartsWith(d.link, "/") && d.title != []
    ensures forall i :: 0 <= i < |d.segments| ==> d.segments[i] != [] && '/' !in d.segments[i]
  {
    var link := LinkOf(decode, path);
    var segments := Segments(link);
    var meta := Frontmatter.MetaOf(raw);
    Doc(link, Title(meta, segments), meta, raw, segments, path, Field(meta, "date"), Field(meta, "tags"))
  }
}
