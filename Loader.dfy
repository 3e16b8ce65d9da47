/**
 * The document index: the list of all documents, built once from the files
 * and kept in a cache, and the queries over it (the flat list, lookup by
 * route, listing of a directory, the link-to-content map).
 * The files the bundler finds are the constant `files`, as (path, text) pairs
 * in enumeration order; `decode` is `decodeURIComponent` and `le` is
 * `localeCompare` as a "sorts no later than" relation.
 */
module Loader {
  import opened Text
  import opened Wrappers
  import opened Sorting
  import opened Routes
  import Frontmatter
  import DocTree

  /** One document per file, in enumeration order. */
  function ScanDocs(decode: string -> Option<string>, files: seq<(string, string)>): (docs: seq<Doc>)
    ensures |docs| == |files|
    ensures forall i :: 0 <= i < |files| ==> docs[i] == MakeDoc(decode, files[i].0, files[i].1)
  {
    if files == [] then []
    else
      var n := |files| - 1;
      ScanDocs(decode, files[..n]) + [MakeDoc(decode, files[n].0, files[n].1)]
  }

  function LinkKey(d: Doc): string {
    d.link
  }

  /** The list `loadAllDocs` returns: the scanned documents sorted by link. */
  function LoadedDocs(decode: string -> Option<string>, le: (string, string) -> bool, files: seq<(string, string)>): seq<Doc> {
    SortBy(ScanDocs(decode, files), LinkKey, le)
  }

  /** The loaded list is ordered by link and holds exactly one document per file. */
  lemma LoadedDocsSorted(decode: string -> Option<string>, le: (string, string) -> bool, files: seq<(string, string)>)
    requires TotalPreorder(le)
    ensures SortedBy(LoadedDocs(decode, le, files), LinkKey, le)
    ensures multiset(LoadedDocs(decode, le, files)) == multiset(ScanDocs(decode, files))
  {
    SortBySorted(ScanDocs(decode, files), LinkKey, le);
  }

  /** `xs.find(x => key(x) === k)`, as a position: here `docs.find(d => d.link === link)`. */
  function FindLink(docs: seq<Doc>, link: string): (r: Option<nat>)
    ensures r.Some? ==> r.value < |docs| && docs[r.value].link == link
    ensures r.Some? ==> forall j :: 0 <= j < r.value ==> docs[j].link != link
    ensures r.None? <==> forall j :: 0 <= j < |docs| ==> docs[j].link != link
  {
    if docs == [] then None
    else if docs[0].link == link then Some(0)
    else match FindLink(docs[1..], link)
      case None => None
      case Some(k) => Some(k + 1)
  }

  /** A scan that stops at `i` finds what `FindLink` finds. */
  lemma FindLinkAt(docs: seq<Doc>, link: string, i: nat)
    requires i <= |docs|
    requires forall j :: 0 <= j < i ==> docs[j].link != link
    requires i < |docs| ==> docs[i].link == link
    ensures FindLink(docs, link) == if i < |docs| then Some(i) else None
  {
  }

  /** What `getDocByRoute` returns for the cleaned route `link`: the first match's content, or `null`. */
  function RouteContent(docs: seq<Doc>, link: string): Option<string> {
    match FindLink(docs, link)
    case None => None
    case Some(i) => Some(docs[i].content)
  }

  /** `docs.find(d => d.link === link)`, then its content or `null`. */
  method FindContent(docs: seq<Doc>, link: string) returns (content: Option<string>)
    ensures content == RouteContent(docs, link)
  {
    var i := 0;
    while i < |docs| && docs[i].link != link
      invariant 0 <= i <= |docs|
      invariant forall j :: 0 <= j < i ==> docs[j].link != link
    {
      i := i + 1;
    }
    FindLinkAt(docs, link, i);
    if i < |docs| {
      content := Some(docs[i].content);
    } else {
      content := None;
    }
  }

  /** The documents below directory `dir`, in list order (`docs.filter`). */
  function InDir(docs: seq<Doc>, dir: string): (r: seq<Doc>)
    ensures |r| <= |docs|
    ensures forall d :: d in r <==> d in docs && StartsWith(d.link, dir + "/")
  {
    if docs == [] then []
    else
      var n := |docs| - 1;
      var init := InDir(docs[..n], dir);
      assert docs == docs[..n] + [docs[n]];
      if StartsWith(docs[n].link, dir + "/") then init + [docs[n]] else init
  }

  /** `docs.filter(doc => doc.link.startsWith(dir + '/'))`. */
  method FilterDir(docs: seq<Doc>, dir: string) returns (below: seq<Doc>)
    ensures below == InDir(docs, dir)
  {
    below := [];
    var i := 0;
    while i < |docs|
      invariant 0 <= i <= |docs|
      invariant below == InDir(docs[..i], dir)
    {
      assert docs[..i + 1][..i] == docs[..i];
      if StartsWith(docs[i].link, dir + "/") {
        below := below + [docs[i]];
      }
      i := i + 1;
    }
    assert docs[..i] == docs;
  }

  /** A directory never lists a document whose route is the directory itself. */
  lemma InDirExcludesSelf(docs: seq<Doc>, dir: string, d: Doc)
    requires d in docs && d.link == dir
    ensures d !in InDir(docs, dir)
  {
    assert |dir + "/"| > |d.link|;
  }

  /** Listing the empty directory (the route `/`) returns every document whose route starts with `/`. */
  lemma {:induction false} InRootIsAll(docs: seq<Doc>)
    requires forall i :: 0 <= i < |docs| ==> StartsWith(docs[i].link, "/")
    ensures InDir(docs, "") == docs
  {
    if docs != [] {
      var n := |docs| - 1;
      InRootIsAll(docs[..n]);
      assert [] + "/" == "/";
      assert docs == docs[..n] + [docs[n]];
    }
  }

  /** The listing keeps list order: listing two lists one after the other is listing their concatenation. */
  lemma {:induction false} InDirAppend(a: seq<Doc>, b: seq<Doc>, dir: string)
    ensures InDir(a + b, dir) == InDir(a, dir) + InDir(b, dir)
  {
    if b == [] {
      assert a + b == a;
    } else {
      var n := |b| - 1;
      InDirAppend(a, b[..n], dir);
      assert (a + b)[..|a + b| - 1] == a + b[..n];
      assert (a + b)[|a + b| - 1] == b[n];
    }
  }

  /**
   * `getDocsInDir('/')` lists every document, in list order, whenever decoding
   * the empty text gives back the empty text or fails.
   */
  lemma RootListingIsAll(decode: string -> Option<string>, docs: seq<Doc>)
    requires decode("") == None || decode("") == Some("")
    requires forall i :: 0 <= i < |docs| ==> StartsWith(docs[i].link, "/")
    ensures InDir(docs, CleanDir(decode, "/")) == docs
  {
    assert CleanDir(decode, "/") == "";
    InRootIsAll(docs);
  }

  /** `new Map` filled with `link -> content` in list order. */
  function LinkMap(docs: seq<Doc>): map<string, string> {
    if docs == [] then map[]
    else
      var n := |docs| - 1;
      LinkMap(docs[..n])[docs[n].link := docs[n].content]
  }

  /** `docs.forEach(doc => map.set(doc.link, doc.content))` on a new map. */
  method FillLinkMap(docs: seq<Doc>) returns (m: map<string, string>)
    ensures m == LinkMap(docs)
  {
    m := map[];
    var i := 0;
    while i < |docs|
      invariant 0 <= i <= |docs|
      invariant m == LinkMap(docs[..i])
    {
      assert docs[..i + 1][..i] == docs[..i];
      m := m[docs[i].link := docs[i].content];
      i := i + 1;
    }
    assert docs[..i] == docs;
  }

  /** The map's keys are exactly the documents' routes. */
  lemma {:induction false} LinkMapKeys(docs: seq<Doc>, link: string)
    ensures link in LinkMap(docs) <==> exists i :: 0 <= i < |docs| && docs[i].link == link
  {
    if docs != [] {
      var n := |docs| - 1;
      LinkMapKeys(docs[..n], link);
      if link != docs[n].link && link in LinkMap(docs) {
        var i :| 0 <= i < n && docs[..n][i].link == link;
        assert docs[i].link == link;
      }
      if exists i :: 0 <= i < |docs| && docs[i].link == link {
        var i :| 0 <= i < |docs| && docs[i].link == link;
        if i < n {
          assert docs[..n][i].link == link;
        }
      }
    }
  }

  /** Of several documents with one route, the map keeps the content of the last. */
  lemma {:induction false} LinkMapLastWins(docs: seq<Doc>, i: nat)
    requires i < |docs|
    requires forall j :: i < j < |docs| ==> docs[j].link != docs[i].link
    ensures docs[i].link in LinkMap(docs) && LinkMap(docs)[docs[i].link] == docs[i].content
  {
    var n := |docs| - 1;
    if i < n {
      LinkMapLastWins(docs[..n], i);
    }
  }

  /**
   * The module's state: the files, the two host functions, and the cache
   * `_cachedDocs`, which is empty until the first load and then holds the
   * sorted list for good.
   */
  class DocIndex {
    const files: seq<(string, string)>
    const decode: string -> Option<string>
    const le: (string, string) -> bool
    var cache: Option<seq<Doc>>

    /** A filled cache holds the loaded list. */
    predicate Valid()
      reads this
    {
      cache.Some? ==> cache.value == LoadedDocs(decode, le, files)
    }

    constructor(files: seq<(string, string)>, decode: string -> Option<string>, le: (string, string) -> bool)
      ensures this.files == files && this.decode == decode && this.le == le
      ensures cache.None? && Valid()
    {
      this.files := files;
      this.decode := decode;
      this.le := le;
      cache := None;
    }

    /**
     * `loadAllDocs()`: a filled cache is returned as it is, even when it holds
     * no document; otherwise every file is scanned, the list sorted by link
     * and stored.
     */
    method LoadAllDocs() returns (docs: seq<Doc>)
      requires Valid()
      modifies this
      ensures Valid() && cache == Some(docs)
      ensures docs == LoadedDocs(decode, le, files)
      ensures old(cache).Some? ==> docs == old(cache).value
    {
      if cache.Some? {
        return cache.value;
      }
      var list: seq<Doc> := [];
      var i := 0;
      while i < |files|
        invariant 0 <= i <= |files|
        invariant list == ScanDocs(decode, files[..i])
      {
        var path, raw := files[i].0, files[i].1;
        var parsed := Frontmatter.ParseFrontmatter(raw);
        var meta := parsed.meta;
        var link := LinkOf(decode, path);
        var segments := Segments(link);
        list := list + [Doc(link, Title(meta, segments), meta, raw, segments, path, Field(meta, "date"), Field(meta, "tags"))];
        assert files[..i + 1][..i] == files[..i];
        i := i + 1;
      }
      assert files[..i] == files;
      docs := SortBy(list, LinkKey, le);
      cache := Some(docs);
    }

    /** `getFlatDocs()`. */
    method GetFlatDocs() returns (docs: seq<Doc>)
      requires Valid()
      modifies this
      ensures Valid() && docs == LoadedDocs(decode, le, files)
      ensures cache == Some(LoadedDocs(decode, le, files))
    {
      docs := LoadAllDocs();
    }

    /** `getDocByRoute(route)`: the content of the first document on the cleaned route, or `null`. */
    method GetDocByRoute(route: string) returns (content: Option<string>)
      requires Valid()
      modifies this
      ensures Valid()
      ensures cache == Some(LoadedDocs(decode, le, files))
      ensures content == RouteContent(LoadedDocs(decode, le, files), CleanRoute(decode, route))
    {
      var docs := LoadAllDocs();
      content := FindContent(docs, CleanRoute(decode, route));
    }

    /** `getDocsInDir(dir)`: every document below the cleaned directory, in list order. */
    method GetDocsInDir(dir: string) returns (below: seq<Doc>)
      requires Valid()
      modifies this
      ensures Valid()
      ensures cache == Some(LoadedDocs(decode, le, files))
      ensures below == InDir(LoadedDocs(decode, le, files), CleanDir(decode, dir))
    {
      var docs := LoadAllDocs();
      below := FilterDir(docs, CleanDir(decode, dir));
    }

    /** `getDocTree()`: the sidebar tree of the loaded list. */
    method GetDocTree() returns (tree: seq<DocTree.Dir>)
      requires Valid()
      modifies this
      ensures Valid()
      ensures cache == Some(LoadedDocs(decode, le, files))
      ensures tree == DocTree.ProcessForest(DocTree.Grow(LoadedDocs(decode, le, files)).children, le)
    {
      var docs := LoadAllDocs();
      tree := DocTree.GetDocTree(docs, le);
    }

    /** `getAllDocs()`: the route-to-content map, later documents overwriting earlier ones. */
    method GetAllDocs() returns (m: map<string, string>)
      requires Valid()
      modifies this
      ensures Valid()
      ensures cache == Some(LoadedDocs(decode, le, files))
      ensures m == LinkMap(LoadedDocs(decode, le, files))
    {
      var docs := LoadAllDocs();
      m := FillLinkMap(docs);
    }
  }
}
