/**
 * The sidebar tree of `getDocTree`: one directory node per distinct directory
 * route, each document as an item of its parent directory, then every level
 * sorted by title. The tree is a value: the cursor that walks and extends the
 * nested `children` arrays in place is the recursive `Place`, which rebuilds
 * the path it walks.
 */
module DocTree {
  import opened Text
  import opened Wrappers
  import opened Sorting
  import opened Routes

  /** A document in the tree: `{ title, link, icon }`. */
  datatype Item = Item(title: string, link: string, icon: string)

  /** A directory node: `{ title, slug, link, collapsible, children, items }`. */
  datatype Dir = Dir(title: string, slug: string, link: string, collapsible: bool, children: seq<Dir>, items: seq<Item>)

  /** The virtual root `{ children: [], items: [] }`; its other fields are never read. */
  const Root: Dir := Dir("", "", "", true, [], [])

  /** The node created for directory `part` below the directories `prefix`. */
  function NewDir(prefix: seq<string>, part: string): Dir {
    Dir(part, part, "/" + Join(prefix + [part], '/'), true, [], [])
  }

  /** `xs.find(x => key(x) === k)`, as a position: here `nodes.find(child => child.slug === slug)`. */
  function FindSlug(nodes: seq<Dir>, slug: string): (r: Option<nat>)
    ensures r.Some? ==> r.value < |nodes| && nodes[r.value].slug == slug
    ensures r.Some? ==> forall j :: 0 <= j < r.value ==> nodes[j].slug != slug
    ensures r.None? <==> forall j :: 0 <= j < |nodes| ==> nodes[j].slug != slug
  {
    if nodes == [] then None
    else if nodes[0].slug == slug then Some(0)
    else match FindSlug(nodes[1..], slug)
      case None => None
      case Some(k) => Some(k + 1)
  }

  /**
   * The cursor walk for one document: from `node`, which sits below the
   * directories `prefix`, follow or create one child per name in `path`, then
   * push `item` onto the items of the node reached.
   */
  function Place(node: Dir, path: seq<string>, prefix: seq<string>, item: Item): (r: Dir)
    decreases |path|
    ensures r.title == node.title && r.slug == node.slug && r.link == node.link
  {
    if path == [] then node.(items := node.items + [item])
    else
      var part := path[0];
      match FindSlug(node.children, part)
      case Some(c) =>
        node.(children := node.children[c := Place(node.children[c], path[1..], prefix + [part], item)])
      case None =>
        node.(children := node.children + [Place(NewDir(prefix, part), path[1..], prefix + [part], item)])
  }

  function ItemFor(d: Doc): Item {
    Item(d.title, d.link, "description")
  }

  /** One document of the `forEach`: skipped without segments, else placed under `segments[0..n-2]`. */
  function AddDoc(root: Dir, d: Doc): Dir {
    if d.segments == [] then root
    else Place(root, d.segments[..|d.segments| - 1], [], ItemFor(d))
  }

  /** The root after the `forEach` over `docs`. */
  function Grow(docs: seq<Doc>): Dir {
    if docs == [] then Root
    else AddDoc(Grow(docs[..|docs| - 1]), docs[|docs| - 1])
  }

  function DirTitle(n: Dir): string {
    n.title
  }

  function ItemTitle(i: Item): string {
    i.title
  }

  /** One node of `processTree`: its children processed, its items sorted by title. */
  function ProcessNode(n: Dir, le: (string, string) -> bool): (r: Dir)
    decreases n, 0
    ensures r.title == n.title && r.slug == n.slug && r.link == n.link
  {
    n.(children := ProcessForest(n.children, le), items := SortBy(n.items, ItemTitle, le))
  }

  function ProcessEach(ns: seq<Dir>, le: (string, string) -> bool): (r: seq<Dir>)
    decreases ns, 0
    ensures |r| == |ns|
    ensures forall i :: 0 <= i < |ns| ==> r[i] == ProcessNode(ns[i], le)
  {
    if ns == [] then []
    else
      var rest := ProcessEach(ns[1..], le);
      assert forall i :: 1 <= i < |ns| ==> ns[i] == ns[1..][i - 1];
      [ProcessNode(ns[0], le)] + rest
  }

  /** `processTree(nodes)`: the nodes processed and sorted by title. */
  function ProcessForest(ns: seq<Dir>, le: (string, string) -> bool): seq<Dir>
    decreases ns, 1
  {
    SortBy(ProcessEach(ns, le), DirTitle, le)
  }

  /**
   * `getDocTree()`: every document placed in order, then the root's children
   * processed; the root's own items are dropped.
   */
  method GetDocTree(docs: seq<Doc>, le: (string, string) -> bool) returns (tree: seq<Dir>)
    ensures tree == ProcessForest(Grow(docs).children, le)
  {
    var root := Root;
    var i := 0;
    while i < |docs|
      invariant 0 <= i <= |docs|
      invariant root == Grow(docs[..i])
    {
      assert docs[..i + 1][..i] == docs[..i];
      root := AddDoc(root, docs[i]);
      i := i + 1;
    }
    assert docs[..i] == docs;
    tree := ProcessForest(root.children, le);
  }

  // ---------------------------------------------------------------------
  // Shape of the tree

  /** No two siblings share a slug, at any level. */
  predicate UniqueSlugs(ns: seq<Dir>) {
    && (forall i, j :: 0 <= i < j < |ns| ==> ns[i].slug != ns[j].slug)
    && (forall i :: 0 <= i < |ns| ==> UniqueSlugs(ns[i].children))
  }

  /** Each node below the directories `prefix` is titled by its slug and linked to `'/' + (prefix + [slug]).join('/')`. */
  predicate Linked(ns: seq<Dir>, prefix: seq<string>) {
    forall i :: 0 <= i < |ns| ==>
      && ns[i].title == ns[i].slug
      && ns[i].link == "/" + Join(prefix + [ns[i].slug], '/')
      && Linked(ns[i].children, prefix + [ns[i].slug])
  }

  /** Placing a document keeps sibling slugs distinct. */
  lemma {:induction false} PlaceUnique(node: Dir, path: seq<string>, prefix: seq<string>, item: Item)
    requires UniqueSlugs(node.children)
    ensures UniqueSlugs(Place(node, path, prefix, item).children)
    decreases |path|
  {
    if path != [] {
      var part := path[0];
      var cs := node.children;
      match FindSlug(cs, part)
      case Some(c) =>
        PlaceUnique(cs[c], path[1..], prefix + [part], item);
        var cs' := cs[c := Place(cs[c], path[1..], prefix + [part], item)];
        assert forall i :: 0 <= i < |cs| ==> cs'[i].slug == cs[i].slug;
        assert forall i :: 0 <= i < |cs| && i != c ==> cs'[i] == cs[i];
      case None =>
        var newDir := NewDir(prefix, part);
        PlaceUnique(newDir, path[1..], prefix + [part], item);
        var cs' := cs + [Place(newDir, path[1..], prefix + [part], item)];
        assert forall i :: 0 <= i < |cs| ==> cs'[i] == cs[i];
    }
  }

  /** Placing a document keeps every node's title and link tied to its position. */
  lemma {:induction false} PlaceLinked(node: Dir, path: seq<string>, prefix: seq<string>, item: Item)
    requires Linked(node.children, prefix)
    ensures Linked(Place(node, path, prefix, item).children, prefix)
    decreases |path|
  {
    if path != [] {
      var part := path[0];
      var cs := node.children;
      match FindSlug(cs, part)
      case Some(c) =>
        PlaceLinked(cs[c], path[1..], prefix + [part], item);
        var cs' := cs[c := Place(cs[c], path[1..], prefix + [part], item)];
        assert forall i :: 0 <= i < |cs| && i != c ==> cs'[i] == cs[i];
      case None =>
        var newDir := NewDir(prefix, part);
        PlaceLinked(newDir, path[1..], prefix + [part], item);
        var cs' := cs + [Place(newDir, path[1..], prefix + [part], item)];
        assert forall i :: 0 <= i < |cs| ==> cs'[i] == cs[i];
    }
  }

  /** The tree built from any documents has distinct sibling slugs and position-derived links. */
  lemma {:induction false} GrowShape(docs: seq<Doc>)
    ensures UniqueSlugs(Grow(docs).children)
    ensures Linked(Grow(docs).children, [])
  {
    if docs != [] {
      var n := |docs| - 1;
      GrowShape(docs[..n]);
      var d := docs[n];
      if d.segments != [] {
        PlaceUnique(Grow(docs[..n]), d.segments[..|d.segments| - 1], [], ItemFor(d));
        PlaceLinked(Grow(docs[..n]), d.segments[..|d.segments| - 1], [], ItemFor(d));
      }
    }
  }

  // ---------------------------------------------------------------------
  // Where the documents go

  /** The items of the node reached by following the slugs in `path`, if there is one. */
  function ItemsAt(n: Dir, path: seq<string>): Option<seq<Item>>
    decreases |path|, 1
  {
    if path == [] then Some(n.items) else ItemsIn(n.children, path)
  }

  function ItemsIn(ns: seq<Dir>, path: seq<string>): Option<seq<Item>>
    requires path != []
    decreases |path|, 0
  {
    match FindSlug(ns, path[0])
    case None => None
    case Some(c) => ItemsAt(ns[c], path[1..])
  }

  /** The items, in document order, of the documents whose directories are `path`. */
  function Under(docs: seq<Doc>, path: seq<string>): seq<Item> {
    if docs == [] then []
    else
      var n := |docs| - 1;
      var d := docs[n];
      if d.segments != [] && d.segments[..|d.segments| - 1] == path then Under(docs[..n], path) + [ItemFor(d)]
      else Under(docs[..n], path)
  }

  lemma NewDirEmpty(prefix: seq<string>, part: string, path: seq<string>)
    ensures ItemsAt(NewDir(prefix, part), path).GetOr([]) == []
  {
  }

  /** The placed item is appended to the items at its own path. */
  lemma {:induction false} PlaceItemsHere(node: Dir, path: seq<string>, prefix: seq<string>, item: Item)
    ensures ItemsAt(Place(node, path, prefix, item), path) == Some(ItemsAt(node, path).GetOr([]) + [item])
    decreases |path|
  {
    if path != [] {
      var part := path[0];
      var cs := node.children;
      match FindSlug(cs, part)
      case Some(c) =>
        var child := Place(cs[c], path[1..], prefix + [part], item);
        PlaceItemsHere(cs[c], path[1..], prefix + [part], item);
        FindSlugSameSlugs(cs, cs[c := child], part);
      case None =>
        var newDir := NewDir(prefix, part);
        PlaceItemsHere(newDir, path[1..], prefix + [part], item);
        NewDirEmpty(prefix, part, path[1..]);
        FindSlugAppend(cs, Place(newDir, path[1..], prefix + [part], item), part);
    }
  }

  /** Slug searches only look at slugs. */
  lemma FindSlugSameSlugs(a: seq<Dir>, b: seq<Dir>, slug: string)
    requires |a| == |b| && forall i :: 0 <= i < |a| ==> a[i].slug == b[i].slug
    ensures FindSlug(a, slug) == FindSlug(b, slug)
  {
    var ra, rb := FindSlug(a, slug), FindSlug(b, slug);
    if ra.Some? && rb.Some? {
      assert !(ra.value < rb.value) && !(rb.value < ra.value);
    }
  }

  /** A node appended after the existing ones is found only when no earlier one matches. */
  lemma FindSlugAppend(ns: seq<Dir>, x: Dir, slug: string)
    ensures FindSlug(ns + [x], slug) ==
      if FindSlug(ns, slug).Some? then FindSlug(ns, slug)
      else if x.slug == slug then Some(|ns|)
      else None
  {
    var r, r' := FindSlug(ns, slug), FindSlug(ns + [x], slug);
    var s := ns + [x];
    assert forall i :: 0 <= i < |ns| ==> s[i] == ns[i];
    if r.Some? {
      assert s[r.value].slug == slug;
      assert !(r'.value < r.value) && !(r.value < r'.value);
    } else if x.slug == slug {
      assert s[|ns|].slug == slug;
      assert r'.value == |ns|;
    } else {
      assert forall j :: 0 <= j < |s| ==> s[j].slug != slug;
    }
  }

  /** No other path's items change. */
  lemma {:induction false} PlaceItemsElsewhere(node: Dir, path: seq<string>, prefix: seq<string>, item: Item, q: seq<string>)
    requires q != path
    ensures ItemsAt(Place(node, path, prefix, item), q).GetOr([]) == ItemsAt(node, q).GetOr([])
    decreases |path|
  {
    if path != [] && q != [] {
      var part := path[0];
      var cs := node.children;
      match FindSlug(cs, part)
      case Some(c) =>
        var child := Place(cs[c], path[1..], prefix + [part], item);
        FindSlugSameSlugs(cs, cs[c := child], q[0]);
        if q[0] == part {
          assert q[1..] != path[1..] by { assert q == [q[0]] + q[1..] && path == [path[0]] + path[1..]; }
          PlaceItemsElsewhere(cs[c], path[1..], prefix + [part], item, q[1..]);
        }
      case None =>
        var newDir := NewDir(prefix, part);
        var child := Place(newDir, path[1..], prefix + [part], item);
        FindSlugAppend(cs, child, q[0]);
        if q[0] == part {
          assert q[1..] != path[1..] by { assert q == [q[0]] + q[1..] && path == [path[0]] + path[1..]; }
          PlaceItemsElsewhere(newDir, path[1..], prefix + [part], item, q[1..]);
          NewDirEmpty(prefix, part, q[1..]);
        }
    }
  }

  /** Before sorting, the items at every path are exactly the documents filed there, in order. */
  lemma {:induction false} GrowItems(docs: seq<Doc>, q: seq<string>)
    ensures ItemsAt(Grow(docs), q).GetOr([]) == Under(docs, q)
  {
    if docs != [] {
      var n := |docs| - 1;
      GrowItems(docs[..n], q);
      var d := docs[n];
      if d.segments != [] {
        var path := d.segments[..|d.segments| - 1];
        if q == path {
          PlaceItemsHere(Grow(docs[..n]), path, [], ItemFor(d));
        } else {
          PlaceItemsElsewhere(Grow(docs[..n]), path, [], ItemFor(d), q);
        }
      }
    }
  }

  /** Document `d` is filed in a directory at or below `p`: the walk for `d` passes through `p`. */
  predicate PassesThrough(d: Doc, p: seq<string>) {
    |d.segments| >= 2 && p <= d.segments[..|d.segments| - 1]
  }

  /** A node below `node` exists after the walk exactly when it did before, or the walk passed through it. */
  lemma {:induction false} PlaceOpens(node: Dir, path: seq<string>, prefix: seq<string>, item: Item, q: seq<string>)
    requires q != []
    ensures ItemsAt(Place(node, path, prefix, item), q).Some? <==> ItemsAt(node, q).Some? || q <= path
    decreases |path|, 1
  {
    if path != [] {
      match FindSlug(node.children, path[0])
      case Some(c) => PlaceOpensFollow(node, path, prefix, item, q, c);
      case None => PlaceOpensCreate(node, path, prefix, item, q);
    }
  }

  /** The walk follows an existing child. */
  lemma {:induction false} PlaceOpensFollow(node: Dir, path: seq<string>, prefix: seq<string>, item: Item, q: seq<string>, c: nat)
    requires q != [] && path != [] && FindSlug(node.children, path[0]) == Some(c)
    ensures ItemsAt(Place(node, path, prefix, item), q).Some? <==> ItemsAt(node, q).Some? || q <= path
    decreases |path|, 0
  {
    var part := path[0];
    var cs := node.children;
    var child := Place(cs[c], path[1..], prefix + [part], item);
    var cs' := cs[c := child];
    assert ItemsAt(Place(node, path, prefix, item), q) == ItemsIn(cs', q);
    assert ItemsAt(node, q) == ItemsIn(cs, q);
    FindSlugSameSlugs(cs, cs', q[0]);
    match FindSlug(cs, q[0])
    case None =>
      assert q[0] != part;
    case Some(k) =>
      if k == c {
        assert q[0] == part;
        assert ItemsIn(cs', q) == ItemsAt(child, q[1..]);
        assert ItemsIn(cs, q) == ItemsAt(cs[c], q[1..]);
        if q[1..] == [] {
          assert q == [part];
        } else {
          PlaceOpens(cs[c], path[1..], prefix + [part], item, q[1..]);
          assert q <= path <==> q[1..] <= path[1..];
        }
      } else {
        assert cs'[k] == cs[k];
        assert q[0] != part;
      }
  }

  /** The walk creates a new child. */
  lemma {:induction false} PlaceOpensCreate(node: Dir, path: seq<string>, prefix: seq<string>, item: Item, q: seq<string>)
    requires q != [] && path != [] && FindSlug(node.children, path[0]).None?
    ensures ItemsAt(Place(node, path, prefix, item), q).Some? <==> ItemsAt(node, q).Some? || q <= path
    decreases |path|, 0
  {
    var part := path[0];
    var cs := node.children;
    var newDir := NewDir(prefix, part);
    var child := Place(newDir, path[1..], prefix + [part], item);
    var cs' := cs + [child];
    assert ItemsAt(Place(node, path, prefix, item), q) == ItemsIn(cs', q);
    assert ItemsAt(node, q) == ItemsIn(cs, q);
    FindSlugAppend(cs, child, q[0]);
    match FindSlug(cs, q[0])
    case Some(k) =>
      assert q[0] != part;
      assert cs'[k] == cs[k];
    case None =>
      if q[0] == part {
        assert ItemsIn(cs', q) == ItemsAt(child, q[1..]);
        if q[1..] == [] {
          assert q == [part];
        } else {
          PlaceOpens(newDir, path[1..], prefix + [part], item, q[1..]);
          assert ItemsAt(newDir, q[1..]).None?;
          assert q <= path <==> q[1..] <= path[1..];
        }
      }
  }

  /** One document of the `forEach` adds exactly the nodes its walk passes through. */
  lemma AddDocOpens(root: Dir, d: Doc, q: seq<string>)
    requires q != []
    ensures ItemsAt(AddDoc(root, d), q).Some? <==> ItemsAt(root, q).Some? || PassesThrough(d, q)
  {
    if d.segments != [] {
      PlaceOpens(root, d.segments[..|d.segments| - 1], [], ItemFor(d), q);
    }
  }

  /** Some document of `docs` passes through `q` when one of all but the last does, or the last does. */
  lemma PassesThroughSplit(docs: seq<Doc>, q: seq<string>)
    requires docs != []
    ensures (exists d :: d in docs && PassesThrough(d, q)) <==>
      (exists d :: d in docs[..|docs| - 1] && PassesThrough(d, q)) || PassesThrough(docs[|docs| - 1], q)
  {
    var n := |docs| - 1;
    assert docs == docs[..n] + [docs[n]];
    if exists d :: d in docs && PassesThrough(d, q) {
      var d :| d in docs && PassesThrough(d, q);
      if d != docs[n] {
        assert d in docs[..n];
      }
    }
  }

  /** Before sorting, a directory node exists exactly where some document's walk passed. */
  lemma {:induction false} GrowOpens(docs: seq<Doc>, q: seq<string>)
    requires q != []
    ensures ItemsAt(Grow(docs), q).Some? <==> exists d :: d in docs && PassesThrough(d, q)
  {
    if docs != [] {
      var n := |docs| - 1;
      GrowOpens(docs[..n], q);
      AddDocOpens(Grow(docs[..n]), docs[n], q);
      PassesThroughSplit(docs, q);
    }
  }

  /**
   * Below the root, the returned tree holds a directory node at `path`
   * exactly when some document with at least two segments has `path` as a
   * prefix of its directories: nodes are only created on a document's walk.
   */
  lemma DocTreeDirs(docs: seq<Doc>, le: (string, string) -> bool, path: seq<string>)
    requires path != []
    ensures ItemsIn(ProcessForest(Grow(docs).children, le), path).Some? <==>
      exists d :: d in docs && PassesThrough(d, path)
  {
    GrowShape(docs);
    GrowOpens(docs, path);
    ProcessKeepsItems(Grow(docs).children, path, le);
  }

  /** The documents kept in the returned tree: those with at least two segments. */
  function Nested(docs: seq<Doc>): (r: seq<Doc>)
    ensures forall d :: d in r <==> d in docs && |d.segments| >= 2
  {
    if docs == [] then []
    else
      var n := |docs| - 1;
      assert docs == docs[..n] + [docs[n]];
      if |docs[n].segments| >= 2 then Nested(docs[..n]) + [docs[n]] else Nested(docs[..n])
  }

  /** Below a node, a walk of at least one step depends only on the node's children. */
  lemma PlaceChildren(a: Dir, b: Dir, path: seq<string>, prefix: seq<string>, item: Item)
    requires a.children == b.children && path != []
    ensures Place(a, path, prefix, item).children == Place(b, path, prefix, item).children
  {
  }

  /** Documents with zero or one segments leave the root's children as they are. */
  lemma {:induction false} GrowIgnoresTopLevel(docs: seq<Doc>)
    ensures Grow(docs).children == Grow(Nested(docs)).children
  {
    if docs != [] {
      var n := |docs| - 1;
      var init, d := docs[..n], docs[n];
      GrowIgnoresTopLevel(init);
      var nd := Nested(docs);
      if |d.segments| >= 2 {
        assert nd == Nested(init) + [d];
        assert nd[..|nd| - 1] == Nested(init) && nd[|nd| - 1] == d;
        PlaceChildren(Grow(init), Grow(Nested(init)), d.segments[..|d.segments| - 1], [], ItemFor(d));
      } else {
        assert nd == Nested(init);
        assert d.segments != [] ==> d.segments[..|d.segments| - 1] == [];
      }
    }
  }

  // ---------------------------------------------------------------------
  // After processTree

  /** Every level is ordered by title, and so is every node's item list. */
  predicate SortedTree(ns: seq<Dir>, le: (string, string) -> bool) {
    && SortedBy(ns, DirTitle, le)
    && (forall i :: 0 <= i < |ns| ==> SortedBy(ns[i].items, ItemTitle, le) && SortedTree(ns[i].children, le))
  }

  /** Each processed node is the processed form of one of the input nodes. */
  lemma ProcessedFrom(ns: seq<Dir>, le: (string, string) -> bool, k: nat) returns (i: nat)
    requires k < |ProcessForest(ns, le)|
    ensures i < |ns| && ProcessForest(ns, le)[k] == ProcessNode(ns[i], le)
  {
    i := SortByFrom(ProcessEach(ns, le), DirTitle, le, k);
  }

  /** Each input node's processed form is among the processed nodes. */
  lemma ProcessedTo(ns: seq<Dir>, le: (string, string) -> bool, i: nat) returns (k: nat)
    requires i < |ns|
    ensures k < |ProcessForest(ns, le)| && ProcessForest(ns, le)[k] == ProcessNode(ns[i], le)
  {
    var e := ProcessEach(ns, le);
    var r := ProcessForest(ns, le);
    assert e[i] in multiset(e);
    assert e[i] in multiset(r);
    k :| 0 <= k < |r| && r[k] == e[i];
  }

  /** `processTree` sorts every level and every item list by title. */
  lemma {:induction false} ProcessSorted(ns: seq<Dir>, le: (string, string) -> bool)
    requires TotalPreorder(le)
    ensures SortedTree(ProcessForest(ns, le), le)
    decreases ns
  {
    var r := ProcessForest(ns, le);
    SortBySorted(ProcessEach(ns, le), DirTitle, le);
    forall k | 0 <= k < |r| ensures SortedBy(r[k].items, ItemTitle, le) && SortedTree(r[k].children, le) {
      var i := ProcessedFrom(ns, le, k);
      SortBySorted(ns[i].items, ItemTitle, le);
      ProcessSorted(ns[i].children, le);
    }
  }

  /** `processTree` keeps sibling slugs distinct. */
  lemma {:induction false} ProcessUnique(ns: seq<Dir>, le: (string, string) -> bool)
    requires UniqueSlugs(ns)
    ensures UniqueSlugs(ProcessForest(ns, le))
    decreases ns
  {
    var e := ProcessEach(ns, le);
    var r := ProcessForest(ns, le);
    var differ := (a: Dir, b: Dir) => a.slug != b.slug;
    assert Pairwise(e, differ) by {
      forall i, j | 0 <= i < |e| && 0 <= j < |e| && i != j ensures differ(e[i], e[j]) {
        if i < j {
          assert ns[i].slug != ns[j].slug;
        } else {
          assert ns[j].slug != ns[i].slug;
        }
      }
    }
    SortByPairwise(e, DirTitle, le, differ);
    forall i, j | 0 <= i < j < |r| ensures r[i].slug != r[j].slug {
      assert differ(r[i], r[j]);
    }
    forall k | 0 <= k < |r| ensures UniqueSlugs(r[k].children) {
      var i := ProcessedFrom(ns, le, k);
      ProcessUnique(ns[i].children, le);
    }
  }

  /** `processTree` keeps every node's title and link. */
  lemma {:induction false} ProcessLinked(ns: seq<Dir>, prefix: seq<string>, le: (string, string) -> bool)
    requires Linked(ns, prefix)
    ensures Linked(ProcessForest(ns, le), prefix)
    decreases ns
  {
    var r := ProcessForest(ns, le);
    forall k | 0 <= k < |r|
      ensures && r[k].title == r[k].slug
              && r[k].link == "/" + Join(prefix + [r[k].slug], '/')
              && Linked(r[k].children, prefix + [r[k].slug])
    {
      var i := ProcessedFrom(ns, le, k);
      assert ns[i].title == ns[i].slug && ns[i].link == "/" + Join(prefix + [ns[i].slug], '/');
      ProcessLinked(ns[i].children, prefix + [ns[i].slug], le);
      assert r[k].children == ProcessForest(ns[i].children, le);
    }
  }

  /** Sorting the nodes before processing them, as the source does, gives the same forest. */
  lemma ProcessSortsFirst(ns: seq<Dir>, le: (string, string) -> bool)
    ensures ProcessForest(ns, le) == ProcessEach(SortBy(ns, DirTitle, le), le)
  {
    var f := (n: Dir) => ProcessNode(n, le);
    assert ProcessEach(ns, le) == Apply(f, ns);
    assert ProcessEach(SortBy(ns, DirTitle, le), le) == Apply(f, SortBy(ns, DirTitle, le));
    SortByApply(f, ns, DirTitle, le);
  }

  /** Among siblings with distinct slugs, a slug names one position. */
  lemma SameSlugSamePos(ns: seq<Dir>, i: nat, j: nat)
    requires UniqueSlugs(ns) && i < |ns| && j < |ns|
    ensures ns[i].slug == ns[j].slug ==> i == j
  {
    if i < j {
      assert ns[i].slug != ns[j].slug;
    } else if j < i {
      assert ns[j].slug != ns[i].slug;
    }
  }

  /** With distinct slugs, the processed forest finds the processed form of the node the input finds. */
  lemma ProcessFinds(ns: seq<Dir>, slug: string, le: (string, string) -> bool)
    requires UniqueSlugs(ns)
    ensures FindSlug(ProcessForest(ns, le), slug).None? == FindSlug(ns, slug).None?
    ensures FindSlug(ns, slug).Some? ==>
      ProcessForest(ns, le)[FindSlug(ProcessForest(ns, le), slug).value] == ProcessNode(ns[FindSlug(ns, slug).value], le)
  {
    var r := ProcessForest(ns, le);
    match FindSlug(ns, slug)
    case None =>
      forall k | 0 <= k < |r| ensures r[k].slug != slug {
        var i := ProcessedFrom(ns, le, k);
      }
    case Some(c) =>
      var k := ProcessedTo(ns, le, c);
      assert r[k].slug == slug;
      var k0 := FindSlug(r, slug).value;
      var i0 := ProcessedFrom(ns, le, k0);
      SameSlugSamePos(ns, i0, c);
  }

  /** With distinct slugs, `processTree` leaves the same items at every path, reordered. */
  lemma {:induction false} ProcessKeepsItems(ns: seq<Dir>, q: seq<string>, le: (string, string) -> bool)
    requires q != [] && UniqueSlugs(ns)
    ensures ItemsIn(ProcessForest(ns, le), q).Some? == ItemsIn(ns, q).Some?
    ensures multiset(ItemsIn(ProcessForest(ns, le), q).GetOr([])) == multiset(ItemsIn(ns, q).GetOr([]))
    decreases |q|, 0
  {
    ProcessFinds(ns, q[0], le);
    match FindSlug(ns, q[0])
    case None =>
    case Some(c) =>
      ProcessNodeKeepsItems(ns[c], q[1..], le);
  }

  lemma {:induction false} ProcessNodeKeepsItems(n: Dir, q: seq<string>, le: (string, string) -> bool)
    requires UniqueSlugs(n.children)
    ensures ItemsAt(ProcessNode(n, le), q).Some? == ItemsAt(n, q).Some?
    ensures multiset(ItemsAt(ProcessNode(n, le), q).GetOr([])) == multiset(ItemsAt(n, q).GetOr([]))
    decreases |q|, 1
  {
    if q != [] {
      ProcessKeepsItems(n.children, q, le);
    }
  }

  /** The returned tree has distinct sibling slugs, position-derived links, and every level sorted by title. */
  lemma DocTreeShape(docs: seq<Doc>, le: (string, string) -> bool)
    requires TotalPreorder(le)
    ensures UniqueSlugs(ProcessForest(Grow(docs).children, le))
    ensures Linked(ProcessForest(Grow(docs).children, le), [])
    ensures SortedTree(ProcessForest(Grow(docs).children, le), le)
  {
    GrowShape(docs);
    ProcessUnique(Grow(docs).children, le);
    ProcessLinked(Grow(docs).children, [], le);
    ProcessSorted(Grow(docs).children, le);
  }

  /**
   * Below the root, the directory at `path` holds one item per document whose
   * segments other than the last are `path`, and nothing else.
   */
  lemma DocTreeItems(docs: seq<Doc>, le: (string, string) -> bool, path: seq<string>)
    requires path != []
    ensures multiset(ItemsIn(ProcessForest(Grow(docs).children, le), path).GetOr([])) == multiset(Under(docs, path))
  {
    GrowShape(docs);
    GrowItems(docs, path);
    ProcessKeepsItems(Grow(docs).children, path, le);
  }
}
