# Document-processing core of the Vue documentation blog, in Dafny

This project models the part of the blog that turns Markdown files into pages and navigation:

- `src/markdown/renderer.js`:
  - `slugify`, which turns heading text into an anchor id;
  - `parseFrontmatter`, which reads the leading `---` block;
  - the `highlight` callback that formats fenced code blocks;
  - the `callout` core rule, which turns `> [!NOTE]` blockquotes into callouts, and its two renderers;
  - `extractToc`.
- `src/docs/loader.js`:
  - the document index built once and cached (`loadAllDocs`);
  - route lookup (`getDocByRoute`);
  - directory listing (`getDocsInDir`);
  - the sidebar tree (`getDocTree` with `processTree`);
  - the link-to-content map (`getAllDocs`).

Modules, one per component:

| file | module | models |
|---|---|---|
| `Text.dfy` | `Text` | JavaScript string helpers: `trim`, `trimStart`, `trimEnd` on the ECMAScript whitespace set, `split`, `join`, `indexOf`, decimal printing |
| `Wrappers.dfy` | `Wrappers` | `Option`, for `null`, `undefined` and thrown exceptions |
| `Sorting.dfy` | `Sorting` | `Array.prototype.sort` with a `localeCompare` comparator, as an insertion sort, stable like the engine's |
| `Slug.dfy` | `Slug` | `slugify` |
| `Frontmatter.dfy` | `Frontmatter` | `parseFrontmatter` and its regular expression |
| `CodeBlock.dfy` | `CodeBlock` | the `highlight` callback |
| `Tokens.dfy` | `Tokens` | the token fields the core reads and writes |
| `Callout.dfy` | `Callout` | the `callout` rule, in place on an `array<Token>`, specified by `Pass` on sequences |
| `CalloutRender.dfy` | `CalloutRender` | the `callout_open` and `callout_close` renderers |
| `Toc.dfy` | `Toc` | `extractToc` and the `parseInt` it uses |
| `Routes.dfy` | `Routes` | link, segments, title, date and tags of one document; route and directory cleaning |
| `DocTree.dfy` | `DocTree` | `getDocTree` and `processTree` |
| `Loader.dfy` | `Loader` | the cached index (`class DocIndex`) and the queries over it |

Collaborators the core cannot see are parameters:

- Unicode lower-casing and the `\p{L}`/`\p{N}` categories are the `Slug.Unicode` record.
- The highlighter's `getLanguage` and `highlight` (with its exception) are `CodeBlock.Highlighter`.
- `decodeURIComponent` is a partial function `string -> Option<string>`. `None` is the `URIError`, after which the source keeps the raw text.
- `localeCompare` is a relation `le`, meaning "sorts no later than". Only the lemmas that need it assume it is a total preorder, and no code-point order is claimed.
- The bundler's `import.meta.glob` map is the sequence of (path, text) pairs given to `DocIndex`, in enumeration order.

Points where the code behaves otherwise than a quick reading suggests; the model follows the code:

- The document list is sorted by `localeCompare` (a parameter here), the host's locale collation, which can order links otherwise than comparing them code point by code point.
- The collapse threshold is the literal 40 in `renderer.js`, not a configurable setting.
- `title` falls back when `meta.title` is empty, not only when it is absent, because the code tests truthiness.
- The tree holds only documents with at least two segments. A one-segment document lands in the root's `items`, which `getDocTree` drops, so it is missing from the sidebar although it has a route.
- `getDocsInDir('/')` lists every document, because `/` is cleaned to the empty string rather than kept as a directory named `/`.
- The callout rule retags the first `blockquote_close` after the marker, not the close that matches the open. In `> > [!NOTE] x` the outer open becomes the callout while the inner close is the one retagged (`Callout.NestedQuoteRetagsInnerClose`).
- The callout regex `\s*\n?` removes all leading whitespace after the marker, newlines included, because the greedy `\s*` leaves nothing for `\n?`.

## Model

| member | source | states |
|---|---|---|
| `Slug.SlugifyShape` | src/markdown/renderer.js:14-17 | the slug has no whitespace or `_`; it holds only letters, numbers and `-`; it never has two hyphens in a row, and never a hyphen at either end |
| `Slug.SlugifyKeepsWords` | src/markdown/renderer.js:13-14 | the letters and numbers of the lower-cased input all survive, in order, so non-Latin text such as CJK is kept |
| `Slug.SlugifyCharsAreLowered` | src/markdown/renderer.js:12-18 | every slug character is `-` or a character that lower-casing produced |
| `Slug.SlugifyIdempotent` | src/markdown/renderer.js:11-19 | `slugify(slugify(s)) == slugify(s)` when lower-casing is idempotent and leaves `-` alone |
| `Slug.SlugifySeparatorRun` | src/markdown/renderer.js:15-17 | two slugs with any non-empty run of whitespace and `_` between them come out joined by exactly one `-` |
| `Slug.SlugifyDeletes` | src/markdown/renderer.js:13-14 | a character whose lower-case form is not a letter, number, whitespace, `_` or `-` is deleted without trace: the slug is that of the text without it |
| `Slug.SlugIsFixedPoint` | src/markdown/renderer.js:11-19 | a string already in slug shape that lower-casing leaves alone is its own slug |
| `Frontmatter.FindFrame` | src/markdown/renderer.js:185 | the regex matches exactly when the text has a frame: `---` at the start, whitespace, a newline, a block, `\n---`, whitespace, a newline; on a match the positions form such a frame |
| `Frontmatter.MatchBody` | src/markdown/renderer.js:185 | `"---\n" + block + "\n---\n" + rest` gives back `block`, and as content the `Body` of `rest`, for every `rest`, when the block's first line has a non-space character and the block holds no `\n---` |
| `Frontmatter.BodyShape` | src/markdown/renderer.js:185 | the content after the closing `---` is a suffix of the text; what the greedy `\s*\n` drops is whitespace ending in a newline, or nothing; and the content has no newline before its first non-space character |
| `Frontmatter.BodySkipsBlankLine` | src/markdown/renderer.js:185 | whitespace and a newline in front of the text are dropped from the content, however long the whitespace |
| `Frontmatter.MatchRoundTrip` | src/markdown/renderer.js:185 | the document gives back exactly `block` and `rest` when, in addition, `rest` has no newline before its first non-space character; a body starting with spaces or tabs on its first line is kept whole |
| `Frontmatter.MatchBlankLinesAfterFrame` | src/markdown/renderer.js:185 | blank lines after the closing `---` are not part of the content: `ws + "\n" + r` gives back `r` |
| `Frontmatter.ParseFrontmatter` | src/markdown/renderer.js:184-201 | no match gives an empty map and the raw text unchanged; a match gives the map folded from the block's lines and the text after the closing delimiter line |
| `Frontmatter.LineEntry` | src/markdown/renderer.js:191-192 | a line adds an entry exactly when it contains `:` |
| `Frontmatter.LineEntryKeyHasNoColon` | src/markdown/renderer.js:191-193 | the key is cut before the first `:`, so it never contains one |
| `Frontmatter.LineEntrySplitsAtFirstColon` | src/markdown/renderer.js:191-194 | `k:v` with no `:` in `k` gives the key `trim(k)` and the unquoted `trim(v)`, so later colons stay in the value |
| `Frontmatter.UnquoteOneLayer` | src/markdown/renderer.js:195-197 | a value wrapped in matching `"` or `'` loses exactly one layer of quotes |
| `Frontmatter.UnquoteKeepsUnquoted` | src/markdown/renderer.js:195-197 | a value not wrapped in matching quotes is kept as it is |
| `Frontmatter.FoldMetaKeys` | src/markdown/renderer.js:190-198 | a key is in the map exactly when it is not `__proto__` and some line of the block sets it, so lines without `:` add no key |
| `Frontmatter.FoldMetaLastWins` | src/markdown/renderer.js:198 | a repeated key other than `__proto__` keeps the value of its last line |
| `CodeBlock.Language` | src/markdown/renderer.js:32 | the language is `lang` when it is non-empty and the highlighter knows it, else `text` |
| `CodeBlock.HighlightedFallback` | src/markdown/renderer.js:36-45 | on the `text` path and when the highlighter throws, the code is exactly the escaped text, and it reads back unchanged |
| `CodeBlock.UnescapeEscape` | src/markdown/renderer.js:40 | HTML escaping loses nothing: unescaping gives the code back |
| `CodeBlock.EscapeHtmlIsInert` | src/markdown/renderer.js:40 | escaped code holds no `<`, `>` or `"` |
| `CodeBlock.LineCount` | src/markdown/renderer.js:49-50 | the line count is one more than the number of `\n` left after trailing whitespace is trimmed |
| `CodeBlock.LineCountIgnoresTrailingSpace` | src/markdown/renderer.js:49 | trailing whitespace, blank lines included, adds no line |
| `CodeBlock.ReadWrapperFormat` | src/markdown/renderer.js:49-54 | the fragment opens with the wrapper tag; its `data-lines` reads back as the line count, and it has class `collapsed` exactly when that count is greater than 40 |
| `CodeBlock.OverlayIffCollapsed` | src/markdown/renderer.js:58-68 | the fragment ends with the expand overlay exactly when the count is greater than 40 |
| `Callout.MatchMarker` | src/markdown/renderer.js:132 | a match has one of the six tags whose marker starts the content; the rest is the text after the marker without its leading whitespace |
| `Callout.MatchMarkerNone` | src/markdown/renderer.js:132-133 | the regex fails exactly when no tag's marker starts the content, case-sensitively |
| `Callout.MatchMarkerKeepsRest` | src/markdown/renderer.js:132-136 | marker, whitespace, then text: the marker and the whitespace are removed and the text is kept |
| `Callout.MetaForTags` | src/markdown/renderer.js:135-149 | each tag gives its lower-cased name as `type` and its icon from the table |
| `Callout.FindInline` | src/markdown/renderer.js:119-126 | the result is the first inline token after the open, with no `blockquote_close` before it |
| `Callout.FindClose` | src/markdown/renderer.js:155-160 | the result is a `blockquote_close` at or after the start |
| `Callout.PassAllowed` | src/markdown/renderer.js:114-161 | the pass keeps the token count. An open can only become a callout open carrying one of the six metadata values, an inline token can only keep a suffix of its content, and a close can only become a callout close. Every other token is untouched |
| `Callout.StepMatched` | src/markdown/renderer.js:116-160 | a marked blockquote: its open becomes a callout with the tag's metadata, its first inline token loses the marker and keeps the rest, and the first later close becomes `callout_close`; no other token changes |
| `Callout.StepMatchedUnclosed` | src/markdown/renderer.js:148-160 | with no later close, only the open and the inline token change |
| `Callout.StepUnmarked` | src/markdown/renderer.js:130-133 | a blockquote whose first inline token has no marker is left as it is |
| `Callout.StepNoInline` | src/markdown/renderer.js:119-128 | a blockquote that closes before any inline token is left as it is |
| `Callout.RunSkips` | src/markdown/renderer.js:116-117 | with no blockquote open left, the rest of the pass changes nothing |
| `Callout.NestedQuoteRetagsInnerClose` | src/markdown/renderer.js:119-160 | in `> > [!NOTE] x` the outer open becomes the callout and the inner close is retagged, while the outer close stays a `blockquote_close` |
| `Callout.FirstInline` | src/markdown/renderer.js:119-126 | the inner loop returns the index `FindInline` gives, or -1 exactly when there is none |
| `Callout.CloseCallout` | src/markdown/renderer.js:155-160 | the array afterwards is the old one with its first `blockquote_close` from the start retagged |
| `Callout.ConvertBlockquote` | src/markdown/renderer.js:130-160 | the array afterwards is `Convert` of the old one |
| `Callout.CalloutAt` | src/markdown/renderer.js:117-160 | one turn of the outer loop leaves the array as `Step` of the old one |
| `Callout.CalloutPass` | src/markdown/renderer.js:114-162 | the rule in place leaves the array as `Pass` of the old one |
| `CalloutRender.RenderOpenFrame` | src/markdown/renderer.js:164-174 | the open tag is the type and the icon name framed by fixed text with no whitespace between the tags |
| `CalloutRender.ReadRenderOpen` | src/markdown/renderer.js:164-174 | a type without `"` and an icon without `<` are read back from the rendered open tag |
| `CalloutRender.ReadRenderMetas` | src/markdown/renderer.js:164-174 | every metadata value the rule attaches reads back from its open tag |
| `Toc.LevelOfTag` | src/markdown/renderer.js:208 | `parseInt` of the tag `hN` without its first character gives the level N |
| `Toc.ParseIntNat` | src/markdown/renderer.js:208 | `parseInt` reads back a printed natural number |
| `Toc.HeadingAt` | src/markdown/renderer.js:207-214 | one turn of the loop adds the entry `EntryAt` gives |
| `Toc.ExtractToc` | src/markdown/renderer.js:203-218 | the loop returns the table `TocOf` of all tokens |
| `Toc.TocListsHeading` | src/markdown/renderer.js:206-215 | every `heading_open` of level 2 or 3 with a non-empty id is in the table, after the entries of the headings before it. Its slug is the id and its text is the next token's content |
| `Toc.TocEntriesListed` | src/markdown/renderer.js:206-215 | every entry comes from such a heading, with its level, the next token's text and its id |
| `Toc.TocEntryBounds` | src/markdown/renderer.js:209-213 | every entry has level 2 or 3 and a non-empty slug |
| `Routes.LinkOf` | src/docs/loader.js:35-51 | every link starts with `/` |
| `Routes.LinkOfPage` | src/docs/loader.js:37-51 | the file `/docs<rel>.md` gets the link `rel` |
| `Routes.LinkOfIndex` | src/docs/loader.js:37-51 | `/docs<dir>/index.md` gets the link `dir`, or `/` for the top directory |
| `Routes.LinkExamples` | src/docs/loader.js:47-51 | `/docs/guide/index.md` gives `/guide` and `/docs/index.md` gives `/` |
| `Routes.Segments` | src/docs/loader.js:53 | segments are non-empty and contain no `/` |
| `Routes.RootHasNoSegments` | src/docs/loader.js:53 | the link `/` has no segments |
| `Routes.SegmentsOfJoin` | src/docs/loader.js:53 | splitting `'/' + segs.join('/')` gives `segs` back |
| `Routes.Title` | src/docs/loader.js:53-57 | the title is `meta.title` when that is non-empty, else the last segment, else `Home`; it is never empty |
| `Routes.Field` | src/docs/loader.js:66-67 | `date` and `tags` are set exactly when the key is present with a non-empty value, and then they hold that value |
| `Routes.MakeDoc` | src/docs/loader.js:29-68 | each record has a link starting with `/`, a non-empty title, and segments that are non-empty and free of `/` |
| `Routes.CleanRouteTrailingSlash` | src/docs/loader.js:85 | a route with one trailing `/` is looked up as the route without it, and `/` itself is kept |
| `Sorting.SortBy` | src/docs/loader.js:72 | the sort is a permutation of its input |
| `Sorting.SortBySorted` | src/docs/loader.js:72 | the sort's result is ordered under a total preorder |
| `Sorting.SortByStable` | src/docs/loader.js:72 | the sort is stable: for every key, the elements tied with it keep their input order |
| `Loader.ScanDocs` | src/docs/loader.js:26-69 | one record per file, in enumeration order, each built from its path and text |
| `Loader.LoadedDocsSorted` | src/docs/loader.js:72 | the loaded list is sorted by link and is a permutation of the scanned records |
| `Loader.FindLink` | src/docs/loader.js:91 | the result is the first position with the link, and there is none exactly when no document has it |
| `Loader.FindContent` | src/docs/loader.js:91-92 | the loop returns the first match's content, or `null` |
| `Loader.InDir` | src/docs/loader.js:102 | a document is listed exactly when it is in the list and its link starts with `dir + '/'` |
| `Loader.InDirAppend` | src/docs/loader.js:102 | the listing keeps list order: listing `a + b` lists `a`, then `b` |
| `Loader.FilterDir` | src/docs/loader.js:102 | the loop returns `InDir` |
| `Loader.InDirExcludesSelf` | src/docs/loader.js:102 | a document whose link is the directory itself is not listed |
| `Loader.InRootIsAll` | src/docs/loader.js:102 | the empty directory lists every document whose link starts with `/`, in list order |
| `Loader.RootListingIsAll` | src/docs/loader.js:95-102 | `getDocsInDir('/')` cleans to the empty directory, when decoding the empty text gives it back or fails, and lists every document in list order |
| `Loader.FillLinkMap` | src/docs/loader.js:199-203 | the loop returns `LinkMap` |
| `Loader.LinkMapKeys` | src/docs/loader.js:199-203 | the map's keys are exactly the documents' links |
| `Loader.LinkMapLastWins` | src/docs/loader.js:201 | of documents sharing a link, the map keeps the last one's content |
| `Loader.DocIndex.constructor` | src/docs/loader.js:10 | the cache starts empty |
| `Loader.DocIndex.LoadAllDocs` | src/docs/loader.js:23-74 | the result is the sorted scan, and it is stored in the cache; a filled cache, even an empty list, is returned without a rescan |
| `Loader.DocIndex.GetFlatDocs` | src/docs/loader.js:78-80 | the flat list is the loaded list, and the cache holds it afterwards |
| `Loader.DocIndex.GetDocByRoute` | src/docs/loader.js:82-93 | the result is the content of the first document on the cleaned route, or `null`; the cache holds the loaded list afterwards |
| `Loader.DocIndex.GetDocsInDir` | src/docs/loader.js:95-103 | the result lists the loaded documents below the cleaned directory, in list order; the cache holds the loaded list afterwards |
| `Loader.DocIndex.GetDocTree` | src/docs/loader.js:117-196 | the result is the processed tree of the loaded list; the cache holds the loaded list afterwards |
| `Loader.DocIndex.GetAllDocs` | src/docs/loader.js:198-204 | the result is the link-to-content map of the loaded list; the cache holds the loaded list afterwards |
| `DocTree.FindSlug` | src/docs/loader.js:141-143 | the result is the first child with the slug, and there is none exactly when no child has it |
| `DocTree.Place` | src/docs/loader.js:133-171 | the cursor walk keeps the node's title, slug and link |
| `DocTree.GetDocTree` | src/docs/loader.js:117-196 | the loop builds `Grow` of the list, and its children are then processed |
| `DocTree.PlaceUnique` | src/docs/loader.js:140-159 | placing a document keeps sibling slugs distinct at every level |
| `DocTree.PlaceLinked` | src/docs/loader.js:146-158 | placing a document keeps every node titled by its slug and linked to `'/'` joined with its ancestors' slugs |
| `DocTree.GrowShape` | src/docs/loader.js:123-172 | the built tree has distinct sibling slugs and position-derived links |
| `DocTree.PlaceItemsHere` | src/docs/loader.js:165-171 | the placed item is appended to the items at its own directory path |
| `DocTree.PlaceItemsElsewhere` | src/docs/loader.js:137-171 | the items at any other path do not change |
| `DocTree.GrowItems` | src/docs/loader.js:123-172 | before sorting, the items at every path are exactly the documents filed there, in order |
| `DocTree.Nested` | src/docs/loader.js:128-137 | the kept documents are exactly those with at least two segments |
| `DocTree.GrowIgnoresTopLevel` | src/docs/loader.js:128-130 | documents with zero or one segments leave the published children unchanged |
| `DocTree.ProcessSorted` | src/docs/loader.js:175-190 | after processing, every level and every node's items are sorted by title, recursively |
| `DocTree.ProcessUnique` | src/docs/loader.js:175-190 | processing keeps sibling slugs distinct |
| `DocTree.ProcessLinked` | src/docs/loader.js:175-190 | processing keeps every node's title and link |
| `DocTree.ProcessKeepsItems` | src/docs/loader.js:175-190 | with distinct slugs, processing keeps the same items at every path, reordered |
| `DocTree.ProcessSortsFirst` | src/docs/loader.js:177-182 | sorting the nodes before processing each, as the source does, gives the same forest |
| `DocTree.DocTreeShape` | src/docs/loader.js:117-196 | the returned tree has distinct sibling slugs, position-derived links, and every level sorted by title |
| `DocTree.DocTreeItems` | src/docs/loader.js:123-195 | the directory at a non-empty path holds one item per document filed under it, and nothing else |
| `DocTree.DocTreeDirs` | src/docs/loader.js:133-159 | a directory node exists at a non-empty path exactly when some document with at least two segments has that path as a prefix of its directories |

## Left out

- The MarkdownIt base parser, `markdown-it-anchor`, the task-list and footnote plugins are not modelled; the token array they produce is the input of the callout rule and of `extractToc`.
- `hljs.getLanguage` and `hljs.highlight` are parameters; `console.warn` on a highlighter failure is not modelled.
- Unicode lower-casing, `\p{L}` and `\p{N}` are parameters. Lower-casing is per character, so the multi-character expansion of U+0130 and the context-dependent final sigma are not modelled.
- `window.copyCode` and `window.toggleCode` are DOM and clipboard code in the browser.
- `callout_close` is the constant `CalloutRender.CloseHtml`; nothing is proved about it beyond its text.
- DocTree.GetDocTree: the tree is a value. The cursor that walks into shared `children` arrays and pushes onto them is the recursive `DocTree.Place`, which rebuilds the path it walks. Aliasing of nodes and the `collapsible` and `icon` constants beyond their values are not modelled.
- Sorting.SortBy: the engine's sort is replaced by an insertion sort, stable as the engine's is (`Sorting.SortByStable`). The source's result under a comparator that is not a total preorder is not captured.
- Loader.DocIndex: the module-level `_cachedDocs` is a field of an object, and the files found by the bundler are fixed when it is built. No invalidation exists in the source, so none is modelled.
- Loader.DocIndex.GetAllDocs: `getAllDocs` returns a JS `Map`, whose keys iterate in first-insertion order; `Loader.LinkMap` is a Dafny `map`, which has no order, so that iteration order is not modelled.
- Loader.DocIndex.GetFlatDocs: `getFlatDocs` returns the cached array itself, so a caller that mutates the result mutates `_cachedDocs`; the model returns the list as a value, so that aliasing is not modelled.
- `formatName` is the identity and is inlined.
- Frontmatter.MatchBody: not stated for a block that is empty or whose first line is blank, where the opening `\s*` can reach into the block; `FindFrame` and `ParseFrontmatter` still model such texts.
- Frontmatter.ParseFrontmatter: a line with the key `__proto__` adds no key: the prototype setter ignores a string value, so nothing changes. The model skips that key (`Frontmatter.Assign`), and nothing about it is left unmodelled.
- `blog/js/app.js`, `script/03create_project.py`, `src/router/index.js`, `src/main.js` and `src/config.js` are not part of this model: they are the UI shell, build scripting and application wiring.
