/**
 * `parseFrontmatter`: a leading block delimited by `---` lines becomes a
 * string-to-string map, and the text after the closing delimiter line is the
 * body. The guard is the regular expression
 *   ^---\s*\n([\s\S]*?)\n---\s*\n([\s\S]*)
 * modelled below as the backtracking search a regex engine performs.
 */
module Frontmatter {
  import opened Text
  import opened Wrappers

  /** The two capture groups of a successful match. */
  datatype Sections = Sections(block: string, rest: string)

  /** The result of `parseFrontmatter`. */
  datatype Parsed = Parsed(meta: map<string, string>, content: string)

  /** Positions of a match: the opening newline p, the closing "\n---" at q, its final newline t. */
  datatype Cut = Cut(p: nat, q: nat, t: nat)

  /** s[i..j] is whitespace. */
  ghost predicate SpaceBetween(s: string, i: nat, j: nat) {
    forall k :: i <= k < j && k < |s| ==> IsSpace(s[k])
  }

  /** End of the run of whitespace that starts at `i` (what a greedy `\s*` first consumes). */
  function SpaceRunEnd(s: string, i: nat): (j: nat)
    requires i <= |s|
    ensures i <= j <= |s| && SpaceBetween(s, i, j)
    ensures j == |s| || !IsSpace(s[j])
    decreases |s| - i
  {
    if i < |s| && IsSpace(s[i]) then SpaceRunEnd(s, i + 1) else i
  }

  lemma {:induction false} SpaceRunEndCovers(s: string, i: nat, k: nat)
    requires i <= k <= |s| && SpaceBetween(s, i, k)
    ensures k <= SpaceRunEnd(s, i)
    decreases |s| - i
  {
    if i < k {
      SpaceRunEndCovers(s, i + 1, k);
    }
  }

  /** Backtracking a greedy `\s*` into `\n`: the last '\n' in s[lo..hi]. */
  function LastNewline(s: string, lo: nat, hi: nat): (r: Option<nat>)
    requires lo <= hi <= |s|
    ensures r.Some? ==> lo <= r.value < hi && s[r.value] == '\n'
    ensures r.Some? ==> forall t :: r.value < t < hi ==> s[t] != '\n'
    ensures r.None? <==> forall t :: lo <= t < hi ==> s[t] != '\n'
    decreases hi - lo
  {
    if hi <= lo then None
    else if s[hi - 1] == '\n' then Some(hi - 1)
    else LastNewline(s, lo, hi - 1)
  }

  /** `\n---\s*\n` occupies s[q..t+1]. */
  ghost predicate ClosesAt(s: string, q: nat, t: nat) {
    q + 4 <= t < |s| && s[q..q + 4] == "\n---" && SpaceBetween(s, q + 4, t) && s[t] == '\n'
  }

  /** The closing delimiter, if one starts at `q`: the position of its final newline. */
  function CloseAt(s: string, q: nat): (r: Option<nat>)
    requires q <= |s|
    ensures r.Some? ==> ClosesAt(s, q, r.value)
    ensures r.None? ==> forall t :: !ClosesAt(s, q, t)
  {
    if q + 4 <= |s| && s[q..q + 4] == "\n---" then
      var e := SpaceRunEnd(s, q + 4);
      forall t: nat | ClosesAt(s, q, t) ensures t < e {
        SpaceRunEndCovers(s, q + 4, t + 1);
      }
      LastNewline(s, q + 4, e)
    else None
  }

  /** The lazy group `([\s\S]*?)`, trying the ends q, q+1, ... in turn. */
  function LazyBlock(s: string, q: nat): (r: Option<(nat, nat)>)
    requires q <= |s|
    ensures r.Some? ==> q <= r.value.0 && ClosesAt(s, r.value.0, r.value.1)
    decreases |s| - q
  {
    match CloseAt(s, q)
    case Some(t) => Some((q, t))
    case None => if q < |s| then LazyBlock(s, q + 1) else None
  }

  /**
   * The whole frontmatter frame by positions: "---" at 0, whitespace up to the
   * newline at p, the block s[p+1..q], then "\n---", whitespace, and the
   * newline at t after which the body begins.
   */
  ghost predicate Frame(s: string, p: nat, q: nat, t: nat) {
    && 3 <= |s| && s[..3] == "---"
    && 3 <= p < |s| && SpaceBetween(s, 3, p) && s[p] == '\n'
    && p + 1 <= q && ClosesAt(s, q, t)
  }

  /** Backtracking the opening `\s*` into `\n`: newline positions p = hi-1, hi-2, ..., 3 in turn. */
  function OpenBefore(s: string, hi: nat): (r: Option<Cut>)
    requires 3 <= |s| && s[..3] == "---"
    requires 3 <= hi <= |s| && SpaceBetween(s, 3, hi)
    ensures r.Some? ==> Frame(s, r.value.p, r.value.q, r.value.t)
    decreases hi
  {
    if hi == 3 then None
    else if s[hi - 1] == '\n' then
      match LazyBlock(s, hi)
      case Some((q, t)) => Some(Cut(hi - 1, q, t))
      case None => OpenBefore(s, hi - 1)
    else OpenBefore(s, hi - 1)
  }

  /**
   * The positions the regex engine settles on: a result exactly when the text
   * has a frontmatter frame, and then a frame.
   */
  function FindFrame(s: string): (r: Option<Cut>)
    ensures r.Some? ==> Frame(s, r.value.p, r.value.q, r.value.t)
    ensures r.None? ==> forall p, q, t :: !Frame(s, p, q, t)
  {
    if |s| >= 3 && s[..3] == "---" then
      var r := OpenBefore(s, SpaceRunEnd(s, 3));
      forall p: nat, q: nat, t: nat | Frame(s, p, q, t) ensures r.Some? {
        SpaceRunEndCovers(s, 3, p + 1);
        LazyBlockFindsClose(s, p + 1, q, t);
        OpenBeforeFinds(s, SpaceRunEnd(s, 3), p);
      }
      r
    else None
  }

  /** `raw.match(/^---\s*\n([\s\S]*?)\n---\s*\n([\s\S]*)/)`, as its two groups. */
  function Match(s: string): Option<Sections> {
    match FindFrame(s)
    case None => None
    case Some(c) => Some(Sections(s[c.p + 1..c.q], s[c.t + 1..]))
  }

  lemma {:induction false} LazyBlockFindsClose(s: string, q0: nat, q: nat, t: nat)
    requires q0 <= q && ClosesAt(s, q, t)
    ensures LazyBlock(s, q0).Some?
    decreases q - q0
  {
    if q0 < q && CloseAt(s, q0).None? {
      LazyBlockFindsClose(s, q0 + 1, q, t);
    }
  }

  lemma {:induction false} OpenBeforeFinds(s: string, hi: nat, p: nat)
    requires 3 <= |s| && s[..3] == "---"
    requires 3 <= p < hi <= |s| && SpaceBetween(s, 3, hi) && s[p] == '\n'
    requires LazyBlock(s, p + 1).Some?
    ensures OpenBefore(s, hi).Some?
    decreases hi
  {
    if hi - 1 != p && !(s[hi - 1] == '\n' && LazyBlock(s, hi).Some?) {
      OpenBeforeFinds(s, hi - 1, p);
    }
  }

  /** Nothing in `block` looks like the closing delimiter "\n---". */
  predicate NoDelimiterIn(block: string) {
    forall k :: 0 <= k < |block| - 3 ==> !(block[k] == '\n' && block[k + 1] == '-' && block[k + 2] == '-' && block[k + 3] == '-')
  }

  /** Where the lazy group meets no delimiter, it moves on. */
  lemma {:induction false} LazyBlockSkips(s: string, q: nat, q': nat)
    requires q <= q' <= |s|
    requires forall k :: q <= k < q' ==> CloseAt(s, k).None?
    ensures LazyBlock(s, q) == LazyBlock(s, q')
    decreases q' - q
  {
    if q < q' {
      LazyBlockSkips(s, q + 1, q');
    }
  }

  /** In the composed document no "\n---" starts inside the block. */
  lemma NoDelimiterInsideBlock(block: string, rest: string, k: nat)
    requires NoDelimiterIn(block)
    requires 4 <= k < 4 + |block|
    ensures var s := "---\n" + block + "\n---\n" + rest;
      !(k + 4 <= |s| && s[k..k + 4] == "\n---")
  {
    var s := "---\n" + block + "\n---\n" + rest;
    var n := |block|;
    if k + 4 <= |s| {
      if k + 4 <= 4 + n {
        assert s[k..k + 4] == block[k - 4..k];
        assert !(block[k - 4] == '\n' && block[k - 3] == '-' && block[k - 2] == '-' && block[k - 1] == '-');
      } else {
        assert s[k..k + 4][4 + n - k] == s[4 + n] == '\n';
      }
    }
  }

  /** In the composed document the closing delimiter cannot start inside the block. */
  lemma NoCloseInsideBlock(block: string, rest: string, k: nat)
    requires NoDelimiterIn(block)
    requires 4 <= k < 4 + |block|
    ensures CloseAt("---\n" + block + "\n---\n" + rest, k).None?
  {
    NoDelimiterInsideBlock(block, rest, k);
  }

  /** A whitespace run read from a later start inside it ends where it did. */
  lemma {:induction false} SpaceRunEndFrom(s: string, i: nat, k: nat)
    requires i <= |s| && i <= k <= SpaceRunEnd(s, i)
    ensures SpaceRunEnd(s, k) == SpaceRunEnd(s, i)
    decreases k - i
  {
    if i < k {
      SpaceRunEndFrom(s, i + 1, k);
    }
  }

  /** A whitespace run read in a suffix of the text is the same run, shifted. */
  lemma {:induction false} SpaceRunEndSuffix(s: string, off: nat, i: nat)
    requires off + i <= |s|
    ensures SpaceRunEnd(s, off + i) == off + SpaceRunEnd(s[off..], i)
    decreases |s| - off - i
  {
    if off + i < |s| {
      assert s[off..][i] == s[off + i];
      if IsSpace(s[off + i]) {
        SpaceRunEndSuffix(s, off, i + 1);
      }
    }
  }

  /** A whitespace run that ends inside a prefix of the text is the same run in the whole text. */
  lemma {:induction false} SpaceRunEndPrefix(s: string, m: nat, i: nat)
    requires i <= m <= |s| && SpaceRunEnd(s[..m], i) < m
    ensures SpaceRunEnd(s, i) == SpaceRunEnd(s[..m], i)
    decreases m - i
  {
    assert s[..m][i] == s[i];
    if IsSpace(s[i]) {
      SpaceRunEndPrefix(s, m, i + 1);
    }
  }

  /** The last newline of a range read in a suffix of the text is the same newline, shifted. */
  lemma {:induction false} LastNewlineSuffix(s: string, off: nat, lo: nat, hi: nat)
    requires lo <= hi && off + hi <= |s|
    ensures LastNewline(s, off + lo, off + hi).None? == LastNewline(s[off..], lo, hi).None?
    ensures LastNewline(s[off..], lo, hi).Some? ==>
      LastNewline(s, off + lo, off + hi) == Some(off + LastNewline(s[off..], lo, hi).value)
    decreases hi - lo
  {
    if lo < hi {
      assert s[off..][hi - 1] == s[off + hi - 1];
      LastNewlineSuffix(s, off, lo, hi - 1);
    }
  }

  /** `LastNewlineSuffix` for a suffix given by name. */
  lemma LastNewlineIn(s: string, off: nat, t: string, lo: nat, hi: nat)
    requires off <= |s| && s[off..] == t && lo <= hi <= |t|
    ensures LastNewline(s, off + lo, off + hi).None? == LastNewline(t, lo, hi).None?
    ensures LastNewline(t, lo, hi).Some? ==> LastNewline(s, off + lo, off + hi) == Some(off + LastNewline(t, lo, hi).value)
  {
    LastNewlineSuffix(s, off, lo, hi);
  }

  /** The last newline of a range is the last of its upper part, or else the last of its lower part. */
  lemma {:induction false} LastNewlineSplit(s: string, lo: nat, m: nat, hi: nat)
    requires lo <= m <= hi <= |s|
    ensures LastNewline(s, lo, hi) == if LastNewline(s, m, hi).Some? then LastNewline(s, m, hi) else LastNewline(s, lo, m)
    decreases hi - m
  {
    if m < hi && s[hi - 1] != '\n' {
      LastNewlineSplit(s, lo, m, hi - 1);
    }
  }

  /** The whitespace run that starts `s` holds no newline. */
  predicate NoBlankLineAhead(s: string) {
    '\n' !in s[..SpaceRunEnd(s, 0)]
  }

  /**
   * The block's first line has a non-space character, so the opening `\s*`
   * stops on that line and cannot reach into a later one.
   */
  predicate OpensCleanly(block: string) {
    SpaceRunEnd(block, 0) < |block| && NoBlankLineAhead(block)
  }

  /**
   * The body that follows the closing `---`. The greedy `\s*\n` takes the
   * leading whitespace of the text up to and including the last newline it
   * holds before the first non-space character.
   */
  function Body(rest: string): string {
    match LastNewline(rest, 0, SpaceRunEnd(rest, 0))
    case None => rest
    case Some(j) => rest[j + 1..]
  }

  /**
   * The body is a suffix of the text, what is dropped is whitespace ending in
   * a newline, and no blank line is left ahead of the body's first character.
   */
  lemma BodyShape(rest: string)
    ensures var body := Body(rest);
      && |body| <= |rest| && body == rest[|rest| - |body|..]
      && AllSpace(rest[..|rest| - |body|])
      && (body == rest || rest[|rest| - |body| - 1] == '\n')
      && NoBlankLineAhead(body)
  {
    var e := SpaceRunEnd(rest, 0);
    match LastNewline(rest, 0, e)
    case None =>
      assert rest[..e] == rest[..SpaceRunEnd(rest, 0)];
    case Some(j) =>
      BodyAfterNewline(rest, j);
  }

  /** Cutting after the last newline of the leading whitespace run leaves no newline ahead. */
  lemma BodyAfterNewline(rest: string, j: nat)
    requires LastNewline(rest, 0, SpaceRunEnd(rest, 0)) == Some(j)
    ensures AllSpace(rest[..j + 1])
    ensures NoBlankLineAhead(rest[j + 1..])
  {
    var e := SpaceRunEnd(rest, 0);
    var b := rest[j + 1..];
    forall k | 0 <= k < j + 1 ensures rest[..j + 1][k] == rest[k] {
    }
    SpaceRunEndFrom(rest, 0, j + 1);
    SpaceRunEndSuffix(rest, j + 1, 0);
    forall k | 0 <= k < SpaceRunEnd(b, 0) ensures b[k] != '\n' {
      assert b[k] == rest[j + 1 + k];
    }
  }

  /** A body with no blank line ahead is kept whole. */
  lemma BodyKeeps(rest: string)
    requires NoBlankLineAhead(rest)
    ensures Body(rest) == rest
  {
    var e := SpaceRunEnd(rest, 0);
    forall k | 0 <= k < e ensures rest[k] != '\n' {
      assert rest[..e][k] == rest[k];
    }
  }

  /** Blank space ending in a newline before the body is dropped, however much of it there is. */
  lemma BodySkipsBlankLine(ws: string, r: string)
    requires AllSpace(ws)
    ensures Body(ws + "\n" + r) == Body(r)
  {
    var x := ws + "\n" + r;
    var m := |ws|;
    assert x[m] == '\n' && x[m + 1..] == r;
    forall k | 0 <= k < m ensures x[k] == ws[k] {
    }
    RunThroughNewline(x, m);
    BodyAfterSpace(x, m);
  }

  /** A text whose whitespace run goes through the newline at `m` has the body of what follows it. */
  lemma BodyAfterSpace(x: string, m: nat)
    requires m < |x| && x[m] == '\n' && SpaceRunEnd(x, 0) == m + 1 + SpaceRunEnd(x[m + 1..], 0)
    ensures Body(x) == Body(x[m + 1..])
  {
    var r := x[m + 1..];
    var er := SpaceRunEnd(r, 0);
    LastNewlineThrough(x, m, er);
    match LastNewline(r, 0, er)
    case None =>
      BodyCut(x, m);
      BodyWhole(r);
    case Some(j) =>
      BodyCut(x, m + 1 + j);
      BodyCut(r, j);
      assert x[m + 1 + j + 1..] == r[j + 1..];
  }

  /** The body after the newline at `j`. */
  lemma BodyCut(x: string, j: nat)
    requires LastNewline(x, 0, SpaceRunEnd(x, 0)) == Some(j)
    ensures Body(x) == x[j + 1..]
  {
  }

  /** The whole text, when its whitespace run holds no newline. */
  lemma BodyWhole(x: string)
    requires LastNewline(x, 0, SpaceRunEnd(x, 0)).None?
    ensures Body(x) == x
  {
  }

  /** The whitespace run of such a text runs through the newline into what follows. */
  lemma RunThroughNewline(x: string, m: nat)
    requires m < |x| && x[m] == '\n' && forall k :: 0 <= k < m ==> IsSpace(x[k])
    ensures SpaceRunEnd(x, 0) == m + 1 + SpaceRunEnd(x[m + 1..], 0)
  {
    SpaceRunEndCovers(x, 0, m + 1);
    SpaceRunEndFrom(x, 0, m + 1);
    SpaceRunEndSuffix(x, m + 1, 0);
  }

  /** The last newline up to `m + 1 + er` is the last one after `m`, or `m` itself. */
  lemma LastNewlineThrough(x: string, m: nat, er: nat)
    requires m < |x| && x[m] == '\n' && m + 1 + er <= |x|
    ensures LastNewline(x[m + 1..], 0, er).None? ==> LastNewline(x, 0, m + 1 + er) == Some(m)
    ensures LastNewline(x[m + 1..], 0, er).Some? ==>
      LastNewline(x, 0, m + 1 + er) == Some(m + 1 + LastNewline(x[m + 1..], 0, er).value)
  {
    LastNewlineSplit(x, 0, m + 1, m + 1 + er);
    LastNewlineSuffix(x, m + 1, 0, er);
    assert LastNewline(x, 0, m + 1) == Some(m);
  }

  /** The frontmatter document with the block `block` and the body `rest`. */
  function Document(block: string, rest: string): string {
    "---\n" + block + "\n---\n" + rest
  }

  /** Where the pieces of the document lie. */
  lemma DocumentLayout(block: string, rest: string)
    ensures var s, q := Document(block, rest), 4 + |block|;
      && |s| == q + 5 + |rest|
      && s[..3] == "---" && s[3] == '\n'
      && s[4..][..|block|] == block && s[4..q] == block
      && s[q..q + 4] == "\n---" && s[q + 4] == '\n' && s[q + 5..] == rest
  {
  }

  /**
   * The opening `---\s*\n`: in a document whose block opens cleanly, the only
   * newline the greedy `\s*` can give back is the one right after `---`.
   */
  lemma OpenStep(s: string, block: string)
    requires 4 + |block| <= |s| && s[..3] == "---" && s[3] == '\n' && s[4..][..|block|] == block
    requires OpensCleanly(block)
    ensures SpaceRunEnd(s, 3) == 4 + SpaceRunEnd(block, 0)
    ensures OpenBefore(s, SpaceRunEnd(s, 3)) == OpenBefore(s, 4)
  {
    var n := |block|;
    var eb := SpaceRunEnd(block, 0);
    SpaceRunEndSuffix(s, 4, 0);
    SpaceRunEndPrefix(s[4..], n, 0);
    forall k | 4 <= k < 4 + eb ensures s[k] != '\n' {
      assert s[k] == s[4..][..n][k - 4] == block[k - 4] == block[..eb][k - 4];
    }
    OpenBeforeSkips(s, 4, 4 + eb);
  }

  /** Where the text between `lo` and `hi` has no newline, the opening search moves down to `lo`. */
  lemma {:induction false} OpenBeforeSkips(s: string, lo: nat, hi: nat)
    requires 3 <= |s| && s[..3] == "---"
    requires 3 <= lo <= hi <= |s| && SpaceBetween(s, 3, hi)
    requires forall k :: lo <= k < hi ==> s[k] != '\n'
    ensures OpenBefore(s, hi) == OpenBefore(s, lo)
    decreases hi - lo
  {
    if lo < hi {
      OpenBeforeSkips(s, lo, hi - 1);
    }
  }

  /**
   * The closing `\n---\s*\n`: the greedy `\s*` takes the newline and the
   * leading whitespace of the body, and gives back down to its last newline.
   */
  lemma CloseStep(s: string, q: nat, rest: string)
    requires q + 5 <= |s| && s[q..q + 4] == "\n---" && s[q + 4] == '\n' && s[q + 5..] == rest
    ensures CloseAt(s, q) == Some(|s| - |Body(rest)| - 1)
  {
    CloseAtRun(s, q);
    CloseRunShift(s, q, rest);
    CloseRunNewline(s, q, rest);
  }

  /** A closing delimiter ends at the last newline of the whitespace run after `---`. */
  lemma CloseAtRun(s: string, q: nat)
    requires q + 4 <= |s| && s[q..q + 4] == "\n---"
    ensures CloseAt(s, q) == LastNewline(s, q + 4, SpaceRunEnd(s, q + 4))
  {
  }

  /** After `\n---\n` and `rest`, that last newline is the one just before the body. */
  lemma CloseRunNewline(s: string, q: nat, rest: string)
    requires |s| == q + 5 + |rest|
    requires var r := LastNewline(rest, 0, SpaceRunEnd(rest, 0));
      LastNewline(s, q + 4, SpaceRunEnd(s, q + 4)) == if r.Some? then Some(q + 5 + r.value) else Some(q + 4)
    ensures LastNewline(s, q + 4, SpaceRunEnd(s, q + 4)) == Some(|s| - |Body(rest)| - 1)
  {
    match LastNewline(rest, 0, SpaceRunEnd(rest, 0))
    case None =>
      BodyWholeLength(rest);
    case Some(j) =>
      BodyCutLength(rest, j);
  }

  /** With no newline in its leading run, the body is the whole text. */
  lemma BodyWholeLength(rest: string)
    requires LastNewline(rest, 0, SpaceRunEnd(rest, 0)).None?
    ensures |Body(rest)| == |rest|
  {
  }

  /** Otherwise the body is what follows that newline. */
  lemma BodyCutLength(rest: string, j: nat)
    requires LastNewline(rest, 0, SpaceRunEnd(rest, 0)) == Some(j)
    ensures |Body(rest)| == |rest| - j - 1
  {
  }

  /** The last newline of the run after `---`: the one of `rest`'s leading run, shifted, or else the newline after `---`. */
  lemma CloseRunShift(s: string, q: nat, rest: string)
    requires q + 5 <= |s| && s[q + 4] == '\n' && s[q + 5..] == rest
    ensures var r := LastNewline(rest, 0, SpaceRunEnd(rest, 0));
      LastNewline(s, q + 4, SpaceRunEnd(s, q + 4)) == if r.Some? then Some(q + 5 + r.value) else Some(q + 4)
  {
    var er := SpaceRunEnd(rest, 0);
    RunAfterClose(s, q, rest);
    match LastNewline(rest, 0, er)
    case None =>
      CloseRunToDelimiter(s, q, rest);
    case Some(j) =>
      CloseRunIntoRest(s, q, rest, j);
  }

  /** With no newline in `rest`'s leading run, the last one is the newline after `---`. */
  lemma CloseRunToDelimiter(s: string, q: nat, rest: string)
    requires q + 5 <= |s| && s[q + 4] == '\n' && s[q + 5..] == rest
    requires LastNewline(rest, 0, SpaceRunEnd(rest, 0)).None?
    ensures LastNewline(s, q + 4, q + 5 + SpaceRunEnd(rest, 0)) == Some(q + 4)
  {
    var er := SpaceRunEnd(rest, 0);
    LastNewlineSplit(s, q + 4, q + 5, q + 5 + er);
    LastNewlineIn(s, q + 5, rest, 0, er);
    assert LastNewline(s, q + 4, q + 5) == Some(q + 4);
  }

  /** Otherwise it is the last newline of that run, shifted. */
  lemma CloseRunIntoRest(s: string, q: nat, rest: string, j: nat)
    requires q + 5 <= |s| && s[q + 5..] == rest
    requires LastNewline(rest, 0, SpaceRunEnd(rest, 0)) == Some(j)
    ensures LastNewline(s, q + 4, q + 5 + SpaceRunEnd(rest, 0)) == Some(q + 5 + j)
  {
    var er := SpaceRunEnd(rest, 0);
    LastNewlineSplit(s, q + 4, q + 5, q + 5 + er);
    LastNewlineIn(s, q + 5, rest, 0, er);
  }

  /** The whitespace run after the closing `---` takes the newline and the leading run of `rest`. */
  lemma RunAfterClose(s: string, q: nat, rest: string)
    requires q + 5 <= |s| && s[q + 4] == '\n' && s[q + 5..] == rest
    ensures SpaceRunEnd(s, q + 4) == q + 5 + SpaceRunEnd(rest, 0)
  {
    SpaceRunEndSuffix(s, q + 5, 0);
  }

  /**
   * A document "---\n" + block + "\n---\n" + rest whose block opens cleanly
   * and holds no "\n---" gives back the block, and as content the body that
   * the greedy `\s*\n` after the closing `---` leaves of `rest`.
   */
  lemma MatchBody(block: string, rest: string)
    requires OpensCleanly(block) && NoDelimiterIn(block)
    ensures Match(Document(block, rest)) == Some(Sections(block, Body(rest)))
  {
    LayOut(block, rest);
    MatchTail(Document(block, rest), block, Body(rest));
  }

  /** A laid-out text whose close comes just before `b` matches with `b` as content. */
  lemma MatchTail(s: string, block: string, b: string)
    ensures EndsIn(s, block, b) ==> Match(s) == Some(Sections(block, b))
  {
    if EndsIn(s, block, b) {
      MatchLaidOut(s, block, |s| - |b| - 1);
    }
  }

  /**
   * The steps of the regex engine on a text: the opening `---` and its
   * newline, the block up to `q`, the opening search settling on the newline
   * after `---`, the lazy group skipping to `q`, and the closing delimiter
   * at `q` ending at `t`.
   */
  ghost predicate LaidOut(s: string, block: string, t: nat) {
    var q := 4 + |block|;
    && q <= |s| && s[..3] == "---" && s[3] == '\n' && s[4..q] == block
    && OpenBefore(s, SpaceRunEnd(s, 3)) == OpenBefore(s, 4)
    && LazyBlock(s, 4) == LazyBlock(s, q) && CloseAt(s, q) == Some(t)
  }

  /** `s` is laid out with its closing delimiter just before its tail `b`. */
  ghost predicate EndsIn(s: string, block: string, b: string) {
    |b| < |s| && LaidOut(s, block, |s| - |b| - 1) && s[|s| - |b|..] == b
  }

  /** A document whose block opens cleanly and holds no "\n---" is laid out with its close just before the body. */
  lemma LayOut(block: string, rest: string)
    requires OpensCleanly(block) && NoDelimiterIn(block)
    ensures EndsIn(Document(block, rest), block, Body(rest))
  {
    DocumentStart(block, rest);
    LazyStep(block, rest);
    OpenOfDocument(block, rest);
    CloseOfDocument(block, rest);
    DocumentEndsWithBody(block, rest);
  }

  /** The match in a laid-out text: the block, and the content after the closing delimiter. */
  lemma MatchLaidOut(s: string, block: string, t: nat)
    ensures LaidOut(s, block, t) ==> Match(s) == Some(Sections(block, s[t + 1..]))
  {
    if LaidOut(s, block, t) {
      FrameAt(s, 4 + |block|, t);
    }
  }

  /** The start of the document: the opening `---`, its newline and the block. */
  lemma DocumentStart(block: string, rest: string)
    ensures var s, q := Document(block, rest), 4 + |block|;
      && q + 5 <= |s| && s[..3] == "---" && s[3] == '\n' && s[4..q] == block
  {
  }

  /** The opening search in a document moves down to the newline right after `---`. */
  lemma OpenOfDocument(block: string, rest: string)
    requires OpensCleanly(block)
    ensures var s := Document(block, rest);
      OpenBefore(s, SpaceRunEnd(s, 3)) == OpenBefore(s, 4)
  {
    DocumentLayout(block, rest);
    OpenStep(Document(block, rest), block);
  }

  /** The closing delimiter after the block ends just before the body. */
  lemma CloseOfDocument(block: string, rest: string)
    ensures var s := Document(block, rest);
      |Body(rest)| < |s| && CloseAt(s, 4 + |block|) == Some(|s| - |Body(rest)| - 1)
  {
    DocumentLayout(block, rest);
    CloseStep(Document(block, rest), 4 + |block|, rest);
  }

  /** The document ends with the body of its text after the frame. */
  lemma DocumentEndsWithBody(block: string, rest: string)
    ensures var s := Document(block, rest);
      |Body(rest)| < |s| && s[|s| - |Body(rest)|..] == Body(rest)
  {
    var p := "---\n" + block + "\n---\n";
    var body := Body(rest);
    BodySuffix(rest);
    assert Document(block, rest) == p + rest;
    assert (p + rest)[|p| + |rest| - |body|..] == rest[|rest| - |body|..];
  }

  /** The body is what is left at the end of the text. */
  lemma BodySuffix(rest: string)
    ensures |Body(rest)| <= |rest| && Body(rest) == rest[|rest| - |Body(rest)|..]
  {
    BodyShape(rest);
  }

  /** The lazy group skips the whole block: no closing delimiter starts inside it. */
  lemma LazyStep(block: string, rest: string)
    requires NoDelimiterIn(block)
    ensures LazyBlock(Document(block, rest), 4) == LazyBlock(Document(block, rest), 4 + |block|)
  {
    var s := Document(block, rest);
    forall k | 4 <= k < 4 + |block| ensures CloseAt(s, k).None? {
      NoCloseInsideBlock(block, rest, k);
    }
    LazyBlockSkips(s, 4, 4 + |block|);
  }

  /** The frame the search settles on when the opening newline is at 3 and the block ends at `q`. */
  lemma FrameAt(s: string, q: nat, t: nat)
    requires 4 <= q <= |s| && s[..3] == "---" && s[3] == '\n'
    requires OpenBefore(s, SpaceRunEnd(s, 3)) == OpenBefore(s, 4)
    requires LazyBlock(s, 4) == LazyBlock(s, q) && CloseAt(s, q) == Some(t)
    ensures Match(s) == Some(Sections(s[4..q], s[t + 1..]))
  {
    FrameFound(s, q, t);
    MatchOfCut(s, Cut(3, q, t));
  }

  /** The positions the search settles on when the opening newline is at 3 and the block ends at `q`. */
  lemma FrameFound(s: string, q: nat, t: nat)
    requires 4 <= q <= |s| && s[..3] == "---" && s[3] == '\n'
    requires OpenBefore(s, SpaceRunEnd(s, 3)) == OpenBefore(s, 4)
    requires LazyBlock(s, 4) == LazyBlock(s, q) && CloseAt(s, q) == Some(t)
    ensures FindFrame(s) == Some(Cut(3, q, t))
  {
    LazyBlockAt(s, q, t);
    OpenBeforeAt(s, q, t);
    FindFrameStarts(s);
  }

  /** The lazy group stops at the first closing delimiter it tries. */
  lemma LazyBlockAt(s: string, q: nat, t: nat)
    requires q <= |s| && CloseAt(s, q) == Some(t)
    ensures LazyBlock(s, q) == Some((q, t))
  {
  }

  /** The opening newline right after `---`. */
  lemma OpenBeforeAt(s: string, q: nat, t: nat)
    requires 4 <= |s| && s[..3] == "---" && s[3] == '\n'
    requires LazyBlock(s, 4) == Some((q, t))
    ensures OpenBefore(s, 4) == Some(Cut(3, q, t))
  {
  }

  /** The search starts from the end of the whitespace run after `---`. */
  lemma FindFrameStarts(s: string)
    requires 3 <= |s| && s[..3] == "---"
    ensures FindFrame(s) == OpenBefore(s, SpaceRunEnd(s, 3))
  {
  }

  /** The two groups of the match, read off its positions. */
  lemma MatchOfCut(s: string, c: Cut)
    requires FindFrame(s) == Some(c)
    ensures c.p + 1 <= c.q < c.t < |s|
    ensures Match(s) == Some(Sections(s[c.p + 1..c.q], s[c.t + 1..]))
  {
  }

  /**
   * A document "---\n" + block + "\n---\n" + rest gives back exactly its block
   * and its body when the block opens cleanly and holds no "\n---", and the
   * body has no blank line ahead of its first non-space character.
   */
  lemma MatchRoundTrip(block: string, rest: string)
    requires OpensCleanly(block) && NoDelimiterIn(block)
    requires NoBlankLineAhead(rest)
    ensures Match(Document(block, rest)) == Some(Sections(block, rest))
  {
    MatchBody(block, rest);
    BodyKeeps(rest);
  }

  /**
   * Blank lines after the closing `---` (the usual one among them) are not
   * part of the content: whitespace ending in a newline before `r` is dropped.
   */
  lemma MatchBlankLinesAfterFrame(block: string, ws: string, r: string)
    requires OpensCleanly(block) && NoDelimiterIn(block)
    requires AllSpace(ws) && NoBlankLineAhead(r)
    ensures Match(Document(block, ws + "\n" + r)) == Some(Sections(block, r))
  {
    MatchBody(block, ws + "\n" + r);
    BodySkipsBlankLine(ws, r);
    BodyKeeps(r);
  }

  /** `value.slice(1, -1)` when the value is wrapped in matching quotes, else the value. */
  function Unquote(v: string): string {
    if (StartsWith(v, "\"") && EndsWith(v, "\"")) || (StartsWith(v, "'") && EndsWith(v, "'")) then
      (if |v| >= 2 then v[1..|v| - 1] else [])
    else v
  }

  /** Exactly one layer of matching quotes is removed. */
  lemma UnquoteOneLayer(x: string, q: char)
    requires q == '"' || q == '\''
    ensures Unquote([q] + x + [q]) == x
  {
    var v := [q] + x + [q];
    assert v[..1] == [q] && v[|v| - 1..] == [q];
    assert v[1..|v| - 1] == x;
  }

  /** A value not wrapped in matching quotes is kept as it is. */
  lemma UnquoteKeepsUnquoted(v: string)
    requires v == [] || !((v[0] == '"' && v[|v| - 1] == '"') || (v[0] == '\'' && v[|v| - 1] == '\''))
    ensures Unquote(v) == v
  {
    if v != [] {
      assert StartsWith(v, "\"") ==> v[0] == '"';
      assert StartsWith(v, "'") ==> v[0] == '\'';
      assert EndsWith(v, "\"") ==> v[|v| - 1] == '"';
      assert EndsWith(v, "'") ==> v[|v| - 1] == '\'';
    }
  }

  /** What one line of the block contributes: nothing without ':', else a key and a value. */
  function LineEntry(line: string): (r: Option<(string, string)>)
    ensures r.None? <==> ':' !in line
  {
    var colonIdx := IndexOf(line, ':');
    if colonIdx == -1 then None
    else Some((Trim(line[..colonIdx]), Unquote(Trim(line[colonIdx + 1..]))))
  }

  /** The key is cut before the first ':', so it never contains one. */
  lemma LineEntryKeyHasNoColon(line: string)
    requires ':' in line
    ensures ':' !in LineEntry(line).value.0
  {
    var pre := line[..IndexOf(line, ':')];
    var key := Trim(pre);
    TrimStartSuffix(pre);
    assert key == pre[|pre| - |TrimStart(pre)|..][..|key|];
    assert forall c :: c in key ==> c in pre;
  }

  /** A line is split at its first ':' only: the value may contain more colons. */
  lemma LineEntrySplitsAtFirstColon(k: string, v: string)
    requires ':' !in k
    ensures LineEntry(k + ":" + v) == Some((Trim(k), Unquote(Trim(v))))
  {
    var line := k + ":" + v;
    assert line[|k|] == ':';
    assert line[..|k|] == k;
    assert IndexOf(line, ':') == |k|;
    assert line[|k| + 1..] == v;
  }

  /** What each line of the block contributes. */
  function Entries(lines: seq<string>): (es: seq<Option<(string, string)>>)
    ensures |es| == |lines| && forall i :: 0 <= i < |lines| ==> es[i] == LineEntry(lines[i])
  {
    seq(|lines|, i requires 0 <= i < |lines| => LineEntry(lines[i]))
  }

  /**
   * `meta[key] = value` on a plain object. The key `__proto__` reaches the
   * prototype setter, which ignores a string value, so that key is never stored.
   */
  const ProtoKey := "__proto__"

  function Assign(m: map<string, string>, k: string, v: string): (r: map<string, string>)
    ensures k == ProtoKey ==> r == m
    ensures k != ProtoKey ==> r == m[k := v]
  {
    if k == ProtoKey then m else m[k := v]
  }

  /** The map after the entries are applied in order; a later entry overwrites an earlier key. */
  function Fold(es: seq<Option<(string, string)>>): map<string, string> {
    if es == [] then map[]
    else
      var m := Fold(es[..|es| - 1]);
      match es[|es| - 1]
      case None => m
      case Some((k, v)) => Assign(m, k, v)
  }

  /** One more entry either leaves the map alone or assigns its key. */
  lemma FoldSnoc(es: seq<Option<(string, string)>>, i: nat, m: map<string, string>)
    requires i < |es| && m == Fold(es[..i])
    ensures es[i].None? ==> Fold(es[..i + 1]) == m
    ensures es[i].Some? ==> Fold(es[..i + 1]) == Assign(m, es[i].value.0, es[i].value.1)
  {
    assert es[..i + 1][..i] == es[..i];
  }

  /** The map built from the block's lines. */
  function FoldMeta(lines: seq<string>): map<string, string> {
    Fold(Entries(lines))
  }

  /** The key an entry sets, if any. */
  function KeyOf(e: Option<(string, string)>): Option<string> {
    match e
    case None => None
    case Some((k, _)) => Some(k)
  }

  /** A key other than `__proto__` is in the map exactly when some entry sets it. */
  lemma {:induction false} FoldKeys(es: seq<Option<(string, string)>>, k: string)
    ensures k in Fold(es) <==> k != ProtoKey && exists i :: 0 <= i < |es| && KeyOf(es[i]) == Some(k)
  {
    if es != [] {
      var init := es[..|es| - 1];
      FoldKeys(init, k);
      assert forall i :: 0 <= i < |init| ==> init[i] == es[i];
      if k in Fold(es) && k !in Fold(init) {
        assert KeyOf(es[|es| - 1]) == Some(k);
      }
    }
  }

  /** A repeated key keeps the value of its last entry. */
  lemma {:induction false} FoldLastWins(es: seq<Option<(string, string)>>, i: nat, k: string)
    requires i < |es| && KeyOf(es[i]) == Some(k) && k != ProtoKey
    requires forall j :: i < j < |es| ==> KeyOf(es[j]) != Some(k)
    ensures k in Fold(es) && Fold(es)[k] == es[i].value.1
  {
    var init := es[..|es| - 1];
    if i < |es| - 1 {
      assert init[i] == es[i];
      forall j | i < j < |init| ensures KeyOf(init[j]) != Some(k) {
        assert init[j] == es[j];
      }
      FoldLastWins(init, i, k);
    }
  }

  /**
   * Lines without ':' add no key, and `__proto__` is never stored: any other
   * key is in the map exactly when some line of the block sets it.
   */
  lemma FoldMetaKeys(lines: seq<string>, k: string)
    ensures k in FoldMeta(lines) <==> k != ProtoKey && exists j :: 0 <= j < |lines| && KeyOf(LineEntry(lines[j])) == Some(k)
  {
    var es := Entries(lines);
    FoldKeys(es, k);
    if k in FoldMeta(lines) {
      var j :| 0 <= j < |es| && KeyOf(es[j]) == Some(k);
      assert es[j] == LineEntry(lines[j]);
    }
    if j :| 0 <= j < |lines| && KeyOf(LineEntry(lines[j])) == Some(k) {
      assert es[j] == LineEntry(lines[j]);
    }
  }

  /** A repeated key keeps the value of its last line. */
  lemma FoldMetaLastWins(lines: seq<string>, i: nat, k: string)
    requires i < |lines| && KeyOf(LineEntry(lines[i])) == Some(k) && k != ProtoKey
    requires forall j :: i < j < |lines| ==> KeyOf(LineEntry(lines[j])) != Some(k)
    ensures k in FoldMeta(lines) && FoldMeta(lines)[k] == LineEntry(lines[i]).value.1
  {
    FoldLastWins(Entries(lines), i, k);
  }

  /**
   * `parseFrontmatter(raw)`: without a frame the text comes back unchanged
   * with an empty map; with one, the body is the text after the closing
   * delimiter line and the map is built from the block's lines in order.
   */
  method ParseFrontmatter(raw: string) returns (r: Parsed)
    ensures Match(raw).None? ==> r == Parsed(map[], raw)
    ensures Match(raw).Some? ==> r == Parsed(FoldMeta(Split(Match(raw).value.block, '\n')), Match(raw).value.rest)
  {
    var m := Match(raw);
    if m.None? {
      return Parsed(map[], raw);
    }
    var meta: map<string, string> := map[];
    var lines := Split(m.value.block, '\n');
    ghost var es := Entries(lines);
    var i := 0;
    while i < |lines|
      invariant 0 <= i <= |lines|
      invariant meta == Fold(es[..i])
    {
      FoldSnoc(es, i, meta);
      var entry := LineEntry(lines[i]);
      if entry.Some? && entry.value.0 != ProtoKey {
        meta := meta[entry.value.0 := entry.value.1];
      }
      i := i + 1;
    }
    assert es[..i] == es;
    return Parsed(meta, m.value.rest);
  }

  /** The `meta` half of what `parseFrontmatter(raw)` returns. */
  function MetaOf(raw: string): map<string, string> {
    match Match(raw)
    case None => map[]
    case Some(sections) => FoldMeta(Split(sections.block, '\n'))
  }
}
