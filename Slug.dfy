/**
 * `slugify`: heading text to anchor id, as the chain
 *   toLowerCase, remove [^\p{L}\p{N}\s_-], [\s_]+ -> '-', -+ -> '-', strip ^-+ and -+$, trim.
 * The Unicode tables the chain consults (lower-casing, the letter and number
 * categories) are not part of this model; they are a parameter.
 */
module Slug {
  import opened Text

  /** Per-character lower-casing and the general categories \p{L} and \p{N}. */
  datatype Unicode = Unicode(lower: char -> char, isLetter: char -> bool, isNumber: char -> bool) {
    predicate IsWord(c: char) {
      isLetter(c) || isNumber(c)
    }
  }

  /** Lower-casing is idempotent and leaves '-' alone (true of Unicode's simple case mapping). */
  ghost predicate LowerIsIdempotent(u: Unicode) {
    u.lower('-') == '-' && forall c :: u.lower(u.lower(c)) == u.lower(c)
  }

  /** Letters and numbers are neither whitespace, '_' nor '-' (true of Unicode's categories). */
  ghost predicate CategoriesAreDisjoint(u: Unicode) {
    forall c :: u.IsWord(c) ==> !IsSpace(c) && c != '_' && c != '-'
  }

  /** The characters of the character class `[\s_]`. */
  predicate IsSep(c: char) {
    IsSpace(c) || c == '_'
  }

  /** The characters the second step keeps: `[\p{L}\p{N}\s_-]`. */
  predicate Allowed(u: Unicode, c: char) {
    u.IsWord(c) || IsSep(c) || c == '-'
  }

  /** The letters and numbers of `s`, in order. */
  function Words(u: Unicode, s: string): string {
    if s == [] then [] else (if u.IsWord(s[0]) then [s[0]] else []) + Words(u, s[1..])
  }

  lemma {:induction false} WordsConcat(u: Unicode, a: string, b: string)
    ensures Words(u, a + b) == Words(u, a) + Words(u, b)
  {
    if a == [] {
      assert a + b == b;
    } else {
      assert (a + b)[1..] == a[1..] + b;
      WordsConcat(u, a[1..], b);
    }
  }

  /** Step 1: `toLowerCase()`. */
  function Lower(u: Unicode, s: string): string {
    seq(|s|, i requires 0 <= i < |s| => u.lower(s[i]))
  }

  /** Step 2: `.replace(/[^\p{L}\p{N}\s_-]/gu, '')`. */
  function RemoveDisallowed(u: Unicode, s: string): (r: string)
    ensures forall i :: 0 <= i < |r| ==> Allowed(u, r[i]) && r[i] in s
    ensures Words(u, r) == Words(u, s)
  {
    if s == [] then []
    else
      var rest := RemoveDisallowed(u, s[1..]);
      assert Words(u, s) == (if u.IsWord(s[0]) then [s[0]] else []) + Words(u, s[1..]);
      if Allowed(u, s[0]) then
        WordsConcat(u, [s[0]], rest);
        [s[0]] + rest
      else rest
  }

  /** The leading run of `[\s_]` removed. */
  function SkipSeps(s: string): (r: string)
    ensures |r| <= |s| && r == s[|s| - |r|..]
    ensures forall i :: 0 <= i < |s| - |r| ==> IsSep(s[i])
    ensures r == [] || !IsSep(r[0])
  {
    if s != [] && IsSep(s[0]) then SkipSeps(s[1..]) else s
  }

  /** Step 3: `.replace(/[\s_]+/g, '-')`: every run of whitespace and '_' becomes one '-'. */
  function CollapseSeparators(s: string): (r: string)
    ensures forall i :: 0 <= i < |r| ==> !IsSep(r[i]) && (r[i] == '-' || r[i] in s)
    decreases |s|
  {
    if s == [] then []
    else if IsSep(s[0]) then ['-'] + CollapseSeparators(SkipSeps(s))
    else [s[0]] + CollapseSeparators(s[1..])
  }

  /** The leading run of '-' removed. */
  function SkipHyphens(s: string): (r: string)
    ensures |r| <= |s| && r == s[|s| - |r|..]
    ensures forall i :: 0 <= i < |s| - |r| ==> s[i] == '-'
    ensures r == [] || r[0] != '-'
  {
    if s != [] && s[0] == '-' then SkipHyphens(s[1..]) else s
  }

  /** The trailing run of '-' removed. */
  function DropTrailingHyphens(s: string): (r: string)
    ensures |r| <= |s| && r == s[..|r|]
    ensures forall i :: |r| <= i < |s| ==> s[i] == '-'
    ensures r == [] || r[|r| - 1] != '-'
  {
    if s != [] && s[|s| - 1] == '-' then DropTrailingHyphens(s[..|s| - 1]) else s
  }

  /** No two adjacent hyphens. */
  predicate NoDoubleHyphen(s: string) {
    forall i :: 0 <= i < |s| - 1 ==> !(s[i] == '-' && s[i + 1] == '-')
  }

  /** Step 4: `.replace(/-+/g, '-')`: every run of '-' becomes one '-'. */
  function CollapseHyphens(s: string): (r: string)
    ensures forall i :: 0 <= i < |r| ==> r[i] in s
    ensures NoDoubleHyphen(r)
    ensures r != [] && s != [] ==> (r[0] == '-' <==> s[0] == '-')
    decreases |s|
  {
    if s == [] then []
    else if s[0] == '-' then ['-'] + CollapseHyphens(SkipHyphens(s))
    else [s[0]] + CollapseHyphens(s[1..])
  }

  /** Step 5: `.replace(/^-+|-+$/g, '')`. */
  function StripHyphens(s: string): (r: string)
    ensures exists a, b :: 0 <= a <= b <= |s| && r == s[a..b]
    ensures r == [] || (r[0] != '-' && r[|r| - 1] != '-')
  {
    var t := SkipHyphens(s);
    var r := DropTrailingHyphens(t);
    assert r == s[|s| - |t|..|s| - |t| + |r|];
    r
  }

  /** Steps 1 to 5. */
  function Untrimmed(u: Unicode, s: string): string {
    StripHyphens(CollapseHyphens(CollapseSeparators(RemoveDisallowed(u, Lower(u, s)))))
  }

  /** `slugify(s)`: steps 1 to 5, then step 6, `.trim()`. */
  function Slugify(u: Unicode, s: string): string {
    Trim(Untrimmed(u, s))
  }

  /** The shape of every slug: letters, numbers and single inner hyphens. */
  predicate IsSlug(u: Unicode, t: string) {
    && (forall i :: 0 <= i < |t| ==> !IsSep(t[i]) && (u.IsWord(t[i]) || t[i] == '-'))
    && NoDoubleHyphen(t)
    && (t == [] || (t[0] != '-' && t[|t| - 1] != '-'))
  }

  /** Every character is a letter or number, or '-', and none is whitespace or '_'. */
  predicate SlugChars(u: Unicode, s: string) {
    forall i :: 0 <= i < |s| ==> !IsSep(s[i]) && (u.IsWord(s[i]) || s[i] == '-')
  }

  /** Every character of `t` is '-' or satisfies `p`. */
  predicate CharsSatisfy(t: string, p: char -> bool) {
    forall i :: 0 <= i < |t| ==> t[i] == '-' || p(t[i])
  }

  lemma SliceKeepsShape(u: Unicode, s: string, a: int, b: int)
    requires 0 <= a <= b <= |s|
    requires SlugChars(u, s) && NoDoubleHyphen(s)
    ensures SlugChars(u, s[a..b]) && NoDoubleHyphen(s[a..b])
  {
    forall i | 0 <= i < b - a - 1
      ensures !(s[a..b][i] == '-' && s[a..b][i + 1] == '-')
    {
      assert s[a..b][i] == s[a + i] && s[a..b][i + 1] == s[a + i + 1];
    }
  }

  /*
   * Each step of the chain keeps a property that every character of its input
   * and '-' have: a step only drops characters, keeps them, or writes '-'.
   */
  lemma RemoveDisallowedKeepsChars(u: Unicode, s: string, p: char -> bool)
    requires CharsSatisfy(s, p)
    ensures CharsSatisfy(RemoveDisallowed(u, s), p)
  {
    var r := RemoveDisallowed(u, s);
    forall i | 0 <= i < |r| ensures r[i] == '-' || p(r[i]) {
      var k :| 0 <= k < |s| && s[k] == r[i];
    }
  }

  lemma CollapseSeparatorsKeepsChars(s: string, p: char -> bool)
    requires CharsSatisfy(s, p)
    ensures CharsSatisfy(CollapseSeparators(s), p)
  {
    var r := CollapseSeparators(s);
    forall i | 0 <= i < |r| ensures r[i] == '-' || p(r[i]) {
      if r[i] != '-' {
        var k :| 0 <= k < |s| && s[k] == r[i];
      }
    }
  }

  lemma CollapseHyphensKeepsChars(s: string, p: char -> bool)
    requires CharsSatisfy(s, p)
    ensures CharsSatisfy(CollapseHyphens(s), p)
  {
    var r := CollapseHyphens(s);
    forall i | 0 <= i < |r| ensures r[i] == '-' || p(r[i]) {
      var k :| 0 <= k < |s| && s[k] == r[i];
    }
  }

  lemma StripHyphensKeepsChars(s: string, p: char -> bool)
    requires CharsSatisfy(s, p)
    ensures CharsSatisfy(StripHyphens(s), p)
  {
    var r := StripHyphens(s);
    var a, b :| 0 <= a <= b <= |s| && r == s[a..b];
    forall i | 0 <= i < |r| ensures r[i] == '-' || p(r[i]) {
      assert r[i] == s[a + i];
    }
  }

  lemma CollapseSeparatorsShape(u: Unicode, s: string)
    requires forall i :: 0 <= i < |s| ==> Allowed(u, s[i])
    ensures SlugChars(u, CollapseSeparators(s))
  {
    var r := CollapseSeparators(s);
    forall i | 0 <= i < |r| ensures u.IsWord(r[i]) || r[i] == '-' {
      if r[i] != '-' {
        var k :| 0 <= k < |s| && s[k] == r[i];
      }
    }
  }

  lemma CollapseHyphensShape(u: Unicode, s: string)
    requires SlugChars(u, s)
    ensures SlugChars(u, CollapseHyphens(s))
  {
    var r := CollapseHyphens(s);
    forall i | 0 <= i < |r| ensures !IsSep(r[i]) && (u.IsWord(r[i]) || r[i] == '-') {
      var k :| 0 <= k < |s| && s[k] == r[i];
    }
  }

  lemma UntrimmedShape(u: Unicode, s: string)
    ensures IsSlug(u, Untrimmed(u, s))
  {
    var s2 := RemoveDisallowed(u, Lower(u, s));
    var s3 := CollapseSeparators(s2);
    CollapseSeparatorsShape(u, s2);
    var s4 := CollapseHyphens(s3);
    CollapseHyphensShape(u, s3);
    var s5 := StripHyphens(s4);
    var a, b :| 0 <= a <= b <= |s4| && s5 == s4[a..b];
    SliceKeepsShape(u, s4, a, b);
  }

  /** The final `trim()` never has anything left to remove. */
  lemma TrimIsNoop(u: Unicode, s: string)
    ensures Slugify(u, s) == Untrimmed(u, s)
  {
    UntrimmedShape(u, s);
    TrimNoop(Untrimmed(u, s));
  }

  /**
   * The output of `slugify` has no whitespace and no '_', holds only letters,
   * numbers and '-', never two hyphens in a row, and no hyphen at either end.
   */
  lemma SlugifyShape(u: Unicode, s: string)
    ensures IsSlug(u, Slugify(u, s))
  {
    UntrimmedShape(u, s);
    TrimIsNoop(u, s);
  }

  /** Every character of the slug is '-' or one that lower-casing produced. */
  lemma SlugifyCharsAreLowered(u: Unicode, s: string, p: char -> bool)
    requires forall c :: p(u.lower(c))
    ensures CharsSatisfy(Slugify(u, s), p)
  {
    var s1 := Lower(u, s);
    assert CharsSatisfy(s1, p);
    var s2 := RemoveDisallowed(u, s1);
    RemoveDisallowedKeepsChars(u, s1, p);
    var s3 := CollapseSeparators(s2);
    CollapseSeparatorsKeepsChars(s2, p);
    var s4 := CollapseHyphens(s3);
    CollapseHyphensKeepsChars(s3, p);
    StripHyphensKeepsChars(s4, p);
    TrimIsNoop(u, s);
  }

  lemma SkipHyphensKeepsWords(u: Unicode, s: string)
    requires CategoriesAreDisjoint(u)
    ensures Words(u, SkipHyphens(s)) == Words(u, s)
  {
    var t := SkipHyphens(s);
    var lead := s[..|s| - |t|];
    forall i | 0 <= i < |lead| ensures lead[i] == '-' || IsSep(lead[i]) {
      assert lead[i] == s[i];
    }
    assert s == lead + t;
    NoWordsIn(u, lead);
    WordsConcat(u, lead, t);
  }

  lemma DropTrailingHyphensKeepsWords(u: Unicode, t: string)
    requires CategoriesAreDisjoint(u)
    ensures Words(u, DropTrailingHyphens(t)) == Words(u, t)
  {
    var r := DropTrailingHyphens(t);
    var trail := t[|r|..];
    forall i | 0 <= i < |trail| ensures trail[i] == '-' || IsSep(trail[i]) {
      assert trail[i] == t[|r| + i];
    }
    assert t == r + trail;
    NoWordsIn(u, trail);
    WordsConcat(u, r, trail);
  }

  lemma StripHyphensKeepsWords(u: Unicode, s: string)
    requires CategoriesAreDisjoint(u)
    ensures Words(u, StripHyphens(s)) == Words(u, s)
  {
    assert StripHyphens(s) == DropTrailingHyphens(SkipHyphens(s));
    SkipHyphensKeepsWords(u, s);
    DropTrailingHyphensKeepsWords(u, SkipHyphens(s));
  }

  /** Only whitespace, '_' and '-' are ever dropped or merged: the letters and numbers survive in order. */
  lemma SlugifyKeepsWords(u: Unicode, s: string)
    requires CategoriesAreDisjoint(u)
    ensures Words(u, Slugify(u, s)) == Words(u, Lower(u, s))
  {
    var s2 := RemoveDisallowed(u, Lower(u, s));
    var s3 := CollapseSeparators(s2);
    var s4 := CollapseHyphens(s3);
    TrimIsNoop(u, s);
    calc {
      Words(u, Slugify(u, s));
      Words(u, StripHyphens(s4));
      { StripHyphensKeepsWords(u, s4); }
      Words(u, s4);
      { CollapseHyphensKeepsWords(u, s3); }
      Words(u, s3);
      { CollapseSeparatorsKeepsWords(u, s2); }
      Words(u, s2);
    }
  }

  /** A string made of '-' and separators has no letters or numbers. */
  lemma {:induction false} NoWordsIn(u: Unicode, s: string)
    requires CategoriesAreDisjoint(u)
    requires forall i :: 0 <= i < |s| ==> s[i] == '-' || IsSep(s[i])
    ensures Words(u, s) == []
  {
    if s != [] {
      NoWordsIn(u, s[1..]);
    }
  }

  lemma {:induction false} CollapseSeparatorsKeepsWords(u: Unicode, s: string)
    requires CategoriesAreDisjoint(u)
    ensures Words(u, CollapseSeparators(s)) == Words(u, s)
    decreases |s|
  {
    if s != [] {
      if IsSep(s[0]) {
        var t := SkipSeps(s);
        CollapseSeparatorsKeepsWords(u, t);
        assert s == s[..|s| - |t|] + t;
        NoWordsIn(u, s[..|s| - |t|]);
        WordsConcat(u, s[..|s| - |t|], t);
        WordsConcat(u, ['-'], CollapseSeparators(t));
      } else {
        CollapseSeparatorsKeepsWords(u, s[1..]);
        WordsConcat(u, [s[0]], CollapseSeparators(s[1..]));
        assert s == [s[0]] + s[1..];
        WordsConcat(u, [s[0]], s[1..]);
      }
    }
  }

  lemma {:induction false} CollapseHyphensKeepsWords(u: Unicode, s: string)
    requires CategoriesAreDisjoint(u)
    ensures Words(u, CollapseHyphens(s)) == Words(u, s)
    decreases |s|
  {
    if s != [] {
      if s[0] == '-' {
        var t := SkipHyphens(s);
        CollapseHyphensKeepsWords(u, t);
        assert s == s[..|s| - |t|] + t;
        NoWordsIn(u, s[..|s| - |t|]);
        WordsConcat(u, s[..|s| - |t|], t);
        WordsConcat(u, ['-'], CollapseHyphens(t));
      } else {
        CollapseHyphensKeepsWords(u, s[1..]);
        WordsConcat(u, [s[0]], CollapseHyphens(s[1..]));
        assert s == [s[0]] + s[1..];
        WordsConcat(u, [s[0]], s[1..]);
      }
    }
  }

  lemma {:induction false} CollapseSeparatorsNoop(s: string)
    requires forall i :: 0 <= i < |s| ==> !IsSep(s[i])
    ensures CollapseSeparators(s) == s
  {
    if s != [] {
      CollapseSeparatorsNoop(s[1..]);
    }
  }

  lemma {:induction false} CollapseHyphensNoop(s: string)
    requires NoDoubleHyphen(s)
    ensures CollapseHyphens(s) == s
    decreases |s|
  {
    if s != [] {
      assert NoDoubleHyphen(s[1..]) by {
        forall i | 0 <= i < |s[1..]| - 1 ensures !(s[1..][i] == '-' && s[1..][i + 1] == '-') {
          assert s[1..][i] == s[i + 1];
        }
      }
      CollapseHyphensNoop(s[1..]);
      if s[0] == '-' {
        assert SkipHyphens(s) == s[1..];
      }
    }
  }

  lemma {:induction false} RemoveDisallowedNoop(u: Unicode, s: string)
    requires forall i :: 0 <= i < |s| ==> Allowed(u, s[i])
    ensures RemoveDisallowed(u, s) == s
  {
    if s != [] {
      RemoveDisallowedNoop(u, s[1..]);
    }
  }

  /** Steps 4 to 6 leave a slug alone. */
  lemma SlugTailNoop(u: Unicode, t: string)
    requires IsSlug(u, t)
    ensures Trim(StripHyphens(CollapseHyphens(t))) == t
  {
    CollapseHyphensNoop(t);
    assert SkipHyphens(t) == t;
    assert DropTrailingHyphens(t) == t;
    TrimNoop(t);
  }

  /** A slug whose characters lower-casing leaves alone is its own slug. */
  lemma SlugIsFixedPoint(u: Unicode, t: string)
    requires IsSlug(u, t)
    requires forall i :: 0 <= i < |t| ==> u.lower(t[i]) == t[i]
    ensures Slugify(u, t) == t
  {
    assert Lower(u, t) == t;
    RemoveDisallowedNoop(u, t);
    CollapseSeparatorsNoop(t);
    SlugTailNoop(u, t);
  }

  /** A prefix without whitespace or '_' passes through step 3 unchanged. */
  lemma {:induction false} CollapseSeparatorsPrefix(a: string, x: string)
    requires forall i :: 0 <= i < |a| ==> !IsSep(a[i])
    ensures CollapseSeparators(a + x) == a + CollapseSeparators(x)
  {
    if a == [] {
      assert a + x == x;
    } else {
      var y := a + x;
      assert y[0] == a[0] && y[1..] == a[1..] + x;
      assert CollapseSeparators(y) == [a[0]] + CollapseSeparators(a[1..] + x);
      CollapseSeparatorsPrefix(a[1..], x);
      assert a == [a[0]] + a[1..];
    }
  }

  /** A run of whitespace and '_' is skipped up to the first character that is neither. */
  lemma {:induction false} SkipSepsRun(w: string, b: string)
    requires forall i :: 0 <= i < |w| ==> IsSep(w[i])
    requires b == [] || !IsSep(b[0])
    ensures SkipSeps(w + b) == b
  {
    if w == [] {
      assert w + b == b;
    } else {
      assert (w + b)[0] == w[0] && (w + b)[1..] == w[1..] + b;
      SkipSepsRun(w[1..], b);
    }
  }

  /** Two slugs joined by a hyphen are a slug. */
  lemma JoinIsSlug(u: Unicode, a: string, b: string)
    requires IsSlug(u, a) && IsSlug(u, b) && a != [] && b != []
    ensures IsSlug(u, a + "-" + b)
  {
    var t := a + "-" + b;
    forall i | 0 <= i < |t| - 1 ensures !(t[i] == '-' && t[i + 1] == '-') {
      if i + 1 < |a| {
        assert t[i] == a[i] && t[i + 1] == a[i + 1];
      } else if i + 1 == |a| {
        assert t[i] == a[|a| - 1];
      } else if i == |a| {
        assert t[i + 1] == b[0];
      } else {
        assert t[i] == b[i - |a| - 1] && t[i + 1] == b[i - |a|];
      }
    }
  }

  /** On text lower-casing and step 2 leave alone, `slugify` starts at step 3. */
  lemma SlugifyFromStep3(u: Unicode, s: string)
    requires forall i :: 0 <= i < |s| ==> Allowed(u, s[i]) && u.lower(s[i]) == s[i]
    ensures Slugify(u, s) == Trim(StripHyphens(CollapseHyphens(CollapseSeparators(s))))
  {
    assert Lower(u, s) == s;
    RemoveDisallowedNoop(u, s);
  }

  /** Step 3 turns the run between two slugs into one '-'. */
  lemma CollapseSeparatorRun(a: string, w: string, b: string)
    requires forall i :: 0 <= i < |a| ==> !IsSep(a[i])
    requires forall i :: 0 <= i < |b| ==> !IsSep(b[i])
    requires w != [] && forall i :: 0 <= i < |w| ==> IsSep(w[i])
    ensures CollapseSeparators(a + w + b) == a + "-" + b
  {
    CollapseSeparatorsPrefix(a, w + b);
    CollapseLeadingRun(w, b);
    Reassociate(a, w, b);
  }

  lemma Reassociate(a: string, w: string, b: string)
    ensures a + w + b == a + (w + b) && a + (['-'] + b) == a + "-" + b
  {
  }

  /** A leading run of whitespace and '_' before text without any becomes one '-'. */
  lemma CollapseLeadingRun(w: string, b: string)
    requires w != [] && forall i :: 0 <= i < |w| ==> IsSep(w[i])
    requires forall i :: 0 <= i < |b| ==> !IsSep(b[i])
    ensures CollapseSeparators(w + b) == ['-'] + b
  {
    assert (w + b)[0] == w[0];
    SkipSepsRun(w, b);
    CollapseSeparatorsNoop(b);
  }

  /**
   * Where the hyphens go: two slugs separated by a run of whitespace and '_'
   * come out joined by exactly one '-', whatever the run's length.
   */
  lemma SlugifySeparatorRun(u: Unicode, a: string, w: string, b: string)
    requires IsSlug(u, a) && IsSlug(u, b) && a != [] && b != []
    requires w != [] && forall i :: 0 <= i < |w| ==> IsSep(w[i])
    requires forall c :: c in a + w + b ==> u.lower(c) == c
    ensures Slugify(u, a + w + b) == a + "-" + b
  {
    var s := a + w + b;
    forall i | 0 <= i < |s| ensures Allowed(u, s[i]) && u.lower(s[i]) == s[i] {
      assert s[i] in s;
      if i < |a| {
        assert s[i] == a[i];
      } else if i >= |a| + |w| {
        assert s[i] == b[i - |a| - |w|];
      } else {
        assert s[i] == w[i - |a|];
      }
    }
    SlugifyFromStep3(u, s);
    CollapseSeparatorRun(a, w, b);
    JoinIsSlug(u, a, b);
    SlugTailNoop(u, a + "-" + b);
  }

  /** Lower-casing works character by character. */
  lemma LowerConcat(u: Unicode, a: string, b: string)
    ensures Lower(u, a + b) == Lower(u, a) + Lower(u, b)
  {
  }

  /** Step 2 works character by character. */
  lemma {:induction false} RemoveDisallowedConcat(u: Unicode, a: string, b: string)
    ensures RemoveDisallowed(u, a + b) == RemoveDisallowed(u, a) + RemoveDisallowed(u, b)
  {
    if a == [] {
      assert a + b == b;
    } else {
      assert (a + b)[0] == a[0];
      assert (a + b)[1..] == a[1..] + b;
      RemoveDisallowedConcat(u, a[1..], b);
    }
  }

  /** Step 2 drops a character whose lower-case form is not in `[\p{L}\p{N}\s_-]`. */
  lemma RemoveDisallowedDrops(u: Unicode, a: string, c: char, b: string)
    requires !Allowed(u, u.lower(c))
    ensures RemoveDisallowed(u, Lower(u, a + [c] + b)) == RemoveDisallowed(u, Lower(u, a + b))
  {
    LowerConcat(u, a + [c], b);
    LowerConcat(u, a, [c]);
    LowerConcat(u, a, b);
    var la, lc, lb := Lower(u, a), Lower(u, [c]), Lower(u, b);
    assert lc == [u.lower(c)];
    assert RemoveDisallowed(u, lc) == [];
    RemoveDisallowedConcat(u, la + lc, lb);
    RemoveDisallowedConcat(u, la, lc);
    RemoveDisallowedConcat(u, la, lb);
  }

  /**
   * A character that is neither a letter, a number, whitespace, '_' nor '-'
   * once lower-cased is deleted: it leaves no trace in the slug, not even a '-'.
   */
  lemma SlugifyDeletes(u: Unicode, a: string, c: char, b: string)
    requires !Allowed(u, u.lower(c))
    ensures Slugify(u, a + [c] + b) == Slugify(u, a + b)
  {
    RemoveDisallowedDrops(u, a, c, b);
  }

  /** `slugify(slugify(s)) == slugify(s)`. */
  lemma SlugifyIdempotent(u: Unicode, s: string)
    requires LowerIsIdempotent(u)
    ensures Slugify(u, Slugify(u, s)) == Slugify(u, s)
  {
    var t := Slugify(u, s);
    SlugifyShape(u, s);
    var fixed := (c: char) => u.lower(c) == c;
    SlugifyCharsAreLowered(u, s, fixed);
    forall i | 0 <= i < |t| ensures u.lower(t[i]) == t[i] {
      assert t[i] == '-' || fixed(t[i]);
    }
    SlugIsFixedPoint(u, t);
  }
}
