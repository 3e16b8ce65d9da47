/**
 * `Array.prototype.sort` with a `localeCompare`-style comparator, on values.
 * The comparator is a parameter `le`, where `le(a, b)` means "`a` sorts no
 * later than `b`" (`a.localeCompare(b) <= 0`); nothing is required of it
 * beyond being a total preorder, so no code-point order is claimed.
 * The sort is a stable insertion sort: elements whose keys compare equal keep
 * their input order, as they do under the engine's stable sort.
 */
module Sorting {

  /** A comparator that relates every pair of keys and is transitive. */
  ghost predicate TotalPreorder(le: (string, string) -> bool) {
    && (forall a, b :: le(a, b) || le(b, a))
    && (forall a, b, c :: le(a, b) && le(b, c) ==> le(a, c))
  }

  /** Every element sorts no later than every element after it. */
  predicate SortedBy<T>(s: seq<T>, key: T -> string, le: (string, string) -> bool) {
    forall i, j :: 0 <= i < j < |s| ==> le(key(s[i]), key(s[j]))
  }

  /** Where `x` goes in `s`: after the leading elements that sort no later than it. */
  function InsertPos<T>(x: T, s: seq<T>, key: T -> string, le: (string, string) -> bool): (k: nat)
    ensures k <= |s|
    ensures forall i :: 0 <= i < k ==> le(key(s[i]), key(x))
    ensures k < |s| ==> !le(key(s[k]), key(x))
  {
    if s == [] || !le(key(s[0]), key(x)) then 0
    else 1 + InsertPos(x, s[1..], key, le)
  }

  function Insert<T>(x: T, s: seq<T>, key: T -> string, le: (string, string) -> bool): seq<T> {
    var k := InsertPos(x, s, key, le);
    s[..k] + [x] + s[k..]
  }

  function SortBy<T>(s: seq<T>, key: T -> string, le: (string, string) -> bool): (r: seq<T>)
    ensures |r| == |s|
    ensures multiset(r) == multiset(s)
  {
    if s == [] then []
    else
      var init, x := s[..|s| - 1], s[|s| - 1];
      assert s == init + [x];
      var k := InsertPos(x, SortBy(init, key, le), key, le);
      var sorted := SortBy(init, key, le);
      assert sorted == sorted[..k] + sorted[k..];
      Insert(x, sorted, key, le)
  }

  /** Inserting into a sorted sequence keeps it sorted. */
  lemma InsertSorted<T>(x: T, s: seq<T>, key: T -> string, le: (string, string) -> bool)
    requires TotalPreorder(le)
    requires SortedBy(s, key, le)
    ensures SortedBy(Insert(x, s, key, le), key, le)
  {
    var k := InsertPos(x, s, key, le);
    var r := Insert(x, s, key, le);
    forall i, j | 0 <= i < j < |r| ensures le(key(r[i]), key(r[j])) {
      if j < k {
        assert r[i] == s[i] && r[j] == s[j];
      } else if j == k {
        assert r[i] == s[i] && r[j] == x;
      } else if i > k {
        assert r[i] == s[i - 1] && r[j] == s[j - 1];
      } else if i == k {
        assert r[i] == x && r[j] == s[j - 1];
        assert le(key(x), key(s[k]));
        if j - 1 > k {
          assert le(key(s[k]), key(s[j - 1]));
        }
      } else {
        assert r[i] == s[i] && r[j] == s[j - 1];
      }
    }
  }

  /** The sort's result is ordered by `le` on the keys. */
  lemma {:induction false} SortBySorted<T>(s: seq<T>, key: T -> string, le: (string, string) -> bool)
    requires TotalPreorder(le)
    ensures SortedBy(SortBy(s, key, le), key, le)
  {
    if s != [] {
      SortBySorted(s[..|s| - 1], key, le);
      InsertSorted(s[|s| - 1], SortBy(s[..|s| - 1], key, le), key, le);
    }
  }

  /** `f` applied to every element. */
  function Apply<T>(f: T -> T, s: seq<T>): (r: seq<T>)
    ensures |r| == |s|
    ensures forall i :: 0 <= i < |s| ==> r[i] == f(s[i])
  {
    seq(|s|, i requires 0 <= i < |s| => f(s[i]))
  }

  lemma {:induction false} InsertPosApply<T>(f: T -> T, x: T, s: seq<T>, key: T -> string, le: (string, string) -> bool)
    requires forall y :: key(f(y)) == key(y)
    ensures InsertPos(f(x), Apply(f, s), key, le) == InsertPos(x, s, key, le)
  {
    if s != [] {
      assert Apply(f, s)[1..] == Apply(f, s[1..]);
      InsertPosApply(f, x, s[1..], key, le);
    }
  }

  lemma InsertApply<T>(f: T -> T, x: T, s: seq<T>, key: T -> string, le: (string, string) -> bool)
    requires forall y :: key(f(y)) == key(y)
    ensures Insert(f(x), Apply(f, s), key, le) == Apply(f, Insert(x, s, key, le))
  {
    InsertPosApply(f, x, s, key, le);
    var k := InsertPos(x, s, key, le);
    assert Apply(f, s)[..k] == Apply(f, s[..k]);
    assert Apply(f, s)[k..] == Apply(f, s[k..]);
  }

  /** Changing elements without changing their keys commutes with sorting. */
  lemma {:induction false} SortByApply<T>(f: T -> T, s: seq<T>, key: T -> string, le: (string, string) -> bool)
    requires forall y :: key(f(y)) == key(y)
    ensures SortBy(Apply(f, s), key, le) == Apply(f, SortBy(s, key, le))
  {
    if s != [] {
      var n := |s| - 1;
      var t := Apply(f, s);
      assert t[..n] == Apply(f, s[..n]) && t[n] == f(s[n]);
      SortByApply(f, s[..n], key, le);
      InsertApply(f, s[n], SortBy(s[..n], key, le), key, le);
    }
  }

  /** Every element of the sorted sequence comes from some position of the input. */
  lemma SortByFrom<T>(s: seq<T>, key: T -> string, le: (string, string) -> bool, i: nat) returns (m: nat)
    requires i < |s|
    ensures m < |s| && SortBy(s, key, le)[i] == s[m]
  {
    var sorted := SortBy(s, key, le);
    assert sorted[i] in multiset(sorted);
    m :| 0 <= m < |s| && s[m] == sorted[i];
  }

  /** `p` holds between the elements at every two different positions. */
  ghost predicate Pairwise<T>(s: seq<T>, p: (T, T) -> bool) {
    forall i, j :: 0 <= i < |s| && 0 <= j < |s| && i != j ==> p(s[i], s[j])
  }

  lemma InsertPairwise<T>(x: T, s: seq<T>, key: T -> string, le: (string, string) -> bool, p: (T, T) -> bool)
    requires Pairwise(s, p)
    requires forall i :: 0 <= i < |s| ==> p(x, s[i]) && p(s[i], x)
    ensures Pairwise(Insert(x, s, key, le), p)
  {
    var k := InsertPos(x, s, key, le);
    var r := Insert(x, s, key, le);
    forall i, j | 0 <= i < |r| && 0 <= j < |r| && i != j ensures p(r[i], r[j]) {
      var si := if i < k then i else i - 1;
      var sj := if j < k then j else j - 1;
      if i != k && j != k {
        assert r[i] == s[si] && r[j] == s[sj];
      } else if i == k {
        assert r[i] == x && r[j] == s[sj];
      } else {
        assert r[j] == x && r[i] == s[si];
      }
    }
  }

  /** A relation between all distinct positions survives the sort. */
  lemma {:induction false} SortByPairwise<T>(s: seq<T>, key: T -> string, le: (string, string) -> bool, p: (T, T) -> bool)
    requires Pairwise(s, p)
    ensures Pairwise(SortBy(s, key, le), p)
  {
    if s != [] {
      var n := |s| - 1;
      var init := s[..n];
      assert Pairwise(init, p) by {
        forall i, j | 0 <= i < n && 0 <= j < n && i != j ensures p(init[i], init[j]) {
          assert init[i] == s[i] && init[j] == s[j];
        }
      }
      SortByPairwise(init, key, le, p);
      var sorted := SortBy(init, key, le);
      forall i | 0 <= i < |sorted| ensures p(s[n], sorted[i]) && p(sorted[i], s[n]) {
        var m := SortByFrom(init, key, le, i);
        assert s[m] == sorted[i];
      }
      InsertPairwise(s[n], sorted, key, le, p);
    }
  }

  /** The elements of `s` that satisfy `p`, in order. */
  function Filter<T>(s: seq<T>, p: T -> bool): (r: seq<T>)
    ensures |r| <= |s|
  {
    if s == [] then [] else (if p(s[0]) then [s[0]] else []) + Filter(s[1..], p)
  }

  lemma {:induction false} FilterAppend<T>(a: seq<T>, b: seq<T>, p: T -> bool)
    ensures Filter(a + b, p) == Filter(a, p) + Filter(b, p)
  {
    if a == [] {
      assert a + b == b;
    } else {
      var head := if p(a[0]) then [a[0]] else [];
      assert (a + b)[0] == a[0] && (a + b)[1..] == a[1..] + b;
      assert Filter(a + b, p) == head + Filter(a[1..] + b, p);
      FilterAppend(a[1..], b, p);
      assert Filter(a, p) == head + Filter(a[1..], p);
    }
  }

  /** None of the elements satisfies `p`. */
  lemma {:induction false} FilterNone<T>(s: seq<T>, p: T -> bool)
    requires forall i :: 0 <= i < |s| ==> !p(s[i])
    ensures Filter(s, p) == []
  {
    if s != [] {
      FilterNone(s[1..], p);
    }
  }

  /** Keys that sort no later than each other, in both directions. */
  predicate Tied(le: (string, string) -> bool, a: string, b: string) {
    le(a, b) && le(b, a)
  }

  /**
   * Inserting `x` into a sorted sequence puts it after every element tied
   * with it: among the elements tied with some key, `x` comes last.
   */
  lemma InsertAfterTies<T>(x: T, s: seq<T>, key: T -> string, le: (string, string) -> bool, k0: string)
    requires TotalPreorder(le) && SortedBy(s, key, le)
    ensures var p := (y: T) => Tied(le, key(y), k0);
      Filter(Insert(x, s, key, le), p) == Filter(s, p) + Filter([x], p)
  {
    var p := (y: T) => Tied(le, key(y), k0);
    var k := InsertPos(x, s, key, le);
    InsertSplits(x, s, key, le, k, p);
    if p(x) {
      NoTiesAfter(x, s, key, le, k0);
    }
  }

  /** The filtered insertion, piece by piece. */
  lemma InsertSplits<T>(x: T, s: seq<T>, key: T -> string, le: (string, string) -> bool, k: nat, p: T -> bool)
    requires k == InsertPos(x, s, key, le)
    ensures Filter(s, p) == Filter(s[..k], p) + Filter(s[k..], p)
    ensures Filter(Insert(x, s, key, le), p) == Filter(s[..k], p) + Filter([x], p) + Filter(s[k..], p)
  {
    assert s == s[..k] + s[k..];
    assert Insert(x, s, key, le) == s[..k] + ([x] + s[k..]);
    FilterAppend(s[..k], [x] + s[k..], p);
    FilterAppend([x], s[k..], p);
    FilterAppend(s[..k], s[k..], p);
  }

  /** Nothing after the insertion point is tied with a key that `x` is tied with. */
  lemma NoTiesAfter<T>(x: T, s: seq<T>, key: T -> string, le: (string, string) -> bool, k0: string)
    requires TotalPreorder(le) && SortedBy(s, key, le) && Tied(le, key(x), k0)
    ensures var k := InsertPos(x, s, key, le);
      Filter(s[k..], (y: T) => Tied(le, key(y), k0)) == []
  {
    var p := (y: T) => Tied(le, key(y), k0);
    var k := InsertPos(x, s, key, le);
    forall j | 0 <= j < |s[k..]| ensures !p(s[k..][j]) {
      assert s[k..][j] == s[k + j];
      if j > 0 {
        assert le(key(s[k]), key(s[k + j]));
      }
    }
    FilterNone(s[k..], p);
  }

  /**
   * The sort is stable: for every key, the elements tied with it come out in
   * the order they went in, as they do under the engine's stable sort.
   */
  lemma {:induction false} SortByStable<T>(s: seq<T>, key: T -> string, le: (string, string) -> bool, k0: string)
    requires TotalPreorder(le)
    ensures var p := (y: T) => Tied(le, key(y), k0);
      Filter(SortBy(s, key, le), p) == Filter(s, p)
  {
    var p := (y: T) => Tied(le, key(y), k0);
    if s != [] {
      var init, x := s[..|s| - 1], s[|s| - 1];
      SortByStable(init, key, le, k0);
      SortBySorted(init, key, le);
      InsertAfterTies(x, SortBy(init, key, le), key, le, k0);
      assert s == init + [x];
      FilterAppend(init, [x], p);
    }
  }
}
