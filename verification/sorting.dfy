/** A stable sort over a caller-supplied "strictly before" relation.

    `Array.prototype.sort` is stable, so for a comparator that orders consistently every
    conforming engine returns the one stable sorted permutation; insertion sort is used here as
    the reference that produces it. */
module Sorting {

  /** Irreflexive and transitive: what the comparators passed to `sort` provide. */
  ghost predicate StrictOrder<T(!new)>(lt: (T, T) -> bool) {
    && (forall a :: !lt(a, a))
    && (forall a, b, c :: lt(a, b) && lt(b, c) ==> lt(a, c))
  }

  /** No element is strictly before an element to its left. */
  predicate SortedBy<T>(lt: (T, T) -> bool, s: seq<T>) {
    forall i, j :: 0 <= i < j < |s| ==> !lt(s[j], s[i])
  }

  /** Places `x` in front of the first element it is strictly before, so after every element
      it ties with: later input stays later among equals. */
  function Insert<T>(lt: (T, T) -> bool, x: T, s: seq<T>): (r: seq<T>)
    ensures multiset(r) == multiset(s) + multiset{x}
    ensures |r| == |s| + 1
  {
    if s == [] then [x]
    else if lt(x, s[0]) then [x] + s
    else
      assert s == [s[0]] + s[1..];
      [s[0]] + Insert(lt, x, s[1..])
  }

  /** Inserting into a sorted sequence keeps it sorted. */
  lemma {:induction false} InsertSorted<T(!new)>(lt: (T, T) -> bool, x: T, s: seq<T>)
    requires StrictOrder(lt) && SortedBy(lt, s)
    ensures SortedBy(lt, Insert(lt, x, s))
    decreases |s|
  {
    if s == [] {
    } else if lt(x, s[0]) {
      forall k | 0 <= k < |s| ensures !lt(s[k], x) {
        var y, first := s[k], s[0];
        assert lt(y, x) && lt(x, first) ==> lt(y, first);
        assert !lt(y, first);
      }
      var r := [x] + s;
      forall i, j | 0 <= i < j < |r| ensures !lt(r[j], r[i]) {
        if i > 0 { assert r[i] == s[i - 1] && r[j] == s[j - 1]; }
      }
    } else {
      var rest := Insert(lt, x, s[1..]);
      assert SortedBy(lt, s[1..]);
      InsertSorted(lt, x, s[1..]);
      var r := [s[0]] + rest;
      forall j | 0 < j < |r| ensures !lt(r[j], s[0]) {
        assert r[j] in multiset(rest);
        assert r[j] == x || r[j] in multiset(s[1..]);
        if r[j] != x {
          var k :| 0 <= k < |s[1..]| && s[1..][k] == r[j];
          assert s[k + 1] == r[j];
        }
      }
      forall i, j | 0 <= i < j < |r| ensures !lt(r[j], r[i]) {
        if i > 0 { assert r[i] == rest[i - 1] && r[j] == rest[j - 1]; }
      }
    }
  }

  /** Stable insertion sort: a permutation of `s`. */
  function Sort<T>(lt: (T, T) -> bool, s: seq<T>): (r: seq<T>)
    ensures multiset(r) == multiset(s)
    ensures |r| == |s|
  {
    if s == [] then []
    else
      assert s == s[..|s| - 1] + [s[|s| - 1]];
      Insert(lt, s[|s| - 1], Sort(lt, s[..|s| - 1]))
  }

  /** With a strict order, the permutation `Sort` returns is sorted. */
  lemma {:induction false} SortSorted<T(!new)>(lt: (T, T) -> bool, s: seq<T>)
    requires StrictOrder(lt)
    ensures SortedBy(lt, Sort(lt, s))
    decreases |s|
  {
    if s != [] {
      SortSorted(lt, s[..|s| - 1]);
      InsertSorted(lt, s[|s| - 1], Sort(lt, s[..|s| - 1]));
    }
  }

  /** No two elements share a key. */
  predicate DistinctBy<T, K(==)>(key: T -> K, s: seq<T>) {
    forall i, j :: 0 <= i < j < |s| ==> key(s[i]) != key(s[j])
  }

  lemma {:induction false} InsertKeepsDistinct<T, K>(lt: (T, T) -> bool, key: T -> K, x: T, s: seq<T>)
    requires DistinctBy(key, s)
    requires forall i :: 0 <= i < |s| ==> key(s[i]) != key(x)
    ensures DistinctBy(key, Insert(lt, x, s))
  {
    if s != [] && !lt(x, s[0]) {
      var rest := Insert(lt, x, s[1..]);
      assert DistinctBy(key, s[1..]);
      InsertKeepsDistinct(lt, key, x, s[1..]);
      var r := Insert(lt, x, s);
      assert r == [s[0]] + rest;
      forall j | 1 <= j < |r| ensures key(r[j]) != key(s[0]) {
        assert r[j] in multiset(rest);
        if r[j] != x {
          assert r[j] in multiset(s[1..]);
          var k :| 0 <= k < |s[1..]| && s[1..][k] == r[j];
          assert s[k + 1] == r[j];
        }
      }
    }
  }

  /** Sorting never puts two elements with one key side by side that were not already there:
      keys distinct before are distinct after. */
  lemma {:induction false} SortKeepsDistinct<T, K>(lt: (T, T) -> bool, key: T -> K, s: seq<T>)
    requires DistinctBy(key, s)
    ensures DistinctBy(key, Sort(lt, s))
  {
    if s != [] {
      var init := s[..|s| - 1];
      var x := s[|s| - 1];
      assert DistinctBy(key, init);
      SortKeepsDistinct(lt, key, init);
      var sorted := Sort(lt, init);
      forall i | 0 <= i < |sorted| ensures key(sorted[i]) != key(x) {
        assert sorted[i] in multiset(init);
        var k :| 0 <= k < |init| && init[k] == sorted[i];
        assert s[k] == sorted[i];
      }
      InsertKeepsDistinct(lt, key, x, sorted);
    }
  }

  /** `s.flatMap(f)`: the pieces `f(s[0])`, `f(s[1])`, ... laid end to end. */
  function FlatMap<T, U>(f: T -> seq<U>, s: seq<T>): seq<U>
    decreases |s|
  {
    if s == [] then [] else f(s[0]) + FlatMap(f, s[1..])
  }

  lemma {:induction false} FlatMapAppend<T, U>(f: T -> seq<U>, s: seq<T>, t: seq<T>)
    ensures FlatMap(f, s + t) == FlatMap(f, s) + FlatMap(f, t)
    decreases |s|
  {
    if s == [] {
      assert s + t == t;
    } else {
      var st := s + t;
      assert st[0] == s[0] && st[1..] == s[1..] + t;
      FlatMapAppend(f, s[1..], t);
      assert FlatMap(f, st) == f(s[0]) + FlatMap(f, s[1..] + t);
    }
  }

  lemma FlatMapSingle<T, U>(f: T -> seq<U>, x: T)
    ensures FlatMap(f, [x]) == f(x)
  {
    assert FlatMap(f, [x]) == f(x) + FlatMap(f, []);
  }

  /** Inserting one element adds exactly its piece to the flattened contents. */
  lemma {:induction false} InsertFlatMap<T, U>(lt: (T, T) -> bool, f: T -> seq<U>, x: T, s: seq<T>)
    ensures multiset(FlatMap(f, Insert(lt, x, s))) == multiset(FlatMap(f, s)) + multiset(f(x))
    decreases |s|
  {
    if s == [] {
      FlatMapSingle(f, x);
    } else if lt(x, s[0]) {
      assert ([x] + s)[1..] == s;
    } else {
      var rest := Insert(lt, x, s[1..]);
      InsertFlatMap(lt, f, x, s[1..]);
      assert ([s[0]] + rest)[1..] == rest;
    }
  }

  /** Sorting moves pieces around but keeps the flattened contents. */
  lemma {:induction false} SortFlatMap<T, U>(lt: (T, T) -> bool, f: T -> seq<U>, s: seq<T>)
    ensures multiset(FlatMap(f, Sort(lt, s))) == multiset(FlatMap(f, s))
    decreases |s|
  {
    if s != [] {
      var init, x := s[..|s| - 1], s[|s| - 1];
      var sorted := Sort(lt, init);
      SortFlatMap(lt, f, init);
      InsertFlatMap(lt, f, x, sorted);
      FlatMapLast(f, s);
      assert Sort(lt, s) == Insert(lt, x, sorted);
    }
  }

  lemma FlatMapLast<T, U>(f: T -> seq<U>, s: seq<T>)
    requires s != []
    ensures multiset(FlatMap(f, s)) == multiset(FlatMap(f, s[..|s| - 1])) + multiset(f(s[|s| - 1]))
  {
    assert s == s[..|s| - 1] + [s[|s| - 1]];
    FlatMapAppend(f, s[..|s| - 1], [s[|s| - 1]]);
    FlatMapSingle(f, s[|s| - 1]);
  }

  /** Where the piece of `s[i]` sits in the flattened sequence. */
  lemma {:induction false} FlatMapPiece<T, U>(f: T -> seq<U>, s: seq<T>, i: nat)
    requires i < |s|
    ensures |FlatMap(f, s[..i])| + |f(s[i])| <= |FlatMap(f, s)|
    ensures FlatMap(f, s)[|FlatMap(f, s[..i])|..|FlatMap(f, s[..i])| + |f(s[i])|] == f(s[i])
  {
    assert s == s[..i] + [s[i]] + s[i + 1..];
    FlatMapAppend(f, s[..i] + [s[i]], s[i + 1..]);
    FlatMapAppend(f, s[..i], [s[i]]);
    FlatMapSingle(f, s[i]);
  }

  /** Replacing one element swaps its piece in the flattened contents. */
  lemma FlatMapUpdate<T, U>(f: T -> seq<U>, s: seq<T>, i: nat, y: T)
    requires i < |s|
    ensures multiset(FlatMap(f, s[i := y])) + multiset(f(s[i])) == multiset(FlatMap(f, s)) + multiset(f(y))
  {
    var a, b := s[..i], s[i + 1..];
    assert s == a + [s[i]] + b;
    assert s[i := y] == a + [y] + b;
    FlatMapAppend(f, a + [s[i]], b);
    FlatMapAppend(f, a, [s[i]]);
    FlatMapAppend(f, a + [y], b);
    FlatMapAppend(f, a, [y]);
    FlatMapSingle(f, s[i]);
    FlatMapSingle(f, y);
  }

  /** Pieces with the same contents give flattened sequences with the same contents. */
  lemma {:induction false} FlatMapSameContents<T, U>(f: T -> seq<U>, g: T -> seq<U>, s: seq<T>)
    requires forall i :: 0 <= i < |s| ==> multiset(f(s[i])) == multiset(g(s[i]))
    ensures multiset(FlatMap(f, s)) == multiset(FlatMap(g, s))
    decreases |s|
  {
    if s != [] {
      assert forall i :: 0 <= i < |s[1..]| ==> s[1..][i] == s[i + 1];
      FlatMapSameContents(f, g, s[1..]);
    }
  }
}
