/** Generic sequence helpers for the scripts' `map`/`filter` chains and `continue` loops. */
module Seqs {
  import opened Results

  /** `xs.map(f).filter(keep)`. */
  function MapFilter<T>(f: T -> T, keep: T -> bool, xs: seq<T>): (r: seq<T>)
    ensures |r| <= |xs|
    ensures forall i :: 0 <= i < |r| ==> keep(r[i])
  {
    if xs == [] then []
    else (if keep(f(xs[0])) then [f(xs[0])] else []) + MapFilter(f, keep, xs[1..])
  }

  lemma {:induction false} MapFilterAppend<T>(f: T -> T, keep: T -> bool, a: seq<T>, b: seq<T>)
    ensures MapFilter(f, keep, a + b) == MapFilter(f, keep, a) + MapFilter(f, keep, b)
  {
    if a == [] {
      assert a + b == b;
    } else {
      assert (a + b)[1..] == a[1..] + b;
      MapFilterAppend(f, keep, a[1..], b);
    }
  }

  /** A property every image has holds of every element kept. */
  lemma {:induction false} MapFilterImages<T>(f: T -> T, keep: T -> bool, xs: seq<T>, p: T -> bool)
    requires forall i :: 0 <= i < |xs| ==> p(f(xs[i]))
    ensures forall i :: 0 <= i < |MapFilter(f, keep, xs)| ==> p(MapFilter(f, keep, xs)[i])
  {
    if xs != [] {
      MapFilterImages(f, keep, xs[1..], p);
    }
  }

  /** `a` is `b` with some elements left out. */
  predicate IsSubsequence<T(==)>(a: seq<T>, b: seq<T>) {
    a == [] || (b != [] && ((a[0] == b[0] && IsSubsequence(a[1..], b[1..])) || IsSubsequence(a, b[1..])))
  }

  /** `xs.map(f)`. */
  function Map<T>(f: T -> T, xs: seq<T>): (r: seq<T>)
    ensures |r| == |xs|
    ensures forall i :: 0 <= i < |xs| ==> r[i] == f(xs[i])
  {
    seq(|xs|, i requires 0 <= i < |xs| => f(xs[i]))
  }

  lemma {:induction false} MapFilterIsSubsequence<T>(f: T -> T, keep: T -> bool, xs: seq<T>)
    ensures IsSubsequence(MapFilter(f, keep, xs), Map(f, xs))
  {
    if xs != [] {
      var b := Map(f, xs);
      var rest := MapFilter(f, keep, xs[1..]);
      MapFilterIsSubsequence(f, keep, xs[1..]);
      assert b[1..] == Map(f, xs[1..]);
      if keep(f(xs[0])) {
        var a := [f(xs[0])] + rest;
        assert MapFilter(f, keep, xs) == a;
        assert a[0] == b[0] && a[1..] == rest;
        assert IsSubsequence(a[1..], b[1..]);
      } else {
        assert MapFilter(f, keep, xs) == rest;
        assert IsSubsequence(rest, b[1..]);
      }
    }
  }

  lemma MapFilterSingle<T>(f: T -> T, keep: T -> bool, x: T)
    ensures MapFilter(f, keep, [x]) == if keep(f(x)) then [f(x)] else []
  {
    assert [x][1..] == [];
  }

  /** When every element is already its own image and is kept, nothing changes. */
  lemma {:induction false} MapFilterFixed<T>(f: T -> T, keep: T -> bool, xs: seq<T>)
    requires forall i :: 0 <= i < |xs| ==> f(xs[i]) == xs[i] && keep(xs[i])
    ensures MapFilter(f, keep, xs) == xs
  {
    if xs != [] {
      MapFilterFixed(f, keep, xs[1..]);
      assert xs == [xs[0]] + xs[1..];
    }
  }

  /** The results of `f` that are not `None`, in order. */
  function Collect<S, T>(f: S -> Option<T>, xs: seq<S>): (r: seq<T>)
    ensures |r| <= |xs|
  {
    if xs == [] then []
    else (match f(xs[0]) case Some(y) => [y] case None => []) + Collect(f, xs[1..])
  }

  /** Every collected value is the result of `f` on some element, and the elements' order is kept. */
  lemma {:induction false} CollectOrigin<S, T>(f: S -> Option<T>, xs: seq<S>, i: nat)
    requires i < |Collect(f, xs)|
    ensures exists j :: 0 <= j < |xs| && f(xs[j]) == Some(Collect(f, xs)[i])
  {
    var rest := Collect(f, xs[1..]);
    if f(xs[0]).Some? && i == 0 {
      assert f(xs[0]) == Some(Collect(f, xs)[0]);
    } else {
      var k := if f(xs[0]).Some? then i - 1 else i;
      assert Collect(f, xs)[i] == rest[k];
      CollectOrigin(f, xs[1..], k);
      var j :| 0 <= j < |xs[1..]| && f(xs[1..][j]) == Some(rest[k]);
      assert f(xs[j + 1]) == Some(rest[k]);
    }
  }

  lemma {:induction false} CollectAppend<S, T>(f: S -> Option<T>, a: seq<S>, b: seq<S>)
    ensures Collect(f, a + b) == Collect(f, a) + Collect(f, b)
  {
    if a == [] {
      assert a + b == b;
    } else {
      assert (a + b)[1..] == a[1..] + b;
      CollectAppend(f, a[1..], b);
    }
  }

  /** Nothing is collected exactly when no element gives a value. */
  lemma {:induction false} CollectNone<S, T>(f: S -> Option<T>, xs: seq<S>)
    ensures Collect(f, xs) == [] <==> forall j :: 0 <= j < |xs| ==> f(xs[j]).None?
  {
    if xs != [] {
      CollectNone(f, xs[1..]);
      assert forall j :: 1 <= j < |xs| ==> xs[j] == xs[1..][j - 1];
    }
  }

  /** `xs.filter(keep)`. */
  function Filter<T>(keep: T -> bool, xs: seq<T>): (r: seq<T>)
    ensures |r| <= |xs|
    ensures forall i :: 0 <= i < |r| ==> keep(r[i])
  {
    if xs == [] then []
    else (if keep(xs[0]) then [xs[0]] else []) + Filter(keep, xs[1..])
  }

  lemma {:induction false} FilterAppend<T>(keep: T -> bool, a: seq<T>, b: seq<T>)
    ensures Filter(keep, a + b) == Filter(keep, a) + Filter(keep, b)
  {
    if a == [] {
      assert a + b == b;
    } else {
      assert (a + b)[1..] == a[1..] + b;
      FilterAppend(keep, a[1..], b);
    }
  }

  /** Exactly the elements that pass are kept, each in place. */
  lemma FilterKeeps<T>(keep: T -> bool, a: seq<T>, x: T, b: seq<T>)
    ensures Filter(keep, a + [x] + b) == Filter(keep, a) + (if keep(x) then [x] else []) + Filter(keep, b)
  {
    FilterAppend(keep, a + [x], b);
    FilterAppend(keep, a, [x]);
    FilterSingle(keep, x);
  }

  lemma FilterSingle<T>(keep: T -> bool, x: T)
    ensures Filter(keep, [x]) == if keep(x) then [x] else []
  {
    assert [x][1..] == [];
  }

  /** Every kept element is an element of the input. */
  lemma {:induction false} FilterSubset<T>(keep: T -> bool, xs: seq<T>)
    ensures multiset(Filter(keep, xs)) <= multiset(xs)
  {
    if xs != [] {
      FilterSubset(keep, xs[1..]);
      assert xs == [xs[0]] + xs[1..];
    }
  }

  /** An element is kept exactly when it occurs in the input and passes the test. */
  lemma {:induction false} FilterMembers<T>(keep: T -> bool, xs: seq<T>)
    ensures forall x :: x in Filter(keep, xs) <==> x in xs && keep(x)
  {
    if xs != [] {
      FilterMembers(keep, xs[1..]);
      assert xs == [xs[0]] + xs[1..];
    }
  }

  /** Filtering twice keeps what passes both tests. */
  lemma {:induction false} FilterFilter<T>(outer: T -> bool, inner: T -> bool, both: T -> bool, xs: seq<T>)
    requires forall x :: both(x) == (outer(x) && inner(x))
    ensures Filter(outer, Filter(inner, xs)) == Filter(both, xs)
  {
    if xs != [] {
      FilterFilter(outer, inner, both, xs[1..]);
      var rest := Filter(inner, xs[1..]);
      if inner(xs[0]) {
        assert Filter(inner, xs) == [xs[0]] + rest;
        FilterAppend(outer, [xs[0]], rest);
        assert [xs[0]][1..] == [];
        assert Filter(outer, [xs[0]]) == if outer(xs[0]) then [xs[0]] else [];
        assert Filter(both, xs) == (if both(xs[0]) then [xs[0]] else []) + Filter(both, xs[1..]);
      } else {
        assert Filter(inner, xs) == rest;
        assert Filter(both, xs) == Filter(both, xs[1..]);
      }
    }
  }

  /** When every element passes, nothing is dropped. */
  lemma {:induction false} FilterFixed<T>(keep: T -> bool, xs: seq<T>)
    requires forall i :: 0 <= i < |xs| ==> keep(xs[i])
    ensures Filter(keep, xs) == xs
  {
    if xs != [] {
      FilterFixed(keep, xs[1..]);
      assert xs == [xs[0]] + xs[1..];
    }
  }

  /** When no element passes, everything is dropped. */
  lemma {:induction false} FilterNone<T>(keep: T -> bool, xs: seq<T>)
    requires forall i :: 0 <= i < |xs| ==> !keep(xs[i])
    ensures Filter(keep, xs) == []
  {
    if xs != [] {
      FilterNone(keep, xs[1..]);
    }
  }

  lemma MapAppend<T>(f: T -> T, a: seq<T>, b: seq<T>)
    ensures Map(f, a + b) == Map(f, a) + Map(f, b)
  {
  }

  lemma MapThree<T>(f: T -> T, a: seq<T>, m: seq<T>, b: seq<T>)
    ensures Map(f, a + m + b) == Map(f, a) + Map(f, m) + Map(f, b)
  {
    MapAppend(f, a + m, b);
    MapAppend(f, a, m);
  }
}
