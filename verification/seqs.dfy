/** Optional values: the model's stand-in for a C# reference that may be null
    (the result of `FirstOrDefault` on a sequence of objects). */
module Options {

  datatype Option<T> = None | Some(value: T)
}

/** Order-preserving views of a sequence: the elements that satisfy a
    predicate (LINQ's `Where`), and the positions at which they sit. */
module Seqs {

  /** The elements of `s` for which `keep` holds, in their original order. */
  function Filter<T>(s: seq<T>, keep: T -> bool): (r: seq<T>)
    ensures |r| <= |s|
    ensures forall k :: 0 <= k < |r| ==> keep(r[k])
  {
    if s == [] then []
    else (if keep(s[0]) then [s[0]] else []) + Filter(s[1..], keep)
  }

  lemma {:induction false} FilterAppend<T>(a: seq<T>, b: seq<T>, keep: T -> bool)
    ensures Filter(a + b, keep) == Filter(a, keep) + Filter(b, keep)
    decreases |a|
  {
    if a == [] {
      assert a + b == b;
    } else {
      assert (a + b)[0] == a[0];
      assert (a + b)[1..] == a[1..] + b;
      FilterAppend(a[1..], b, keep);
    }
  }

  /** A filter that keeps everything is the identity. */
  lemma {:induction false} FilterKeepsAll<T>(s: seq<T>, keep: T -> bool)
    requires forall k :: 0 <= k < |s| ==> keep(s[k])
    ensures Filter(s, keep) == s
    decreases |s|
  {
    if s != [] {
      FilterKeepsAll(s[1..], keep);
    }
  }

  /** A filter that keeps nothing yields the empty sequence. */
  lemma {:induction false} FilterKeepsNone<T>(s: seq<T>, keep: T -> bool)
    requires forall k :: 0 <= k < |s| ==> !keep(s[k])
    ensures Filter(s, keep) == []
    decreases |s|
  {
    if s != [] {
      FilterKeepsNone(s[1..], keep);
    }
  }

  /** A filter drops at least one element if some element fails the predicate. */
  lemma {:induction false} FilterShrinks<T>(s: seq<T>, keep: T -> bool, i: nat)
    requires i < |s| && !keep(s[i])
    ensures |Filter(s, keep)| < |s|
    decreases |s|
  {
    if i > 0 {
      FilterShrinks(s[1..], keep, i - 1);
    }
  }

  lemma {:induction false} FilterSingleton<T>(x: T, keep: T -> bool)
    ensures Filter([x], keep) == if keep(x) then [x] else []
  {
    assert [x][1..] == [];
  }

  /** Removing the element at position `i` splits a filter into three parts. */
  lemma {:induction false} FilterAround<T>(s: seq<T>, i: nat, keep: T -> bool)
    requires i < |s|
    ensures Filter(s, keep)
            == Filter(s[..i], keep) + Filter([s[i]], keep) + Filter(s[i + 1..], keep)
    ensures Filter(s[..i] + s[i + 1..], keep)
            == Filter(s[..i], keep) + Filter(s[i + 1..], keep)
  {
    var pre, mid, post := s[..i], [s[i]], s[i + 1..];
    assert s == (pre + mid) + post;
    FilterAppend(pre + mid, post, keep);
    FilterAppend(pre, mid, keep);
    FilterAppend(pre, post, keep);
  }

  /** Taking out an element the filter drops does not change the filter. */
  lemma {:induction false} FilterRemoveDropped<T>(s: seq<T>, i: nat, keep: T -> bool)
    requires i < |s| && !keep(s[i])
    ensures Filter(s, keep) == Filter(s[..i] + s[i + 1..], keep)
  {
    assert Filter([s[i]], keep) == [] by { FilterSingleton(s[i], keep); }
    FilterAround(s, i, keep);
  }

  /** Taking out the first element the filter keeps removes it from the
      front of the filter. */
  lemma {:induction false} FilterRemoveFirstKept<T>(s: seq<T>, i: nat, keep: T -> bool)
    requires i < |s| && keep(s[i])
    requires forall k :: 0 <= k < i ==> !keep(s[k])
    ensures Filter(s, keep) == [s[i]] + Filter(s[..i] + s[i + 1..], keep)
  {
    assert Filter(s[..i], keep) == [] by { FilterKeepsNone(s[..i], keep); }
    assert Filter([s[i]], keep) == [s[i]] by { FilterSingleton(s[i], keep); }
    FilterAround(s, i, keep);
  }

  /** Splitting a sequence by a predicate and its negation loses nothing. */
  lemma {:induction false} FilterPartition<T>(s: seq<T>, keep: T -> bool, drop: T -> bool)
    requires forall k :: 0 <= k < |s| ==> drop(s[k]) == !keep(s[k])
    ensures multiset(Filter(s, keep)) + multiset(Filter(s, drop)) == multiset(s)
    decreases |s|
  {
    if s != [] {
      FilterPartition(s[1..], keep, drop);
      assert s == [s[0]] + s[1..];
    }
  }

  /** The positions of `s` whose element satisfies `keep`, in increasing order. */
  function IndicesWhere<T>(s: seq<T>, keep: T -> bool): (r: seq<nat>)
    ensures forall k :: 0 <= k < |r| ==> r[k] < |s| && keep(s[r[k]])
    decreases |s|
  {
    if s == [] then []
    else
      var n := |s| - 1;
      var front := IndicesWhere(s[..n], keep);
      assert forall i :: 0 <= i < n ==> s[..n][i] == s[i];
      front + (if keep(s[n]) then [n] else [])
  }

  /** `IndicesWhere` lists every position that satisfies `keep`, each once,
      in increasing order. */
  lemma {:induction false} IndicesWhereExact<T>(s: seq<T>, keep: T -> bool)
    ensures var r := IndicesWhere(s, keep);
            && (forall k, m :: 0 <= k < m < |r| ==> r[k] < r[m])
            && (forall i :: 0 <= i < |s| && keep(s[i]) ==> i in r)
    decreases |s|
  {
    if s != [] {
      var n := |s| - 1;
      IndicesWhereExact(s[..n], keep);
      var front := IndicesWhere(s[..n], keep);
      var r := IndicesWhere(s, keep);
      assert r == front + (if keep(s[n]) then [n] else []);
      forall i | 0 <= i < n && keep(s[i])
        ensures i in r
      {
        assert s[..n][i] == s[i];
        assert i in front;
      }
    }
  }

  /** The positions of the elements that satisfy `keep` and of those that do
      not together number exactly `|s|`. */
  lemma {:induction false} IndicesPartition<T>(s: seq<T>, keep: T -> bool, drop: T -> bool)
    requires forall x :: drop(x) == !keep(x)
    ensures |IndicesWhere(s, keep)| + |IndicesWhere(s, drop)| == |s|
    decreases |s|
  {
    if s != [] {
      IndicesPartition(s[..|s| - 1], keep, drop);
    }
  }
}
