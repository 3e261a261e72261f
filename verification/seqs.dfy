/** `Array.prototype.filter` over immutable sequences, and the order-preservation
    notion it satisfies. */
module Seqs {

  /** `r` can be obtained from `s` by deleting elements, keeping the rest in order. */
  ghost predicate IsSubsequence<T>(r: seq<T>, s: seq<T>)
    decreases |s|
  {
    || r == []
    || (s != [] && ((r[0] == s[0] && IsSubsequence(r[1..], s[1..])) || IsSubsequence(r, s[1..])))
  }

  /** The elements of `s` that satisfy `p`, in their original order: an element's
      multiplicity is kept when it satisfies `p` and dropped to zero otherwise. */
  function Filter<T(!new)>(s: seq<T>, p: T -> bool): (r: seq<T>)
    ensures |r| <= |s|
    ensures forall x :: multiset(r)[x] == if p(x) then multiset(s)[x] else 0
    ensures forall x :: x in r <==> x in s && p(x)
    ensures IsSubsequence(r, s)
    decreases |s|
  {
    if s == [] then []
    else
      assert s == [s[0]] + s[1..];
      var rest := Filter(s[1..], p);
      if p(s[0]) then [s[0]] + rest else rest
  }

  /** Filtering by `p` and by its complement `q` splits a sequence into two
      parts whose sizes and contents add up to the whole. */
  lemma FilterSplits<T(!new)>(s: seq<T>, p: T -> bool, q: T -> bool)
    requires forall x :: q(x) <==> !p(x)
    ensures multiset(Filter(s, p)) + multiset(Filter(s, q)) == multiset(s)
    ensures |Filter(s, p)| + |Filter(s, q)| == |s|
  {
    var a := Filter(s, p);
    var b := Filter(s, q);
    assert multiset(a) + multiset(b) == multiset(s) by {
      forall x ensures (multiset(a) + multiset(b))[x] == multiset(s)[x] {
      }
    }
    assert |multiset(a) + multiset(b)| == |multiset(s)|;
  }

  /** Every element survives a filter whose predicate holds throughout. */
  lemma {:induction false} FilterKeepsAll<T(!new)>(s: seq<T>, p: T -> bool)
    requires forall k :: 0 <= k < |s| ==> p(s[k])
    ensures Filter(s, p) == s
    decreases |s|
  {
    if s != [] {
      FilterKeepsAll(s[1..], p);
    }
  }

  /** Deleting elements is transitive. */
  lemma {:induction false} SubsequenceTransitive<T>(a: seq<T>, b: seq<T>, c: seq<T>)
    requires IsSubsequence(a, b) && IsSubsequence(b, c)
    ensures IsSubsequence(a, c)
    decreases |c|
  {
    if a != [] {
      assert c != [];
      if b[0] == c[0] && IsSubsequence(b[1..], c[1..]) {
        if a[0] == b[0] && IsSubsequence(a[1..], b[1..]) {
          SubsequenceTransitive(a[1..], b[1..], c[1..]);
        } else {
          SubsequenceTransitive(a, b[1..], c[1..]);
        }
      } else {
        SubsequenceTransitive(a, b, c[1..]);
      }
    }
  }

  lemma FilterCons<T(!new)>(x: T, s: seq<T>, p: T -> bool)
    ensures Filter([x] + s, p) == (if p(x) then [x] else []) + Filter(s, p)
  {
    assert ([x] + s)[1..] == s;
  }

  /** Filtering distributes over concatenation. */
  lemma {:induction false} FilterAppend<T(!new)>(a: seq<T>, b: seq<T>, p: T -> bool)
    ensures Filter(a + b, p) == Filter(a, p) + Filter(b, p)
    decreases |a|
  {
    if a == [] {
      assert a + b == b;
    } else {
      assert (a + b)[0] == a[0];
      assert (a + b)[1..] == a[1..] + b;
      FilterAppend(a[1..], b, p);
    }
  }
  lemma {:induction false} SubsequenceReflexive<T>(s: seq<T>)
    ensures IsSubsequence(s, s)
    decreases |s|
  {
    if s != [] {
      SubsequenceReflexive(s[1..]);
    }
  }

  lemma {:induction false} SubsequenceLength<T>(r: seq<T>, s: seq<T>)
    requires IsSubsequence(r, s)
    ensures |r| <= |s|
    decreases |s|
  {
    if r != [] {
      if r[0] == s[0] && IsSubsequence(r[1..], s[1..]) {
        SubsequenceLength(r[1..], s[1..]);
      } else {
        SubsequenceLength(r, s[1..]);
      }
    }
  }

  /** A subsequence holds only elements of the sequence. */
  lemma {:induction false} SubsequenceMembers<T>(r: seq<T>, s: seq<T>)
    requires IsSubsequence(r, s)
    ensures forall x :: x in r ==> x in s
    decreases |s|
  {
    if r != [] {
      if r[0] == s[0] && IsSubsequence(r[1..], s[1..]) {
        SubsequenceMembers(r[1..], s[1..]);
        assert r == [r[0]] + r[1..];
      } else {
        SubsequenceMembers(r, s[1..]);
      }
    }
  }

  /** Every element of `s` is related by `apart` to every later one. */
  ghost predicate Pairwise<T>(s: seq<T>, apart: (T, T) -> bool) {
    forall i, j :: 0 <= i < j < |s| ==> apart(s[i], s[j])
  }

  /** Deleting elements keeps a relation that held between every earlier and
      later element (for instance, distinct ids). */
  lemma {:induction false} SubsequenceKeepsPairwise<T>(r: seq<T>, s: seq<T>, apart: (T, T) -> bool)
    requires IsSubsequence(r, s) && Pairwise(s, apart)
    ensures Pairwise(r, apart)
    decreases |s|
  {
    if r != [] {
      var tail := s[1..];
      assert Pairwise(tail, apart) by {
        forall i, j | 0 <= i < j < |tail| ensures apart(tail[i], tail[j]) {
          assert tail[i] == s[i + 1] && tail[j] == s[j + 1];
        }
      }
      if r[0] == s[0] && IsSubsequence(r[1..], tail) {
        SubsequenceKeepsPairwise(r[1..], tail, apart);
        SubsequenceMembers(r[1..], tail);
        forall i, j | 0 <= i < j < |r| ensures apart(r[i], r[j]) {
          assert r[j] == r[1..][j - 1];
          if i > 0 {
            assert r[i] == r[1..][i - 1];
          } else {
            assert r[j] in tail;
            var m :| 0 <= m < |tail| && tail[m] == r[j];
            assert s[m + 1] == r[j];
          }
        }
      } else {
        SubsequenceKeepsPairwise(r, tail, apart);
      }
    }
  }
}
