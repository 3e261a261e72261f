/** A stable sort by a comparator, as `Array.prototype.sort` performs it. The
    comparator is given as the total preorder `le(a, b)` ("`a` may come before
    `b`", i.e. the JavaScript comparator returns a value `<= 0`). */
module Sorting {
  import opened Seqs

  ghost predicate TotalPreorder<T(!new)>(le: (T, T) -> bool) {
    && (forall a, b :: le(a, b) || le(b, a))
    && (forall a, b, c :: le(a, b) && le(b, c) ==> le(a, c))
  }

  /** Every element may come before every later one. */
  ghost predicate Sorted<T>(s: seq<T>, le: (T, T) -> bool) {
    forall i, j :: 0 <= i < j < |s| ==> le(s[i], s[j])
  }

  /** Neither of `a` and `b` must come before the other: the comparator returns 0. */
  predicate Tied<T>(le: (T, T) -> bool, a: T, b: T) {
    le(a, b) && le(b, a)
  }

  /** Places `x` in front of the first element it may precede, so `x` goes before
      every element it is tied with. */
  function Insert<T>(x: T, t: seq<T>, le: (T, T) -> bool): (r: seq<T>)
    ensures multiset(r) == multiset(t) + multiset{x}
    decreases |t|
  {
    if t == [] then [x]
    else if le(x, t[0]) then [x] + t
    else
      assert t == [t[0]] + t[1..];
      [t[0]] + Insert(x, t[1..], le)
  }

  /** Stable insertion sort: a permutation of `s` (the sortedness and stability
      of the result are the lemmas below). */
  function Sort<T>(s: seq<T>, le: (T, T) -> bool): (r: seq<T>)
    ensures multiset(r) == multiset(s)
    ensures |r| == |s|
    decreases |s|
  {
    if s == [] then []
    else
      assert s == [s[0]] + s[1..];
      Insert(s[0], Sort(s[1..], le), le)
  }

  lemma {:induction false} InsertSorted<T(!new)>(x: T, t: seq<T>, le: (T, T) -> bool)
    requires TotalPreorder(le)
    requires Sorted(t, le)
    ensures Sorted(Insert(x, t, le), le)
    decreases |t|
  {
    if t != [] && !le(x, t[0]) {
      var rest := Insert(x, t[1..], le);
      InsertSorted(x, t[1..], le);
      forall y | y in rest ensures le(t[0], y) {
        assert y in multiset(rest);
        if y != x {
          assert y in t[1..];
        }
      }
    }
  }

  /** The result of `Sort` is ordered by the comparator. */
  lemma {:induction false} SortSorted<T(!new)>(s: seq<T>, le: (T, T) -> bool)
    requires TotalPreorder(le)
    ensures Sorted(Sort(s, le), le)
    decreases |s|
  {
    if s != [] {
      SortSorted(s[1..], le);
      InsertSorted(s[0], Sort(s[1..], le), le);
    }
  }

  /** Sorting a sequence that is already in order returns it unchanged. */
  lemma {:induction false} SortOfSorted<T>(s: seq<T>, le: (T, T) -> bool)
    requires Sorted(s, le)
    ensures Sort(s, le) == s
    decreases |s|
  {
    if s != [] {
      assert Sorted(s[1..], le);
      SortOfSorted(s[1..], le);
    }
  }

  /** Sorting is idempotent. */
  lemma SortIdempotent<T(!new)>(s: seq<T>, le: (T, T) -> bool)
    requires TotalPreorder(le)
    ensures Sort(Sort(s, le), le) == Sort(s, le)
  {
    SortSorted(s, le);
    SortOfSorted(Sort(s, le), le);
  }

  /** The elements of `s` tied with `y`, in their order in `s`. */
  function TiedWith<T>(s: seq<T>, le: (T, T) -> bool, y: T): seq<T>
    decreases |s|
  {
    if s == [] then []
    else if Tied(le, s[0], y) then [s[0]] + TiedWith(s[1..], le, y)
    else TiedWith(s[1..], le, y)
  }

  lemma TiedWithCons<T>(h: T, rest: seq<T>, le: (T, T) -> bool, y: T)
    ensures TiedWith([h] + rest, le, y) == (if Tied(le, h, y) then [h] else []) + TiedWith(rest, le, y)
  {
    assert ([h] + rest)[1..] == rest;
  }

  /** An element that may not precede `t0` cannot share a tie class with it. */
  lemma NotBothTied<T(!new)>(x: T, t0: T, y: T, le: (T, T) -> bool)
    requires TotalPreorder(le)
    requires !le(x, t0)
    ensures !(Tied(le, x, y) && Tied(le, t0, y))
  {
  }

  lemma {:induction false} InsertStable<T(!new)>(x: T, t: seq<T>, le: (T, T) -> bool, y: T)
    requires TotalPreorder(le)
    ensures TiedWith(Insert(x, t, le), le, y)
         == (if Tied(le, x, y) then [x] else []) + TiedWith(t, le, y)
    decreases |t|
  {
    if t == [] {
      TiedWithCons(x, t, le, y);
    } else if le(x, t[0]) {
      TiedWithCons(x, t, le, y);
    } else {
      var tx := if Tied(le, x, y) then [x] else [];
      var t0 := if Tied(le, t[0], y) then [t[0]] else [];
      var rest := TiedWith(t[1..], le, y);
      calc {
        TiedWith(Insert(x, t, le), le, y);
      == { TiedWithCons(t[0], Insert(x, t[1..], le), le, y); }
        t0 + TiedWith(Insert(x, t[1..], le), le, y);
      == { InsertStable(x, t[1..], le, y); }
        t0 + (tx + rest);
      == { NotBothTied(x, t[0], y, le); SwapEmpty(t0, tx, rest); }
        tx + (t0 + rest);
      == { TiedWithCons(t[0], t[1..], le, y); assert t == [t[0]] + t[1..]; }
        tx + TiedWith(t, le, y);
      }
    }
  }

  lemma SwapEmpty<T>(a: seq<T>, b: seq<T>, c: seq<T>)
    requires a == [] || b == []
    ensures a + (b + c) == b + (a + c)
  {
  }

  /** Stability: for every class of tied elements, the sort keeps their relative order. */
  lemma {:induction false} SortStable<T(!new)>(s: seq<T>, le: (T, T) -> bool, y: T)
    requires TotalPreorder(le)
    ensures TiedWith(Sort(s, le), le, y) == TiedWith(s, le, y)
    decreases |s|
  {
    if s != [] {
      SortStable(s[1..], le, y);
      InsertStable(s[0], Sort(s[1..], le), le, y);
    }
  }

  lemma SortedHeadsAgree<T(!new)>(a: seq<T>, b: seq<T>, le: (T, T) -> bool)
    requires a != []
    requires Sorted(a, le) && Sorted(b, le)
    requires multiset(a) == multiset(b)
    requires forall x, y :: x in a && y in a && Tied(le, x, y) ==> x == y
    ensures b != [] && a[0] == b[0]
  {
    assert a[0] in multiset(b) && b[0] in multiset(a);
    var i :| 0 <= i < |b| && b[i] == a[0];
    var j :| 0 <= j < |a| && a[j] == b[0];
    if i > 0 && j > 0 {
      assert le(b[0], b[i]) && le(a[0], a[j]);
      assert Tied(le, a[0], b[0]);
    }
  }

  lemma TailsPermuted<T>(a: seq<T>, b: seq<T>)
    requires a != [] && b != [] && a[0] == b[0]
    requires multiset(a) == multiset(b)
    ensures multiset(a[1..]) == multiset(b[1..])
  {
    assert a == [a[0]] + a[1..] && b == [b[0]] + b[1..];
    assert multiset(a[1..]) == multiset(a) - multiset{a[0]};
    assert multiset(b[1..]) == multiset(b) - multiset{b[0]};
  }

  /** A comparator under which no two elements of `s` are tied, unless equal, fixes
      one sorted arrangement: any two sorted permutations of `s` coincide. */
  lemma {:induction false} SortedPermutationUnique<T(!new)>(a: seq<T>, b: seq<T>, le: (T, T) -> bool)
    requires Sorted(a, le) && Sorted(b, le)
    requires multiset(a) == multiset(b)
    requires forall x, y :: x in a && y in a && Tied(le, x, y) ==> x == y
    ensures a == b
    decreases |a|
  {
    if a == [] {
      assert |multiset(b)| == 0;
    } else {
      SortedHeadsAgree(a, b, le);
      TailsPermuted(a, b);
      SortedPermutationUnique(a[1..], b[1..], le);
      assert a == [a[0]] + a[1..] && b == [b[0]] + b[1..];
    }
  }

  function Reverse<T>(s: seq<T>): (r: seq<T>)
    ensures |r| == |s|
    ensures forall k :: 0 <= k < |s| ==> r[k] == s[|s| - 1 - k]
    decreases |s|
  {
    if s == [] then [] else Reverse(s[1..]) + [s[0]]
  }

  lemma {:induction false} ReverseMultiset<T>(s: seq<T>)
    ensures multiset(Reverse(s)) == multiset(s)
    decreases |s|
  {
    if s != [] {
      ReverseMultiset(s[1..]);
      assert s == [s[0]] + s[1..];
    }
  }

  /** Two comparators that are mirror images of each other. */
  ghost predicate Mirrored<T(!new)>(le: (T, T) -> bool, ge: (T, T) -> bool) {
    forall a, b :: ge(a, b) == le(b, a)
  }

  lemma MirrorIsTotalPreorder<T(!new)>(le: (T, T) -> bool, ge: (T, T) -> bool)
    requires TotalPreorder(le) && Mirrored(le, ge)
    ensures TotalPreorder(ge)
  {
  }

  lemma ReverseOfSorted<T(!new)>(s: seq<T>, le: (T, T) -> bool, ge: (T, T) -> bool)
    requires Sorted(s, le) && Mirrored(le, ge)
    ensures Sorted(Reverse(s), ge)
  {
    var r := Reverse(s);
    forall i, j | 0 <= i < j < |r| ensures ge(r[i], r[j]) {
      assert le(s[|s| - 1 - j], s[|s| - 1 - i]);
    }
  }

  /** Sorting by a comparator and by its mirror image gives reversed results, when
      no two distinct elements are tied. */
  lemma MirrorSortIsReverse<T(!new)>(s: seq<T>, le: (T, T) -> bool, ge: (T, T) -> bool)
    requires TotalPreorder(le) && Mirrored(le, ge)
    requires forall x, y :: x in s && y in s && Tied(le, x, y) ==> x == y
    ensures Sort(s, ge) == Reverse(Sort(s, le))
  {
    var up := Sort(s, le);
    var down := Reverse(up);
    var sorted := Sort(s, ge);
    SortSorted(s, le);
    MirrorIsTotalPreorder(le, ge);
    SortSorted(s, ge);
    ReverseMultiset(up);
    ReverseOfSorted(up, le, ge);
    forall x, y | x in sorted && y in sorted && Tied(ge, x, y) ensures x == y {
      assert x in multiset(s) && y in multiset(s);
      assert Tied(le, x, y);
    }
    SortedPermutationUnique(sorted, down, ge);
  }

  /** Deleting elements from a sorted sequence leaves it sorted. */
  lemma {:induction false} SubsequenceSorted<T>(r: seq<T>, s: seq<T>, le: (T, T) -> bool)
    requires IsSubsequence(r, s) && Sorted(s, le)
    ensures Sorted(r, le)
    decreases |s|
  {
    if r != [] {
      var tail := s[1..];
      assert Sorted(tail, le);
      if r[0] == s[0] && IsSubsequence(r[1..], tail) {
        SubsequenceSorted(r[1..], tail, le);
        SubsequenceMembers(r[1..], tail);
        forall i, j | 0 <= i < j < |r| ensures le(r[i], r[j]) {
          assert r[j] == r[1..][j - 1];
          if i > 0 {
            assert r[i] == r[1..][i - 1];
          } else {
            assert r[j] in tail;
            var m :| 0 <= m < |tail| && tail[m] == r[j];
            assert s[m + 1] == r[j];
          }
        }
      } else {
        SubsequenceSorted(r, tail, le);
      }
    }
  }
}
