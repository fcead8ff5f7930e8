/** Stable sorting by a `less` function, as sort.SliceStable promises it. */
module Sorting {

  /** Puts `x` behind every element that it is not less than, from the right. */
  function Insert<T>(less: (T, T) -> bool, s: seq<T>, x: T): seq<T> {
    if s != [] && less(x, s[|s| - 1]) then Insert(less, s[..|s| - 1], x) + [s[|s| - 1]]
    else s + [x]
  }

  function Sort<T>(less: (T, T) -> bool, s: seq<T>): seq<T> {
    if s == [] then [] else Insert(less, Sort(less, s[..|s| - 1]), s[|s| - 1])
  }

  lemma {:induction false} InsertIsPermutation<T>(less: (T, T) -> bool, s: seq<T>, x: T)
    ensures multiset(Insert(less, s, x)) == multiset(s) + multiset{x}
  {
    if s != [] && less(x, s[|s| - 1]) {
      InsertIsPermutation(less, s[..|s| - 1], x);
      assert s == s[..|s| - 1] + [s[|s| - 1]];
    }
  }

  lemma InsertMembers<T>(less: (T, T) -> bool, s: seq<T>, x: T, k: nat)
    requires k < |Insert(less, s, x)|
    ensures Insert(less, s, x)[k] == x || Insert(less, s, x)[k] in s
  {
    InsertIsPermutation(less, s, x);
    assert Insert(less, s, x)[k] in multiset(Insert(less, s, x));
  }

  lemma {:induction false} SortIsPermutation<T>(less: (T, T) -> bool, s: seq<T>)
    ensures multiset(Sort(less, s)) == multiset(s)
  {
    if s != [] {
      var front, x := s[..|s| - 1], s[|s| - 1];
      SortIsPermutation(less, front);
      InsertIsPermutation(less, Sort(less, front), x);
      MultisetAppend(s);
    }
  }

  lemma MultisetAppend<T>(s: seq<T>)
    requires s != []
    ensures multiset(s) == multiset(s[..|s| - 1]) + multiset{s[|s| - 1]}
  {
    assert s == s[..|s| - 1] + [s[|s| - 1]];
  }

  /** `less` is a strict weak order on the elements that `among` admits. */
  ghost predicate StrictWeakOrder<T(!new)>(less: (T, T) -> bool, among: T -> bool) {
    && (forall a {:trigger less(a, a)} :: among(a) ==> !less(a, a))
    && (forall a, b, c {:trigger less(a, b), less(b, c)} ::
          among(a) && among(b) && among(c) && less(a, b) && less(b, c) ==> less(a, c))
    && (forall a, b, c {:trigger less(a, c), less(a, b)} {:trigger less(a, c), less(b, c)} ::
          among(a) && among(b) && among(c) && less(a, c) ==> less(a, b) || less(b, c))
  }

  lemma CircleIsNoOrder<T(!new)>(less: (T, T) -> bool, among: T -> bool, a: T, b: T, c: T)
    requires among(a) && among(b) && among(c)
    requires less(a, b) && less(b, c) && less(c, a)
    ensures !StrictWeakOrder(less, among)
  {
  }

  ghost predicate Sorted<T>(less: (T, T) -> bool, s: seq<T>) {
    forall i, j :: 0 <= i < j < |s| ==> !less(s[j], s[i])
  }

  ghost predicate AllAmong<T>(s: seq<T>, among: T -> bool) {
    forall i :: 0 <= i < |s| ==> among(s[i])
  }

  lemma {:induction false} InsertKeepsSorted<T(!new)>(less: (T, T) -> bool, among: T -> bool, s: seq<T>, x: T)
    requires StrictWeakOrder(less, among) && AllAmong(s, among) && among(x) && Sorted(less, s)
    ensures Sorted(less, Insert(less, s, x)) && AllAmong(Insert(less, s, x), among)
  {
    if s != [] && less(x, s[|s| - 1]) {
      var n := |s| - 1;
      InsertKeepsSorted(less, among, s[..n], x);
      var front := Insert(less, s[..n], x);
      forall i | 0 <= i < |front| ensures !less(s[n], front[i]) {
        InsertMembers(less, s[..n], x, i);
      }
    }
  }

  lemma {:induction false} SortSorts<T(!new)>(less: (T, T) -> bool, among: T -> bool, s: seq<T>)
    requires StrictWeakOrder(less, among) && AllAmong(s, among)
    ensures Sorted(less, Sort(less, s)) && AllAmong(Sort(less, s), among)
  {
    if s != [] {
      SortSorts(less, among, s[..|s| - 1]);
      InsertKeepsSorted(less, among, Sort(less, s[..|s| - 1]), s[|s| - 1]);
    }
  }

  ghost predicate StrictlySorted<T>(before: (T, T) -> bool, s: seq<T>) {
    forall i, j :: 0 <= i < j < |s| ==> before(s[i], s[j])
  }

  /** There is one way to sort distinct elements strictly. */
  lemma {:induction false} StrictSortingIsUnique<T(!new)>(before: (T, T) -> bool, a: seq<T>, b: seq<T>)
    requires forall x :: !before(x, x)
    requires forall x, y, z :: before(x, y) && before(y, z) ==> before(x, z)
    requires StrictlySorted(before, a) && StrictlySorted(before, b)
    requires |a| == |b| && forall x :: x in a <==> x in b
    ensures a == b
  {
    if a != [] {
      FirstIsUnique(before, a, b);
      var a', b' := a[1..], b[1..];
      forall x ensures x in a' <==> x in b' {
        TailIsRest(before, a, x);
        TailIsRest(before, b, x);
      }
      StrictSortingIsUnique(before, a', b');
      assert a == [a[0]] + a' && b == [b[0]] + b';
    }
  }

  lemma TailIsRest<T(!new)>(before: (T, T) -> bool, s: seq<T>, x: T)
    requires forall y :: !before(y, y)
    requires StrictlySorted(before, s) && s != []
    ensures x in s[1..] <==> x in s && x != s[0]
  {
    if x in s && x != s[0] {
      var i :| 0 <= i < |s| && s[i] == x;
      assert s[1..][i - 1] == x;
    }
    if x in s[1..] {
      var i :| 0 <= i < |s[1..]| && s[1..][i] == x;
      assert before(s[0], s[i + 1]);
    }
  }

  lemma FirstIsUnique<T(!new)>(before: (T, T) -> bool, a: seq<T>, b: seq<T>)
    requires forall x :: !before(x, x)
    requires forall x, y, z :: before(x, y) && before(y, z) ==> before(x, z)
    requires StrictlySorted(before, a) && StrictlySorted(before, b)
    requires |a| == |b| > 0 && forall x :: x in a <==> x in b
    ensures a[0] == b[0]
  {
    assert a[0] in b;
    var k :| 0 <= k < |b| && b[k] == a[0];
    assert b[0] in a;
    var m :| 0 <= m < |a| && a[m] == b[0];
  }

  ghost predicate Distinct<T>(s: seq<T>) {
    forall i, j :: 0 <= i < j < |s| ==> s[i] != s[j]
  }

  lemma {:induction false} DistinctSize<T>(s: seq<T>)
    requires Distinct(s)
    ensures |set x | x in s| == |s|
  {
    if s != [] {
      var n := |s| - 1;
      DistinctSize(s[..n]);
      assert s == s[..n] + [s[n]];
      assert (set x | x in s) == (set x | x in s[..n]) + {s[n]};
    }
  }

  lemma {:induction false} DistinctMultiplicity<T>(s: seq<T>, x: T)
    ensures Distinct(s) ==> multiset(s)[x] <= 1
    ensures multiset(s)[x] > 1 ==> exists i, j :: 0 <= i < j < |s| && s[i] == s[j] == x
  {
    if s != [] {
      var n := |s| - 1;
      assert s == s[..n] + [s[n]];
      DistinctMultiplicity(s[..n], x);
      if s[n] == x && multiset(s[..n])[x] > 0 {
        assert x in s[..n];
        var i :| 0 <= i < n && s[..n][i] == x;
        assert s[i] == s[n] == x;
      }
    }
  }

  /** A permutation of distinct elements has no repetition either. */
  lemma PermutationIsDistinct<T(!new)>(s: seq<T>, t: seq<T>)
    requires Distinct(s) && multiset(s) == multiset(t)
    ensures Distinct(t)
  {
    forall i, j | 0 <= i < j < |t| ensures t[i] != t[j] {
      DistinctMultiplicity(s, t[i]);
      assert t == t[..j] + [t[j]] + t[j + 1..];
      assert t[i] in t[..j];
    }
  }

  /** Sorting distinct elements by a total order has one possible result, whatever the order they come in. */
  lemma SortIsCanonical<T(!new)>(less: (T, T) -> bool, s: seq<T>)
    requires Distinct(s)
    requires StrictWeakOrder(less, x => true)
    requires forall x, y :: less(x, y) || x == y || less(y, x)
    ensures StrictlySorted(less, Sort(less, s))
    ensures |Sort(less, s)| == |s| && forall x :: x in Sort(less, s) <==> x in s
  {
    var t := Sort(less, s);
    SortSorts(less, x => true, s);
    SortIsPermutation(less, s);
    PermutationIsDistinct(s, t);
    assert |multiset(t)| == |t| && |multiset(s)| == |s|;
    forall x ensures x in t <==> x in s {
      assert x in t <==> x in multiset(t);
      assert x in s <==> x in multiset(s);
    }
  }

  // ---- stability ----

  /** Where an element first stands. */
  ghost function Position<T>(s: seq<T>, x: T): (i: nat)
    ensures x in s ==> i < |s| && s[i] == x
    ensures x !in s ==> i == |s|
  {
    if s == [] || s[0] == x then 0 else 1 + Position(s[1..], x)
  }

  /** The order a stable sort has to follow: by `less`, and by original position where that does not decide. */
  ghost predicate Precedes<T>(less: (T, T) -> bool, s: seq<T>, x: T, y: T) {
    less(x, y) || (!less(y, x) && Position(s, x) < Position(s, y))
  }

  ghost predicate StablySorted<T>(less: (T, T) -> bool, s: seq<T>, t: seq<T>) {
    forall i, j :: 0 <= i < j < |t| ==> Precedes(less, s, t[i], t[j])
  }

  /** What is not before the last element of a stably sorted list is before none of it. */
  lemma NotBeforeLast<T(!new)>(less: (T, T) -> bool, among: T -> bool, s: seq<T>, t: seq<T>, x: T, i: nat)
    requires StrictWeakOrder(less, among) && AllAmong(t, among) && among(x)
    requires StablySorted(less, s, t) && i < |t| && !less(x, t[|t| - 1])
    ensures !less(x, t[i])
  {
    if i < |t| - 1 {
      assert Precedes(less, s, t[i], t[|t| - 1]);
    }
  }

  lemma StablyAppended<T>(less: (T, T) -> bool, s: seq<T>, t: seq<T>, x: T)
    requires StablySorted(less, s, t)
    requires forall i :: 0 <= i < |t| ==> Precedes(less, s, t[i], x)
    ensures StablySorted(less, s, t + [x])
  {
  }

  lemma {:induction false} InsertIsStable<T(!new)>(less: (T, T) -> bool, among: T -> bool, s: seq<T>, t: seq<T>, x: T)
    requires StrictWeakOrder(less, among) && AllAmong(t, among) && among(x)
    requires StablySorted(less, s, t)
    requires forall i :: 0 <= i < |t| ==> Position(s, t[i]) < Position(s, x)
    ensures StablySorted(less, s, Insert(less, t, x))
  {
    if t != [] && less(x, t[|t| - 1]) {
      var n := |t| - 1;
      InsertIsStable(less, among, s, t[..n], x);
      var front := Insert(less, t[..n], x);
      forall i | 0 <= i < |front| ensures Precedes(less, s, front[i], t[n]) {
        InsertMembers(less, t[..n], x, i);
      }
      StablyAppended(less, s, front, t[n]);
    } else {
      forall i | 0 <= i < |t| ensures Precedes(less, s, t[i], x) {
        NotBeforeLast(less, among, s, t, x, i);
      }
      StablyAppended(less, s, t, x);
    }
  }

  lemma {:induction false} PositionInPrefix<T(!new)>(s: seq<T>, n: nat, x: T)
    requires n <= |s| && x in s[..n]
    ensures Position(s, x) == Position(s[..n], x)
  {
    if s[0] != x {
      assert s[1..][..n - 1] == s[..n][1..];
      PositionInPrefix(s[1..], n - 1, x);
    }
  }

  /** The last of distinct elements stands first where it stands. */
  lemma {:induction false} PositionOfLast<T>(s: seq<T>)
    requires s != [] && Distinct(s)
    ensures Position(s, s[|s| - 1]) == |s| - 1
  {
    if |s| > 1 {
      assert s[0] != s[|s| - 1];
      PositionOfLast(s[1..]);
    }
  }

  /** Sorting a prefix keeps the positions its elements have in the whole. */
  lemma SortedPrefixPositions<T(!new)>(less: (T, T) -> bool, s: seq<T>, n: nat, y: T)
    requires n <= |s| && y in Sort(less, s[..n])
    ensures Position(s, y) == Position(s[..n], y) < n
  {
    SortIsPermutation(less, s[..n]);
    assert y in multiset(Sort(less, s[..n]));
    assert y in s[..n];
    PositionInPrefix(s, n, y);
  }

  lemma StableInPrefix<T(!new)>(less: (T, T) -> bool, s: seq<T>, n: nat, t: seq<T>)
    requires n <= |s| && StablySorted(less, s[..n], t)
    requires forall i :: 0 <= i < |t| ==> Position(s, t[i]) == Position(s[..n], t[i])
    ensures StablySorted(less, s, t)
  {
    forall i, j | 0 <= i < j < |t| ensures Precedes(less, s, t[i], t[j]) {
      assert Precedes(less, s[..n], t[i], t[j]);
    }
  }

  lemma {:induction false} SortIsStable<T(!new)>(less: (T, T) -> bool, among: T -> bool, s: seq<T>)
    requires StrictWeakOrder(less, among) && AllAmong(s, among) && Distinct(s)
    ensures StablySorted(less, s, Sort(less, s))
  {
    if s != [] {
      var n := |s| - 1;
      SortIsStable(less, among, s[..n]);
      SortSorts(less, among, s[..n]);
      var t := Sort(less, s[..n]);
      forall i | 0 <= i < |t| ensures Position(s, t[i]) == Position(s[..n], t[i]) < n {
        SortedPrefixPositions(less, s, n, t[i]);
      }
      StableInPrefix(less, s, n, t);
      PositionOfLast(s);
      InsertIsStable(less, among, s, t, s[n]);
    }
  }

  lemma PrecedesIsTransitive<T(!new)>(less: (T, T) -> bool, among: T -> bool, s: seq<T>, x: T, y: T, z: T)
    requires StrictWeakOrder(less, among) && among(x) && among(y) && among(z)
    requires Precedes(less, s, x, y) && Precedes(less, s, y, z)
    ensures Precedes(less, s, x, z)
  {
  }

  /** Every stable sort of distinct elements gives this result, whatever its algorithm. */
  lemma StableSortIsUnique<T(!new)>(less: (T, T) -> bool, among: T -> bool, s: seq<T>, t: seq<T>)
    requires StrictWeakOrder(less, among) && AllAmong(s, among) && Distinct(s)
    requires multiset(t) == multiset(s) && StablySorted(less, s, t)
    ensures t == Sort(less, s)
  {
    var sorted := Sort(less, s);
    SortIsPermutation(less, s);
    SortIsStable(less, among, s);
    assert |multiset(t)| == |t| && |multiset(sorted)| == |sorted|;
    forall x ensures (x in t <==> x in s) && (x in sorted <==> x in s) {
      assert x in t <==> x in multiset(t);
      assert x in sorted <==> x in multiset(sorted);
      assert x in s <==> x in multiset(s);
    }
    var before := (x: T, y: T) => x in s && y in s && Precedes(less, s, x, y);
    forall x, y, z | before(x, y) && before(y, z) ensures before(x, z) {
      PrecedesIsTransitive(less, among, s, x, y, z);
    }
    StrictSortingIsUnique(before, t, sorted);
  }
}
