/**
  Shared vocabulary: nullable values, times, the byte-wise order on strings, and
  the enumeration of a set in a strict order.  Go's sorted listings
  and its lexical directory walk are instances of that enumeration.
 */
module Common {

  datatype Option<+T> = None | Some(value: T)

  /** Instants; the zero value of Go's time.Time is ZERO_TIME. */
  type Time = int
  const ZERO_TIME: Time := 0

  function Min(a: int, b: int): int { if a < b then a else b }

  // ----- strings ----------------------------------------------------------

  /** Go's `<` on strings. */
  predicate StringLess(a: string, b: string) {
    if b == [] then false
    else if a == [] then true
    else a[0] < b[0] || (a[0] == b[0] && StringLess(a[1..], b[1..]))
  }

  lemma {:induction false} StringTrichotomy(a: string, b: string)
    ensures a == b || StringLess(a, b) || StringLess(b, a)
    ensures !(StringLess(a, b) && StringLess(b, a))
    ensures a == b ==> !StringLess(a, b)
  {
    if a != [] && b != [] {
      StringTrichotomy(a[1..], b[1..]);
      assert a == [a[0]] + a[1..] && b == [b[0]] + b[1..];
    }
  }

  lemma {:induction false} StringTransitive(a: string, b: string, c: string)
    requires StringLess(a, b) && StringLess(b, c)
    ensures StringLess(a, c)
  {
    if a != [] && a[0] == b[0] == c[0] {
      StringTransitive(a[1..], b[1..], c[1..]);
    }
  }

  /** Appending to a string makes it greater: "x" is walked before "x.copy". */
  lemma {:induction false} StringLessExtension(a: string, suffix: string)
    requires suffix != []
    ensures StringLess(a, a + suffix)
  {
    if a != [] {
      StringLessExtension(a[1..], suffix);
      assert (a + suffix)[1..] == a[1..] + suffix;
    }
  }

  /** That is: at the first difference the smaller character, or no difference up to the end of a. */
  lemma {:induction false} StringLessExactly(a: string, b: string)
    ensures StringLess(a, b) <==>
              exists k :: 0 <= k <= |a| && k < |b| && a[..k] == b[..k] && (k < |a| ==> a[k] < b[k])
  {
    if a != [] && b != [] {
      StringLessExactly(a[1..], b[1..]);
      if StringLess(a[1..], b[1..]) && a[0] == b[0] {
        var k :| && 0 <= k <= |a[1..]| && k < |b[1..]| && a[1..][..k] == b[1..][..k]
                 && (k < |a[1..]| ==> a[1..][k] < b[1..][k]);
        assert a[..k + 1] == [a[0]] + a[1..][..k] && b[..k + 1] == [b[0]] + b[1..][..k];
      }
      if k :| 0 <= k <= |a| && k < |b| && a[..k] == b[..k] && (k < |a| ==> a[k] < b[k]) {
        if k > 0 {
          assert a[0] == a[..k][0] == b[..k][0] == b[0];
          assert a[1..][..k - 1] == a[..k][1..] && b[1..][..k - 1] == b[..k][1..];
        }
      }
      if a[0] < b[0] { assert a[..0] == b[..0]; }
    } else if b != [] {
      assert a[..0] == b[..0];
    }
  }

  // ----- strict orders ------------------------------------------------------

  ghost predicate Asymmetric<T(!new)>(less: (T, T) -> bool) {
    forall x, y :: less(x, y) ==> !less(y, x)
  }

  ghost predicate Ascending<T(!new)>(less: (T, T) -> bool, s: seq<T>) {
    forall i, j :: 0 <= i < j < |s| ==> less(s[i], s[j])
  }

  /** The enumeration in order is unique. */
  lemma {:induction false} AscendingUnique<T(!new)>(less: (T, T) -> bool, a: seq<T>, b: seq<T>)
    requires Asymmetric(less) && Ascending(less, a) && Ascending(less, b)
    requires forall x :: x in a <==> x in b
    ensures a == b
  {
    assert b != [] ==> b[0] in b;
    if a != [] {
      assert a[0] in b && b != [];
      assert b[0] in a;
      var i :| 0 <= i < |b| && b[i] == a[0];
      var j :| 0 <= j < |a| && a[j] == b[0];
      assert a[0] == b[0];
      forall x ensures x in a[1..] <==> x in b[1..] {
        if x in a[1..] {
          var k :| 0 <= k < |a[1..]| && a[1..][k] == x;
          assert x == a[k + 1] && less(a[0], x) && x in b;
        }
        if x in b[1..] {
          var k :| 0 <= k < |b[1..]| && b[1..][k] == x;
          assert x == b[k + 1] && less(b[0], x) && x in a;
        }
      }
      AscendingUnique(less, a[1..], b[1..]);
      assert a == [a[0]] + a[1..] && b == [b[0]] + b[1..];
    }
  }

  // ----- sort.Slice -----------------------------------------------------------

  /** What sort.Slice demands of its comparison: a strict weak order. */
  ghost predicate StrictWeak<T(!new)>(before: (T, T) -> bool) {
    && (forall x, y :: before(x, y) ==> !before(y, x))
    && (forall x, y, z :: !before(y, x) && !before(z, y) ==> !before(z, x))
  }

  ghost predicate Ordered<T>(before: (T, T) -> bool, s: seq<T>) {
    forall i, j :: 0 <= i < j < |s| ==> !before(s[j], s[i])
  }

  /** No value occurs twice. */
  ghost predicate Distinct<T>(s: seq<T>) {
    forall i, j :: 0 <= i < j < |s| ==> s[i] != s[j]
  }

  /** The only promise of sort.Slice: the same elements, in order; equal keys come in any order. */
  method SortSlice<T(!new)>(a: seq<T>, before: (T, T) -> bool) returns (b: seq<T>)
    requires StrictWeak(before)
    ensures multiset(b) == multiset(a)
    ensures Ordered(before, b)
  {
    b := [];
    for n := 0 to |a|
      invariant multiset(b) == multiset(a[..n])
      invariant Ordered(before, b)
    {
      assert a[..n + 1] == a[..n] + [a[n]];
      FitsOrdered(b, a[n], before);
      b := InsertOrdered(b, a[n], before);
    }
    assert a[..|a|] == a;
  }

  /** x goes below nothing it should precede: what is not after s[j] is not after anything before s[j]. */
  ghost predicate Fits<T>(s: seq<T>, x: T, before: (T, T) -> bool) {
    && (forall i :: 0 <= i < |s| && before(x, s[i]) ==> !before(s[i], x))
    && (forall i, j :: 0 <= i < j < |s| && !before(x, s[j]) ==> !before(x, s[i]))
  }

  lemma FitsOrdered<T(!new)>(s: seq<T>, x: T, before: (T, T) -> bool)
    requires StrictWeak(before) && Ordered(before, s)
    ensures Fits(s, x, before)
  {
    forall i, j | 0 <= i < j < |s| && !before(x, s[j]) ensures !before(x, s[i]) {
      assert !before(s[j], s[i]);
    }
  }

  method InsertOrdered<T>(s: seq<T>, x: T, before: (T, T) -> bool) returns (r: seq<T>)
    requires Ordered(before, s) && Fits(s, x, before)
    ensures multiset(r) == multiset(s) + multiset{x}
    ensures Ordered(before, r)
  {
    var k := |s|;
    while k > 0 && before(x, s[k - 1])
      invariant 0 <= k <= |s|
      invariant forall i :: k <= i < |s| ==> !before(s[i], x)
    {
      k := k - 1;
    }
    OrderedInsertion(s, x, k, before);
    assert s == s[..k] + s[k..];
    r := s[..k] + [x] + s[k..];
  }

  lemma {:induction false} OrderedInsertion<T>(s: seq<T>, x: T, k: nat, before: (T, T) -> bool)
    requires Ordered(before, s) && k <= |s|
    requires forall i :: 0 <= i < k ==> !before(x, s[i])
    requires forall i :: k <= i < |s| ==> !before(s[i], x)
    ensures Ordered(before, s[..k] + [x] + s[k..])
  {
    var r := s[..k] + [x] + s[k..];
    forall i, j | 0 <= i < j < |r| ensures !before(r[j], r[i]) {
      assert r[i] == if i < k then s[i] else if i == k then x else s[i - 1];
      assert r[j] == if j < k then s[j] else if j == k then x else s[j - 1];
    }
  }

  lemma {:induction false} SameElements<T>(a: seq<T>, b: seq<T>)
    requires multiset(a) == multiset(b)
    ensures |a| == |b|
    ensures forall x :: x in a <==> x in b
    ensures Distinct(a) ==> Distinct(b)
  {
    assert |multiset(a)| == |multiset(b)|;
    forall x ensures x in a <==> x in b {
      assert x in a <==> x in multiset(a);
      assert x in b <==> x in multiset(b);
    }
    if Distinct(a) && !Distinct(b) {
      var i, j :| 0 <= i < j < |b| && b[i] == b[j];
      TwiceInMultiset(b, i, j);
      DistinctOnce(a, b[i]);
      assert false;
    }
  }

  lemma {:induction false} TwiceInMultiset<T>(s: seq<T>, i: nat, j: nat)
    requires i < j < |s| && s[i] == s[j]
    ensures multiset(s)[s[i]] >= 2
  {
    assert s == s[..j] + s[j..];
    assert s[i] in s[..j] && s[j] in s[j..];
  }

  lemma {:induction false} DistinctOnce<T>(s: seq<T>, x: T)
    requires Distinct(s)
    ensures multiset(s)[x] <= 1
  {
    if s != [] {
      DistinctOnce(s[1..], x);
      assert s == [s[0]] + s[1..];
      assert s[0] !in s[1..];
    }
  }

  lemma DistinctSameElements<T>(a: seq<T>, b: seq<T>)
    requires Distinct(a) && Distinct(b) && forall x :: x in a <==> x in b
    ensures multiset(a) == multiset(b) && |a| == |b|
  {
    forall x ensures multiset(a)[x] == multiset(b)[x] {
      DistinctOnce(a, x);
      DistinctOnce(b, x);
      assert x in multiset(a) <==> x in a;
      assert x in multiset(b) <==> x in b;
    }
    assert multiset(a) == multiset(b);
    SameElements(a, b);
  }

  ghost predicate Rising<T>(key: T -> int, s: seq<T>) {
    forall i, j :: 0 <= i < j < |s| ==> key(s[i]) <= key(s[j])
  }

  /** Taking a greatest element out leaves the keys before the last place. */
  lemma WithoutGreatest<T>(key: T -> int, s: seq<T>, j: nat)
    requires Rising(key, s) && j < |s| && key(s[|s| - 1]) <= key(s[j])
    ensures var rest := s[..j] + s[j + 1..];
            Rising(key, rest) && forall k :: 0 <= k < |rest| ==> key(rest[k]) == key(s[k])
    ensures key(s[|s| - 1]) == key(s[j])
  {
    var rest := s[..j] + s[j + 1..];
    forall k | j <= k < |s| ensures key(s[k]) == key(s[j]) {
      assert k > j ==> key(s[j]) <= key(s[k]);
      assert k < |s| - 1 ==> key(s[k]) <= key(s[|s| - 1]);
    }
    forall k | 0 <= k < |rest| ensures key(rest[k]) == key(s[k]) {
      assert rest[k] == if k < j then s[k] else s[k + 1];
    }
  }

  lemma MultisetWithout<T>(s: seq<T>, j: nat)
    requires j < |s|
    ensures multiset(s[..j] + s[j + 1..]) == multiset(s) - multiset{s[j]}
  {
    assert s == s[..j] + [s[j]] + s[j + 1..];
  }

  lemma GreatestIsIn<T>(key: T -> int, a: seq<T>, b: seq<T>) returns (j: nat)
    requires multiset(a) == multiset(b) && Rising(key, a) && a != []
    ensures |a| == |b| && j < |b| && b[j] == a[|a| - 1] && key(b[|b| - 1]) <= key(b[j])
  {
    SameElements(a, b);
    var n := |a| - 1;
    assert a[n] in b && b[n] in a;
    j :| 0 <= j < |b| && b[j] == a[n];
    var i :| 0 <= i < |a| && a[i] == b[n];
    assert i < n ==> key(a[i]) <= key(a[n]);
  }

  lemma WithoutTheSame<T>(a: seq<T>, b: seq<T>, j: nat)
    requires multiset(a) == multiset(b) && a != [] && j < |b| && b[j] == a[|a| - 1]
    ensures multiset(a[..|a| - 1]) == multiset(b[..j] + b[j + 1..])
  {
    var n := |a| - 1;
    MultisetWithout(b, j);
    MultisetWithout(a, n);
    assert a[..n] + a[n + 1..] == a[..n];
  }

  /** Two arrangements in order of the same elements show the same keys, however ties are broken. */
  lemma {:induction false} SameKeys<T>(key: T -> int, a: seq<T>, b: seq<T>)
    requires multiset(a) == multiset(b) && Rising(key, a) && Rising(key, b)
    ensures |a| == |b| && forall i :: 0 <= i < |a| ==> key(a[i]) == key(b[i])
    decreases |a|
  {
    if a == [] {
      assert |multiset(b)| == 0;
    } else {
      var n := |a| - 1;
      var j := GreatestIsIn(key, a, b);
      WithoutGreatest(key, b, j);
      WithoutTheSame(a, b, j);
      assert Rising(key, a[..n]);
      SameKeys(key, a[..n], b[..j] + b[j + 1..]);
    }
  }

  // ----- filtering ----------------------------------------------------------------------

  /** The elements to keep, in order. */
  function Filter<T>(s: seq<T>, keep: T -> bool): seq<T> {
    if s == [] then [] else if keep(s[0]) then [s[0]] + Filter(s[1..], keep) else Filter(s[1..], keep)
  }

  lemma {:induction false} FilterConcat<T>(a: seq<T>, b: seq<T>, keep: T -> bool)
    ensures Filter(a + b, keep) == Filter(a, keep) + Filter(b, keep)
  {
    if a == [] {
      assert a + b == b;
    } else {
      FilterConcat(a[1..], b, keep);
      assert (a + b)[1..] == a[1..] + b;
    }
  }

  /** t is s with some elements left out. */
  ghost predicate Subsequence<T>(t: seq<T>, s: seq<T>) {
    t == [] || (s != [] && ((t[0] == s[0] && Subsequence(t[1..], s[1..])) || Subsequence(t, s[1..])))
  }

  lemma {:induction false} FilterIsSubsequence<T>(s: seq<T>, keep: T -> bool)
    ensures Subsequence(Filter(s, keep), s)
    ensures forall x :: keep(x) ==> multiset(Filter(s, keep))[x] == multiset(s)[x]
  {
    if s != [] {
      FilterIsSubsequence(s[1..], keep);
      assert s == [s[0]] + s[1..];
      assert keep(s[0]) ==> Filter(s, keep)[1..] == Filter(s[1..], keep);
    }
  }

  /** at[k] is where the k-th element kept of the first n comes from; nothing to keep is missing. */
  ghost predicate Places<T>(s: seq<T>, keep: T -> bool, n: nat, out: seq<T>, at: seq<nat>) {
    && n <= |s| && |at| == |out|
    && (forall k :: 0 <= k < |at| ==> at[k] < n && s[at[k]] == out[k] && keep(out[k]))
    && (forall k, l :: 0 <= k < l < |at| ==> at[k] < at[l])
    && (forall i :: 0 <= i < n && keep(s[i]) ==> i in at)
  }

  lemma {:induction false} FilterPlaces<T>(s: seq<T>, keep: T -> bool, n: nat) returns (at: seq<nat>)
    requires n <= |s|
    ensures Places(s, keep, n, Filter(s[..n], keep), at)
  {
    at := [];
    if n > 0 {
      at := FilterPlaces(s, keep, n - 1);
      var x := s[n - 1];
      assert s[..n] == s[..n - 1] + [x] && [x][1..] == [];
      FilterConcat(s[..n - 1], [x], keep);
      if keep(x) { at := PlacesNext(s, keep, n - 1, Filter(s[..n - 1], keep), at); }
    }
  }

  lemma PlacesNext<T>(s: seq<T>, keep: T -> bool, n: nat, out: seq<T>, at: seq<nat>) returns (at': seq<nat>)
    requires n < |s| && keep(s[n]) && Places(s, keep, n, out, at)
    ensures Places(s, keep, n + 1, out + [s[n]], at')
  {
    at' := at + [n];
    forall i | 0 <= i < n + 1 && keep(s[i]) ensures i in at' {
      if i == n { assert at'[|at|] == n; }
    }
  }

  lemma {:induction false} FilterAscending<T(!new)>(less: (T, T) -> bool, s: seq<T>, keep: T -> bool)
    requires Ascending(less, s)
    ensures Ascending(less, Filter(s, keep))
  {
    if s != [] {
      FilterAscending(less, s[1..], keep);
      FilterShorter(s[1..], keep);
      var rest := Filter(s[1..], keep);
      forall j | 0 <= j < |rest| ensures less(s[0], rest[j]) {
        assert rest[j] in rest && rest[j] in s[1..];
        var i :| 0 <= i < |s[1..]| && s[1..][i] == rest[j];
        assert s[i + 1] == rest[j];
      }
    }
  }

  lemma {:induction false} FilterShorter<T>(s: seq<T>, keep: T -> bool)
    ensures |Filter(s, keep)| <= |s|
    ensures forall x :: x in Filter(s, keep) <==> x in s && keep(x)
  {
    if s != [] { FilterShorter(s[1..], keep); }
  }

  /** Deleting map entries while ranging over the map. */
  method Purge<T>(m: map<string, T>, keep: T -> bool) returns (left: map<string, T>)
    ensures left == map k | k in m && keep(m[k]) :: m[k]
  {
    left := m;
    var todo := m.Keys;
    while todo != {}
      invariant todo <= left.Keys <= m.Keys
      invariant forall k :: k in left ==> left[k] == m[k]
      invariant forall k :: k in m ==> (k in left <==> k in todo || keep(m[k]))
      decreases todo
    {
      var k :| k in todo;
      if !keep(left[k]) {
        left := left - {k};
      }
      todo := todo - {k};
    }
  }

  // ----- records of steps ---------------------------------------------------------------

  /** The state after n of the recorded steps. */
  function StateAt<S, E>(after: E -> S, a: S, trail: seq<E>, n: nat): S
    requires n <= |trail|
  {
    if n == 0 then a else after(trail[n - 1])
  }

  /** The recorded steps lead from a to b, each from the state the one before left. */
  ghost predicate Linked<S, E>(after: E -> S, follows: (S, E) -> bool, a: S, trail: seq<E>, b: S) {
    && StateAt(after, a, trail, |trail|) == b
    && forall n :: 0 <= n < |trail| ==> follows(StateAt(after, a, trail, n), trail[n])
  }

  lemma LinkedNext<S, E>(after: E -> S, follows: (S, E) -> bool, a: S, trail: seq<E>, b: S, e: E)
    requires Linked(after, follows, a, trail, b) && follows(b, e)
    ensures Linked(after, follows, a, trail + [e], after(e))
  {
    forall n | 0 <= n <= |trail| ensures StateAt(after, a, trail + [e], n) == StateAt(after, a, trail, n) {
    }
  }

  lemma LinkedConcat<S, E>(after: E -> S, follows: (S, E) -> bool, a: S, x: seq<E>, b: S, y: seq<E>, c: S)
    requires Linked(after, follows, a, x, b) && Linked(after, follows, b, y, c)
    ensures Linked(after, follows, a, x + y, c)
  {
    forall n | 0 <= n <= |x + y|
      ensures StateAt(after, a, x + y, n)
           == if n <= |x| then StateAt(after, a, x, n) else StateAt(after, b, y, n - |x|)
    {
    }
    assert StateAt(after, b, y, 0) == StateAt(after, a, x, |x|);
    forall n | |x| <= n < |x + y| ensures follows(StateAt(after, a, x + y, n), (x + y)[n]) {
      assert follows(StateAt(after, b, y, n - |x|), y[n - |x|]);
    }
  }
}
