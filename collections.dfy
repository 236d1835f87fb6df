/**
 * Sequence helpers shared by the pipeline: `pandas.Series.unique()` (distinct
 * values in order of first appearance) and Python's `sorted` / `list.sort`
 * under a strict total order.
 */
module Collections {

  predicate NoDuplicates<T(==)>(s: seq<T>) {
    forall i, j :: 0 <= i < j < |s| ==> s[i] != s[j]
  }

  /** `pd.Series(s).unique()`: each value once, in order of first appearance. */
  function Distinct<T(==)>(s: seq<T>): (d: seq<T>)
    ensures NoDuplicates(d)
    ensures forall i :: 0 <= i < |s| ==> s[i] in d
    ensures forall i :: 0 <= i < |d| ==> d[i] in s
    ensures |d| <= |s|
  {
    if s == [] then []
    else
      var prefix := Distinct(s[..|s| - 1]);
      assert s == s[..|s| - 1] + [s[|s| - 1]];
      if s[|s| - 1] in prefix then prefix else prefix + [s[|s| - 1]]
  }

  /** The first distinct value is the first value. */
  lemma {:induction false} DistinctHead<T>(s: seq<T>)
    requires s != []
    ensures Distinct(s) != [] && Distinct(s)[0] == s[0]
  {
    if |s| > 1 {
      DistinctHead(s[..|s| - 1]);
    }
  }

  /** A duplicate-free sequence of all-equal values is `[s[0]]`: `unique()` of a constant column. */
  lemma {:induction false} DistinctConstant<T>(s: seq<T>)
    requires s != [] && forall k :: 0 <= k < |s| ==> s[k] == s[0]
    ensures Distinct(s) == [s[0]]
  {
    if |s| > 1 {
      DistinctConstant(s[..|s| - 1]);
    }
  }

  function Elements<T>(s: seq<T>): set<T> {
    set k | 0 <= k < |s| :: s[k]
  }

  lemma {:induction false} NoDuplicatesCard<T>(s: seq<T>)
    requires NoDuplicates(s)
    ensures |Elements(s)| == |s|
  {
    if s != [] {
      var init := s[..|s| - 1];
      NoDuplicatesCard(init);
      assert Elements(s) == Elements(init) + {s[|s| - 1]};
      assert s[|s| - 1] !in Elements(init);
    }
  }

  lemma SubsetCard<T>(a: set<T>, b: set<T>)
    requires a <= b
    ensures |a| <= |b|
  {
    assert b == a + (b - a);
  }

  /** A duplicate-free sequence drawn from `values` is no longer than `values` is large. */
  lemma DistinctWithin<T>(s: seq<T>, values: set<T>)
    requires NoDuplicates(s) && forall k :: 0 <= k < |s| ==> s[k] in values
    ensures |s| <= |values|
  {
    NoDuplicatesCard(s);
    SubsetCard(Elements(s), values);
  }

  /** The number of elements satisfying `p`. */
  function Count<T>(s: seq<T>, p: T -> bool): (n: nat)
    ensures n <= |s|
  {
    if s == [] then 0 else Count(s[..|s| - 1], p) + (if p(s[|s| - 1]) then 1 else 0)
  }

  lemma CountSingleton<T>(x: T, p: T -> bool)
    ensures Count([x], p) == if p(x) then 1 else 0
  {
    assert [x][..0] == [];
  }

  lemma {:induction false} CountAppend<T>(a: seq<T>, b: seq<T>, p: T -> bool)
    ensures Count(a + b, p) == Count(a, p) + Count(b, p)
  {
    if b != [] {
      CountAppend(a, b[..|b| - 1], p);
      assert (a + b)[..|a + b| - 1] == a + b[..|b| - 1];
      assert (a + b)[|a + b| - 1] == b[|b| - 1];
    } else {
      assert a + b == a;
    }
  }

  /** Two sequences that agree position by position on their predicates have equal counts. */
  lemma {:induction false} CountCorresponds<T, U>(a: seq<T>, b: seq<U>, p: T -> bool, q: U -> bool)
    requires |a| == |b| && forall k :: 0 <= k < |a| ==> p(a[k]) == q(b[k])
    ensures Count(a, p) == Count(b, q)
  {
    if a != [] {
      CountCorresponds(a[..|a| - 1], b[..|b| - 1], p, q);
    }
  }

  /** Some element satisfies `p` exactly when the count is positive. */
  lemma {:induction false} CountPositive<T>(s: seq<T>, p: T -> bool)
    ensures Count(s, p) > 0 <==> exists k :: 0 <= k < |s| && p(s[k])
  {
    if s != [] {
      var init := s[..|s| - 1];
      CountPositive(init, p);
      if exists k :: 0 <= k < |init| && p(init[k]) {
        var k :| 0 <= k < |init| && p(init[k]);
        assert s[k] == init[k];
      }
      if exists k :: 0 <= k < |s| && p(s[k]) {
        var k :| 0 <= k < |s| && p(s[k]);
        if k < |init| { assert init[k] == s[k]; }
      }
    }
  }

  /** When every element satisfies exactly one of `p` and `q`, the two counts add up to the length. */
  lemma {:induction false} CountSplit<T>(s: seq<T>, p: T -> bool, q: T -> bool)
    requires forall k :: 0 <= k < |s| ==> p(s[k]) != q(s[k])
    ensures Count(s, p) + Count(s, q) == |s|
  {
    if s != [] {
      var init := s[..|s| - 1];
      assert forall k :: 0 <= k < |init| ==> init[k] == s[k];
      CountSplit(init, p, q);
    }
  }

  // ---------------------------------------------------------------------------
  // Sorting under a strict total order
  // ---------------------------------------------------------------------------

  ghost predicate IsStrictTotalOrder<T(!new)>(less: (T, T) -> bool) {
    && (forall a :: !less(a, a))
    && (forall a, b, c :: less(a, b) && less(b, c) ==> less(a, c))
    && (forall a, b :: a != b ==> less(a, b) || less(b, a))
  }

  /** No element is smaller than one before it. */
  predicate SortedBy<T>(s: seq<T>, less: (T, T) -> bool) {
    forall i, j :: 0 <= i < j < |s| ==> !less(s[j], s[i])
  }

  /** Every element is smaller than every later one (sorted and duplicate-free). */
  predicate StrictlySortedBy<T>(s: seq<T>, less: (T, T) -> bool) {
    forall i, j :: 0 <= i < j < |s| ==> less(s[i], s[j])
  }

  /** Puts `x` after every element that is not larger than it. */
  function InsertBy<T>(s: seq<T>, x: T, less: (T, T) -> bool): (r: seq<T>)
    ensures multiset(r) == multiset(s) + multiset{x}
    ensures |r| == |s| + 1
  {
    if s == [] then [x]
    else if less(x, s[0]) then [x] + s
    else
      assert s == [s[0]] + s[1..];
      [s[0]] + InsertBy(s[1..], x, less)
  }

  /** Python's `sorted(s)`, written as an insertion sort; `SortedUnique` shows any sort gives the same list. */
  function SortBy<T>(s: seq<T>, less: (T, T) -> bool): (r: seq<T>)
    ensures multiset(r) == multiset(s)
  {
    if s == [] then []
    else
      assert s == s[..|s| - 1] + [s[|s| - 1]];
      InsertBy(SortBy(s[..|s| - 1], less), s[|s| - 1], less)
  }

  lemma {:induction false} InsertKeepsSorted<T(!new)>(s: seq<T>, x: T, less: (T, T) -> bool)
    requires IsStrictTotalOrder(less)
    requires SortedBy(s, less)
    ensures SortedBy(InsertBy(s, x, less), less)
  {
    if s != [] && !less(x, s[0]) {
      var tail := InsertBy(s[1..], x, less);
      InsertKeepsSorted(s[1..], x, less);
      forall k | 0 <= k < |tail| ensures !less(tail[k], s[0]) {
        assert tail[k] in multiset(tail);
        assert tail[k] in multiset(s[1..]) || tail[k] == x;
        if tail[k] != x {
          var j :| 0 <= j < |s[1..]| && s[1..][j] == tail[k];
          assert s[j + 1] == tail[k];
        }
      }
    }
  }

  lemma {:induction false} InsertKeepsStrictlySorted<T(!new)>(s: seq<T>, x: T, less: (T, T) -> bool)
    requires IsStrictTotalOrder(less)
    requires StrictlySortedBy(s, less) && x !in s
    ensures StrictlySortedBy(InsertBy(s, x, less), less)
  {
    if s != [] && !less(x, s[0]) {
      assert x != s[0];
      var tail := InsertBy(s[1..], x, less);
      InsertKeepsStrictlySorted(s[1..], x, less);
      forall k | 0 <= k < |tail| ensures less(s[0], tail[k]) {
        assert tail[k] in multiset(tail);
        assert tail[k] in multiset(s[1..]) || tail[k] == x;
        if tail[k] != x {
          var j :| 0 <= j < |s[1..]| && s[1..][j] == tail[k];
          assert s[j + 1] == tail[k];
        }
      }
    }
  }

  /** `sorted` returns a sorted permutation of its input. */
  lemma {:induction false} SortBySorts<T(!new)>(s: seq<T>, less: (T, T) -> bool)
    requires IsStrictTotalOrder(less)
    ensures SortedBy(SortBy(s, less), less)
    ensures multiset(SortBy(s, less)) == multiset(s)
  {
    if s != [] {
      SortBySorts(s[..|s| - 1], less);
      InsertKeepsSorted(SortBy(s[..|s| - 1], less), s[|s| - 1], less);
    }
  }

  /**
   * Under a strict total order there is only one sorted arrangement of a
   * multiset, so the list Python's (stable) sort returns is the one `SortBy` returns.
   */
  lemma {:induction false} SortedUnique<T(!new)>(a: seq<T>, b: seq<T>, less: (T, T) -> bool)
    requires IsStrictTotalOrder(less)
    requires SortedBy(a, less) && SortedBy(b, less)
    requires multiset(a) == multiset(b)
    ensures a == b
  {
    if a != [] {
      SortedTails(a, b, less);
      SortedUnique(a[1..], b[1..], less);
      assert a == [a[0]] + a[1..] && b == [b[0]] + b[1..];
    }
  }

  /** Two sorted arrangements of one multiset start alike and continue with sorted arrangements of one multiset. */
  lemma SortedTails<T(!new)>(a: seq<T>, b: seq<T>, less: (T, T) -> bool)
    requires IsStrictTotalOrder(less)
    requires SortedBy(a, less) && SortedBy(b, less)
    requires multiset(a) == multiset(b) && a != []
    ensures b != [] && a[0] == b[0]
    ensures SortedBy(a[1..], less) && SortedBy(b[1..], less) && multiset(a[1..]) == multiset(b[1..])
  {
    assert |b| == |a| by {
      assert |multiset(a)| == |a| && |multiset(b)| == |b|;
    }
    SortedHeadsAgree(a, b, less);
    DropHead(a);
    DropHead(b);
  }

  lemma SortedHeadsAgree<T(!new)>(a: seq<T>, b: seq<T>, less: (T, T) -> bool)
    requires IsStrictTotalOrder(less)
    requires SortedBy(a, less) && SortedBy(b, less)
    requires multiset(a) == multiset(b) && a != [] && b != []
    ensures a[0] == b[0]
  {
    assert a[0] in multiset(b);
    var kb :| 0 <= kb < |b| && b[kb] == a[0];
    assert b[0] in multiset(a);
    var ka :| 0 <= ka < |a| && a[ka] == b[0];
    assert !less(a[0], b[0]) by { if kb > 0 { assert !less(b[kb], b[0]); } }
    assert !less(b[0], a[0]) by { if ka > 0 { assert !less(a[ka], a[0]); } }
  }

  lemma DropHead<T>(a: seq<T>)
    requires a != []
    ensures multiset(a[1..]) == multiset(a) - multiset{a[0]}
  {
    assert a == [a[0]] + a[1..];
    assert multiset(a) == multiset{a[0]} + multiset(a[1..]);
  }

  /** `sorted(list(s))` for a set: every element once, in increasing order. */
  method SortedFromSet<T(!new)>(s: set<T>, less: (T, T) -> bool) returns (r: seq<T>)
    requires IsStrictTotalOrder(less)
    ensures StrictlySortedBy(r, less)
    ensures forall x :: x in r <==> x in s
    ensures |r| == |s|
  {
    r := [];
    var rest := s;
    while rest != {}
      invariant StrictlySortedBy(r, less)
      invariant forall x :: x in s <==> x in r || x in rest
      invariant forall x :: x in r ==> x !in rest
      invariant |r| + |rest| == |s|
      decreases |rest|
    {
      var x :| x in rest;
      InsertKeepsStrictlySorted(r, x, less);
      var r' := InsertBy(r, x, less);
      assert forall y :: y in r' <==> y in r || y == x by {
        forall y ensures y in r' <==> y in r || y == x {
          assert y in r' <==> y in multiset(r');
          assert y in r <==> y in multiset(r);
        }
      }
      r := r';
      rest := rest - {x};
    }
  }

  // ---------------------------------------------------------------------------
  // numpy.unique: the distinct values in increasing order
  // ---------------------------------------------------------------------------

  function IntLess(): (int, int) -> bool {
    (a: int, b: int) => a < b
  }

  lemma IntLessIsOrder()
    ensures IsStrictTotalOrder(IntLess())
  {
  }

  /** A value occurs at most once in a duplicate-free sequence. */
  lemma {:induction false} NoDuplicatesMultiset<T>(s: seq<T>, x: T)
    requires NoDuplicates(s)
    ensures multiset(s)[x] <= 1
  {
    if s != [] {
      var init := s[..|s| - 1];
      assert s == init + [s[|s| - 1]];
      NoDuplicatesMultiset(init, x);
      if x == s[|s| - 1] {
        assert x !in init;
      }
    }
  }

  /** Reordering a duplicate-free sequence keeps it duplicate-free. */
  lemma NoDuplicatesPermutation<T>(a: seq<T>, b: seq<T>)
    requires NoDuplicates(a) && multiset(a) == multiset(b)
    ensures NoDuplicates(b)
  {
    forall i, j | 0 <= i < j < |b| ensures b[i] != b[j] {
      if b[i] == b[j] {
        var x := b[i];
        assert b == b[..j] + b[j..];
        assert x in b[..j] && x in b[j..];
        assert multiset(b)[x] == multiset(b[..j])[x] + multiset(b[j..])[x];
        NoDuplicatesMultiset(a, x);
        assert false;
      }
    }
  }

  /** `np.unique(s)`: every value of `s` once, in increasing order. */
  function UniqueSorted(s: seq<int>): (u: seq<int>)
    ensures StrictlySortedBy(u, IntLess())
    ensures forall x :: x in u <==> x in s
  {
    var d := Distinct(s);
    var u := SortBy(d, IntLess());
    IntLessIsOrder();
    SortBySorts(d, IntLess());
    NoDuplicatesPermutation(d, u);
    assert forall x :: x in u <==> x in multiset(d);
    u
  }

  /** Appending one value to the input of `Distinct`. */
  lemma DistinctSnoc<T>(s: seq<T>, x: T)
    ensures Distinct(s + [x]) == if x in Distinct(s) then Distinct(s) else Distinct(s) + [x]
  {
    assert (s + [x])[..|s|] == s;
  }

  /** `list.append(x)` then `list.sort()` on a list that was sorted: the same as sorting the whole list. */
  lemma ResortAppend<T(!new)>(s: seq<T>, x: T, less: (T, T) -> bool)
    requires IsStrictTotalOrder(less)
    ensures SortBy(SortBy(s, less) + [x], less) == SortBy(s + [x], less)
  {
    SortBySorts(SortBy(s, less) + [x], less);
    SortBySorts(s + [x], less);
    SortedUnique(SortBy(SortBy(s, less) + [x], less), SortBy(s + [x], less), less);
  }

  // ---------------------------------------------------------------------------
  // dict(pairs): a later pair for the same key overwrites an earlier one
  // ---------------------------------------------------------------------------

  /** The dict built by assigning `d[k] = v` for each pair in order. */
  function MapOf<K, V>(pairs: seq<(K, V)>): map<K, V> {
    if pairs == [] then map[]
    else MapOf(pairs[..|pairs| - 1])[pairs[|pairs| - 1].0 := pairs[|pairs| - 1].1]
  }

  /** The keys of the dict are the keys of the pairs. */
  lemma {:induction false} MapOfKeys<K, V>(pairs: seq<(K, V)>, k: K)
    ensures k in MapOf(pairs) <==> exists t :: 0 <= t < |pairs| && pairs[t].0 == k
  {
    if pairs != [] {
      var init := pairs[..|pairs| - 1];
      MapOfKeys(init, k);
      if exists t :: 0 <= t < |init| && init[t].0 == k {
        var t :| 0 <= t < |init| && init[t].0 == k;
        assert pairs[t] == init[t];
      }
      if exists t :: 0 <= t < |pairs| && pairs[t].0 == k {
        var t :| 0 <= t < |pairs| && pairs[t].0 == k;
        if t < |init| { assert init[t] == pairs[t]; }
      }
    }
  }

  /** A key's value is the one of its last pair. */
  lemma {:induction false} MapOfLastWins<K, V>(pairs: seq<(K, V)>, t: nat)
    requires t < |pairs|
    requires forall u :: t < u < |pairs| ==> pairs[u].0 != pairs[t].0
    ensures pairs[t].0 in MapOf(pairs) && MapOf(pairs)[pairs[t].0] == pairs[t].1
  {
    if t < |pairs| - 1 {
      var init := pairs[..|pairs| - 1];
      assert init[t] == pairs[t];
      MapOfLastWins(init, t);
    }
  }

  /** A position of an element of a sequence. */
  lemma IndexOf<T>(s: seq<T>, x: T) returns (k: nat)
    requires x in s
    ensures k < |s| && s[k] == x
  {
    k :| 0 <= k < |s| && s[k] == x;
  }
}
