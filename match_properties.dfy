/**
 * What the rows `process_subject` writes for one subject say about the two
 * readers' lesions, proved about the origin specification of `LesionMatching`.
 */
module MatchProperties {
  import opened Wrappers
  import opened Readers
  import opened Strings
  import opened Collections
  import opened LesionMatching

  /** The origin describes reader-2 lesion `j`. */
  predicate CarriesReader2(o: Origin, j: nat) {
    (o.Paired? || o.Reader2Only?) && o.j == j
  }

  function Reader2Of(j: nat): Origin -> bool {
    o => CarriesReader2(o, j)
  }

  predicate HasReader2(o: Origin) {
    o.Paired? || o.Reader2Only?
  }

  /** Counts the rows with an empty Reader_2 field. */
  function Reader1Alone(): Origin -> bool {
    (o: Origin) => o.Reader1Only?
  }

  /** Counts the rows with a reader-2 lesion. */
  function AnyReader2(): Origin -> bool {
    (o: Origin) => HasReader2(o)
  }

  /** Reader-1 lesion `i` is not the first overlap of any reader-2 lesion. */
  predicate Unmatched(r1: seq<Path>, r2: seq<Path>, ov: (Path, Path) -> bool, i: nat)
    requires i < |r1|
  {
    forall j :: 0 <= j < |r2| ==> !FirstOverlap(r1, r2, ov, i, j)
  }

  /** Some reader-1 lesion among the first `n` overlaps reader-2 lesion `j`. */
  predicate OverlappedBefore(r1: seq<Path>, r2: seq<Path>, ov: (Path, Path) -> bool, n: nat, j: nat)
    requires n <= |r1| && j < |r2|
  {
    n > 0 && (OverlappedBefore(r1, r2, ov, n - 1, j) || ov(r1[n - 1], r2[j]))
  }

  // ---------------------------------------------------------------------------
  // Shapes of the origin lists
  // ---------------------------------------------------------------------------

  /** The claims of reader-1 lesion `i` are first overlaps, in increasing reader-2 order. */
  lemma {:induction false} ClaimsShape(r1: seq<Path>, r2: seq<Path>, ov: (Path, Path) -> bool, i: nat, n: nat)
    requires i < |r1| && n <= |r2|
    ensures forall k :: 0 <= k < |Claims(r1, r2, ov, i, n)| ==> FirstOverlap(r1, r2, ov, i, Claims(r1, r2, ov, i, n)[k].j)
    ensures forall k, k' :: 0 <= k < k' < |Claims(r1, r2, ov, i, n)| ==> Claims(r1, r2, ov, i, n)[k].j < Claims(r1, r2, ov, i, n)[k'].j
  {
    if n > 0 {
      ClaimsShape(r1, r2, ov, i, n - 1);
      var c0 := Claims(r1, r2, ov, i, n - 1);
      if FirstOverlap(r1, r2, ov, i, n - 1) {
        var c := c0 + [Paired(i, n - 1)];
        assert Claims(r1, r2, ov, i, n) == c;
        forall k | 0 <= k < |c| ensures FirstOverlap(r1, r2, ov, i, c[k].j) {
          if k < |c0| { assert c[k] == c0[k]; }
        }
        forall k, k' | 0 <= k < k' < |c| ensures c[k].j < c[k'].j {
          assert c[k] == c0[k];
          if k' < |c0| { assert c[k'] == c0[k']; }
        }
      } else {
        assert Claims(r1, r2, ov, i, n) == c0;
      }
    }
  }

  lemma {:induction false} ClaimsMember(r1: seq<Path>, r2: seq<Path>, ov: (Path, Path) -> bool, i: nat, n: nat, j: nat)
    requires i < |r1| && n <= |r2| && j < |r2|
    ensures Paired(i, j) in Claims(r1, r2, ov, i, n) <==> j < n && FirstOverlap(r1, r2, ov, i, j)
  {
    if n > 0 {
      ClaimsMember(r1, r2, ov, i, n - 1, j);
      var c := Claims(r1, r2, ov, i, n - 1);
      assert forall k :: 0 <= k < |c| ==> c[k] != Paired(i, n - 1);
      if FirstOverlap(r1, r2, ov, i, n - 1) {
        assert Claims(r1, r2, ov, i, n) == c + [Paired(i, n - 1)];
      } else {
        assert Claims(r1, r2, ov, i, n) == c;
      }
    }
  }

  /** Reader-2 lesion `j` is on one of the claims of `i` exactly when `i` is its first overlap. */
  lemma {:induction false} ClaimsCount(r1: seq<Path>, r2: seq<Path>, ov: (Path, Path) -> bool, i: nat, n: nat, j: nat)
    requires i < |r1| && n <= |r2| && j < |r2|
    ensures Count(Claims(r1, r2, ov, i, n), Reader2Of(j)) == if j < n && FirstOverlap(r1, r2, ov, i, j) then 1 else 0
  {
    if n > 0 {
      ClaimsCount(r1, r2, ov, i, n - 1, j);
      var c := Claims(r1, r2, ov, i, n - 1);
      if FirstOverlap(r1, r2, ov, i, n - 1) {
        assert Claims(r1, r2, ov, i, n) == c + [Paired(i, n - 1)];
        CountAppend(c, [Paired(i, n - 1)], Reader2Of(j));
        CountSingleton(Paired(i, n - 1), Reader2Of(j));
      } else {
        assert Claims(r1, r2, ov, i, n) == c;
      }
    }
  }

  /**
   * The rows of reader-1 lesion `i`: a single row with an empty Reader_2 field
   * when it is nobody's first overlap, otherwise one row per reader-2 lesion
   * whose first overlap it is.
   */
  lemma BlockShape(r1: seq<Path>, r2: seq<Path>, ov: (Path, Path) -> bool, i: nat)
    requires i < |r1|
    ensures |Block(r1, r2, ov, i)| >= 1
    ensures forall k :: 0 <= k < |Block(r1, r2, ov, i)| ==> !Block(r1, r2, ov, i)[k].Reader2Only? && Block(r1, r2, ov, i)[k].i == i
    ensures forall k :: 0 <= k < |Block(r1, r2, ov, i)| && Block(r1, r2, ov, i)[k].Paired? ==>
      Block(r1, r2, ov, i)[k].j < |r2| && FirstOverlap(r1, r2, ov, i, Block(r1, r2, ov, i)[k].j)
    ensures Block(r1, r2, ov, i) == [Reader1Only(i)] <==> Unmatched(r1, r2, ov, i)
    ensures Block(r1, r2, ov, i) != [Reader1Only(i)] ==> forall k :: 0 <= k < |Block(r1, r2, ov, i)| ==> Block(r1, r2, ov, i)[k].Paired?
  {
    var c := Claims(r1, r2, ov, i, |r2|);
    ClaimsShape(r1, r2, ov, i, |r2|);
    if c == [] {
      forall j | 0 <= j < |r2| ensures !FirstOverlap(r1, r2, ov, i, j) {
        ClaimsMember(r1, r2, ov, i, |r2|, j);
      }
    } else {
      assert !Unmatched(r1, r2, ov, i) by {
        assert FirstOverlap(r1, r2, ov, i, c[0].j);
      }
    }
  }

  /** Which origins the rows of reader-1 lesion `i` have. */
  lemma BlockMember(r1: seq<Path>, r2: seq<Path>, ov: (Path, Path) -> bool, i: nat, o: Origin)
    requires i < |r1|
    ensures o in Block(r1, r2, ov, i) <==>
      || (o == Reader1Only(i) && Unmatched(r1, r2, ov, i))
      || (o.Paired? && o.i == i && o.j < |r2| && FirstOverlap(r1, r2, ov, i, o.j))
  {
    var b := Block(r1, r2, ov, i);
    BlockShape(r1, r2, ov, i);
    if o.Paired? && o.i == i && o.j < |r2| {
      ClaimsMember(r1, r2, ov, i, |r2|, o.j);
      if b == [Reader1Only(i)] {
        assert !FirstOverlap(r1, r2, ov, i, o.j);
      }
    } else if b != [Reader1Only(i)] {
      assert forall k :: 0 <= k < |b| ==> b[k] != o;
    }
  }

  lemma Reader1PartUnfold(r1: seq<Path>, r2: seq<Path>, ov: (Path, Path) -> bool, n: nat)
    requires 0 < n <= |r1|
    ensures Reader1Part(r1, r2, ov, n) == Reader1Part(r1, r2, ov, n - 1) + Block(r1, r2, ov, n - 1)
  {
  }

  /** The rows of reader-1 lesion `i` are all about `i`. */
  lemma BlockOwn(r1: seq<Path>, r2: seq<Path>, ov: (Path, Path) -> bool, i: nat, o: Origin)
    requires i < |r1|
    ensures o in Block(r1, r2, ov, i) ==> !o.Reader2Only? && o.i == i
  {
    if o in Block(r1, r2, ov, i) {
      BlockShape(r1, r2, ov, i);
      var k :| 0 <= k < |Block(r1, r2, ov, i)| && Block(r1, r2, ov, i)[k] == o;
    }
  }

  /**
   * One more reader-1 lesion: `own` says whether `o` is in the block of its
   * own reader-1 lesion, which for an origin of lesion `k` is `Block(k)`.
   */
  lemma Reader1PartMemberStep(r1: seq<Path>, r2: seq<Path>, ov: (Path, Path) -> bool, k: nat, o: Origin, own: bool)
    requires k < |r1|
    requires !o.Reader2Only? && o.i == k ==> (own <==> o in Block(r1, r2, ov, k))
    requires o in Reader1Part(r1, r2, ov, k) <==> !o.Reader2Only? && o.i < k && own
    ensures o in Reader1Part(r1, r2, ov, k + 1) <==> !o.Reader2Only? && o.i < k + 1 && own
  {
    Reader1PartUnfold(r1, r2, ov, k + 1);
    BlockOwn(r1, r2, ov, k, o);
  }

  /** An origin is among those of the first `n` reader-1 lesions exactly when it is in the block of its own reader-1 lesion. */
  lemma Reader1PartMember(r1: seq<Path>, r2: seq<Path>, ov: (Path, Path) -> bool, n: nat, o: Origin)
    requires n <= |r1|
    ensures o in Reader1Part(r1, r2, ov, n) <==> !o.Reader2Only? && o.i < n && o in Block(r1, r2, ov, o.i)
  {
    ghost var own := !o.Reader2Only? && o.i < |r1| && o in Block(r1, r2, ov, o.i);
    var k := 0;
    while k < n
      invariant k <= n
      invariant o in Reader1Part(r1, r2, ov, k) <==> !o.Reader2Only? && o.i < k && own
    {
      Reader1PartMemberStep(r1, r2, ov, k, o, own);
      k := k + 1;
    }
  }

  /** Reader-1 origins only, each naming an existing reader-1 lesion below `n`. */
  predicate Reader1Origins(s: seq<Origin>, n: nat, n1: nat, n2: nat) {
    forall k :: 0 <= k < |s| ==> !s[k].Reader2Only? && s[k].i < n && ValidOrigin(s[k], n1, n2)
  }

  lemma Reader1OriginsAppend(p: seq<Origin>, b: seq<Origin>, n: nat, n1: nat, n2: nat)
    requires Reader1Origins(p, n, n1, n2) && Reader1Origins(b, n + 1, n1, n2)
    ensures Reader1Origins(p + b, n + 1, n1, n2)
  {
    forall k | 0 <= k < |p + b|
      ensures !(p + b)[k].Reader2Only? && (p + b)[k].i < n + 1 && ValidOrigin((p + b)[k], n1, n2)
    {
      if k < |p| {
        assert (p + b)[k] == p[k];
      } else {
        assert (p + b)[k] == b[k - |p|];
      }
    }
  }

  lemma BlockOrigins(r1: seq<Path>, r2: seq<Path>, ov: (Path, Path) -> bool, i: nat)
    requires i < |r1|
    ensures Reader1Origins(Block(r1, r2, ov, i), i + 1, |r1|, |r2|)
  {
    BlockShape(r1, r2, ov, i);
  }

  lemma Reader1PartShapeStep(r1: seq<Path>, r2: seq<Path>, ov: (Path, Path) -> bool, k: nat)
    requires k < |r1| && Reader1Origins(Reader1Part(r1, r2, ov, k), k, |r1|, |r2|)
    ensures Reader1Origins(Reader1Part(r1, r2, ov, k + 1), k + 1, |r1|, |r2|)
  {
    Reader1PartUnfold(r1, r2, ov, k + 1);
    BlockOrigins(r1, r2, ov, k);
    Reader1OriginsAppend(Reader1Part(r1, r2, ov, k), Block(r1, r2, ov, k), k, |r1|, |r2|);
  }

  /** Reader-1 origins only: each names an existing reader-1 lesion among the first `n`. */
  lemma Reader1PartShape(r1: seq<Path>, r2: seq<Path>, ov: (Path, Path) -> bool, n: nat)
    requires n <= |r1|
    ensures forall k :: 0 <= k < |Reader1Part(r1, r2, ov, n)| ==>
      && !Reader1Part(r1, r2, ov, n)[k].Reader2Only?
      && Reader1Part(r1, r2, ov, n)[k].i < n
      && ValidOrigin(Reader1Part(r1, r2, ov, n)[k], |r1|, |r2|)
  {
    var k := 0;
    while k < n
      invariant k <= n && Reader1Origins(Reader1Part(r1, r2, ov, k), k, |r1|, |r2|)
    {
      Reader1PartShapeStep(r1, r2, ov, k);
      k := k + 1;
    }
  }

  /** Leftover origins: reader-2 lesions nobody overlaps, in order, with consecutive counters after |r1|. */
  lemma {:induction false} LeftoversShape(r1: seq<Path>, r2: seq<Path>, ov: (Path, Path) -> bool, n: nat)
    requires n <= |r2|
    ensures forall k :: 0 <= k < |Leftovers(r1, r2, ov, n)| ==>
      && Leftovers(r1, r2, ov, n)[k].Reader2Only?
      && Leftovers(r1, r2, ov, n)[k].j < n
      && !Overlapped(r1, r2, ov, Leftovers(r1, r2, ov, n)[k].j)
      && Leftovers(r1, r2, ov, n)[k].counter == |r1| + 1 + k
    ensures forall k, k' :: 0 <= k < k' < |Leftovers(r1, r2, ov, n)| ==>
      Leftovers(r1, r2, ov, n)[k].j < Leftovers(r1, r2, ov, n)[k'].j
  {
    if n > 0 {
      LeftoversShape(r1, r2, ov, n - 1);
      var p := Leftovers(r1, r2, ov, n - 1);
      if !Overlapped(r1, r2, ov, n - 1) {
        var l := p + [Reader2Only(n - 1, |r1| + 1 + |p|)];
        assert Leftovers(r1, r2, ov, n) == l;
        forall k | 0 <= k < |l|
          ensures l[k].Reader2Only? && l[k].j < n && !Overlapped(r1, r2, ov, l[k].j) && l[k].counter == |r1| + 1 + k
        {
          if k < |p| { assert l[k] == p[k]; }
        }
        forall k, k' | 0 <= k < k' < |l| ensures l[k].j < l[k'].j {
          assert l[k] == p[k];
          if k' < |p| { assert l[k'] == p[k']; }
        }
      } else {
        assert Leftovers(r1, r2, ov, n) == p;
      }
    }
  }

  /** Every origin names an existing lesion, so every row is built from real paths. */
  lemma OriginsValid(r1: seq<Path>, r2: seq<Path>, ov: (Path, Path) -> bool)
    ensures forall k :: 0 <= k < |Origins(r1, r2, ov)| ==> ValidOrigin(Origins(r1, r2, ov)[k], |r1|, |r2|)
  {
    var p := Reader1Part(r1, r2, ov, |r1|);
    var l := Leftovers(r1, r2, ov, |r2|);
    Reader1PartShape(r1, r2, ov, |r1|);
    LeftoversShape(r1, r2, ov, |r2|);
    var os: seq<Origin> := p + l;
    forall k | 0 <= k < |os| ensures ValidOrigin(os[k], |r1|, |r2|) {
      if k < |p| {
        assert os[k] == p[k];
      } else {
        assert os[k] == l[k - |p|];
      }
    }
  }

  // ---------------------------------------------------------------------------
  // Every lesion is on the rows, reader-2 lesions exactly once
  // ---------------------------------------------------------------------------

  /** Reader-2 lesion `j` is on a row of reader-1 lesion `i` exactly when `i` is its first overlap. */
  lemma BlockCount(r1: seq<Path>, r2: seq<Path>, ov: (Path, Path) -> bool, i: nat, j: nat)
    requires i < |r1| && j < |r2|
    ensures Count(Block(r1, r2, ov, i), Reader2Of(j)) == if FirstOverlap(r1, r2, ov, i, j) then 1 else 0
  {
    ClaimsCount(r1, r2, ov, i, |r2|, j);
    if Claims(r1, r2, ov, i, |r2|) == [] {
      CountSingleton(Reader1Only(i), Reader2Of(j));
    }
  }

  lemma {:induction false} OverlappedBeforeExists(r1: seq<Path>, r2: seq<Path>, ov: (Path, Path) -> bool, n: nat, j: nat)
    requires n <= |r1| && j < |r2|
    ensures OverlappedBefore(r1, r2, ov, n, j) <==> exists i :: 0 <= i < n && ov(r1[i], r2[j])
  {
    if n > 0 {
      OverlappedBeforeExists(r1, r2, ov, n - 1, j);
    }
  }

  /** Reader-1 lesion `n` is the first overlap of `j` exactly when it overlaps `j` and none before it does. */
  lemma FirstOverlapStep(r1: seq<Path>, r2: seq<Path>, ov: (Path, Path) -> bool, n: nat, j: nat)
    requires n < |r1| && j < |r2|
    ensures FirstOverlap(r1, r2, ov, n, j) <==> ov(r1[n], r2[j]) && !OverlappedBefore(r1, r2, ov, n, j)
  {
    OverlappedBeforeExists(r1, r2, ov, n, j);
  }

  /** The rows of reader-1 lesion `n - 1` come after those of the lesions before it. */
  lemma Reader1PartCountStep(r1: seq<Path>, r2: seq<Path>, ov: (Path, Path) -> bool, n: nat, j: nat)
    requires 0 < n <= |r1| && j < |r2|
    ensures Count(Reader1Part(r1, r2, ov, n), Reader2Of(j))
      == Count(Reader1Part(r1, r2, ov, n - 1), Reader2Of(j)) + Count(Block(r1, r2, ov, n - 1), Reader2Of(j))
  {
    Reader1PartUnfold(r1, r2, ov, n);
    CountAppend(Reader1Part(r1, r2, ov, n - 1), Block(r1, r2, ov, n - 1), Reader2Of(j));
  }

  /** Among the rows of the first `n` reader-1 lesions, reader-2 lesion `j` appears once if one of them overlaps it, else never. */
  lemma Reader1PartCount(r1: seq<Path>, r2: seq<Path>, ov: (Path, Path) -> bool, n: nat, j: nat)
    requires n <= |r1| && j < |r2|
    ensures Count(Reader1Part(r1, r2, ov, n), Reader2Of(j)) == if OverlappedBefore(r1, r2, ov, n, j) then 1 else 0
  {
    var m := 0;
    while m < n
      invariant m <= n
      invariant Count(Reader1Part(r1, r2, ov, m), Reader2Of(j)) == if OverlappedBefore(r1, r2, ov, m, j) then 1 else 0
    {
      Reader1PartCountStep(r1, r2, ov, m + 1, j);
      BlockCount(r1, r2, ov, m, j);
      FirstOverlapStep(r1, r2, ov, m, j);
      m := m + 1;
    }
  }

  lemma {:induction false} LeftoversCount(r1: seq<Path>, r2: seq<Path>, ov: (Path, Path) -> bool, n: nat, j: nat)
    requires n <= |r2| && j < |r2|
    ensures Count(Leftovers(r1, r2, ov, n), Reader2Of(j)) == if j < n && !Overlapped(r1, r2, ov, j) then 1 else 0
  {
    if n > 0 {
      LeftoversCount(r1, r2, ov, n - 1, j);
      var p := Leftovers(r1, r2, ov, n - 1);
      if !Overlapped(r1, r2, ov, n - 1) {
        var x := Reader2Only(n - 1, |r1| + 1 + |p|);
        assert Leftovers(r1, r2, ov, n) == p + [x];
        CountAppend(p, [x], Reader2Of(j));
        CountSingleton(x, Reader2Of(j));
      } else {
        assert Leftovers(r1, r2, ov, n) == p;
      }
    }
  }

  /**
   * Each reader-2 lesion is on exactly one row, and that row is a leftover row
   * (empty Reader_1 field) exactly when no reader-1 lesion overlaps it.
   */
  lemma Reader2LesionOnce(r1: seq<Path>, r2: seq<Path>, ov: (Path, Path) -> bool, j: nat)
    requires j < |r2|
    ensures Count(Origins(r1, r2, ov), Reader2Of(j)) == 1
    ensures Count(Leftovers(r1, r2, ov, |r2|), Reader2Of(j)) == if Overlapped(r1, r2, ov, j) then 0 else 1
  {
    Reader1PartCount(r1, r2, ov, |r1|, j);
    OverlappedBeforeExists(r1, r2, ov, |r1|, j);
    LeftoversCount(r1, r2, ov, |r2|, j);
    CountAppend(Reader1Part(r1, r2, ov, |r1|), Leftovers(r1, r2, ov, |r2|), Reader2Of(j));
  }

  /** Reader-1 lesion `i` and reader-2 lesion `j` share a row exactly when `i` is the first reader-1 lesion overlapping `j`. */
  lemma PairedIffFirstOverlap(r1: seq<Path>, r2: seq<Path>, ov: (Path, Path) -> bool, i: nat, j: nat)
    requires i < |r1| && j < |r2|
    ensures Paired(i, j) in Origins(r1, r2, ov) <==> FirstOverlap(r1, r2, ov, i, j)
  {
    var l := Leftovers(r1, r2, ov, |r2|);
    LeftoversShape(r1, r2, ov, |r2|);
    assert Paired(i, j) !in l;
    Reader1PartMember(r1, r2, ov, |r1|, Paired(i, j));
    BlockMember(r1, r2, ov, i, Paired(i, j));
  }

  /**
   * Every reader-1 lesion is on some row; it is on a row with an empty
   * Reader_2 field exactly when it is not the first overlap of any reader-2 lesion.
   */
  lemma Reader1LesionCovered(r1: seq<Path>, r2: seq<Path>, ov: (Path, Path) -> bool, i: nat)
    requires i < |r1|
    ensures Reader1Only(i) in Origins(r1, r2, ov) <==> Unmatched(r1, r2, ov, i)
    ensures Reader1Only(i) in Origins(r1, r2, ov) || exists j :: 0 <= j < |r2| && Paired(i, j) in Origins(r1, r2, ov)
  {
    var l := Leftovers(r1, r2, ov, |r2|);
    LeftoversShape(r1, r2, ov, |r2|);
    assert Reader1Only(i) !in l;
    Reader1PartMember(r1, r2, ov, |r1|, Reader1Only(i));
    BlockMember(r1, r2, ov, i, Reader1Only(i));
    if !Unmatched(r1, r2, ov, i) {
      var j :| 0 <= j < |r2| && FirstOverlap(r1, r2, ov, i, j);
      PairedIffFirstOverlap(r1, r2, ov, i, j);
    }
  }

  // ---------------------------------------------------------------------------
  // How many rows a subject gets
  // ---------------------------------------------------------------------------

  /** The number of reader-1 lesions among the first `n` that claim no reader-2 lesion. */
  function UnmatchedReader1(r1: seq<Path>, r2: seq<Path>, ov: (Path, Path) -> bool, n: nat): (u: nat)
    requires n <= |r1|
    ensures u <= n
  {
    if n == 0 then 0
    else UnmatchedReader1(r1, r2, ov, n - 1) + (if Unmatched(r1, r2, ov, n - 1) then 1 else 0)
  }

  /** Reader-1 lesion `i` has a row of its own exactly when it claims no reader-2 lesion. */
  lemma BlockAlone(r1: seq<Path>, r2: seq<Path>, ov: (Path, Path) -> bool, i: nat)
    requires i < |r1|
    ensures Count(Block(r1, r2, ov, i), Reader1Alone()) == if Unmatched(r1, r2, ov, i) then 1 else 0
  {
    var b := Block(r1, r2, ov, i);
    BlockShape(r1, r2, ov, i);
    if b == [Reader1Only(i)] {
      CountSingleton(Reader1Only(i), Reader1Alone());
    } else {
      CountPositive(b, Reader1Alone());
    }
  }

  lemma Reader1PartAloneStep(r1: seq<Path>, r2: seq<Path>, ov: (Path, Path) -> bool, n: nat)
    requires n < |r1|
    requires Count(Reader1Part(r1, r2, ov, n), Reader1Alone()) == UnmatchedReader1(r1, r2, ov, n)
    ensures Count(Reader1Part(r1, r2, ov, n + 1), Reader1Alone()) == UnmatchedReader1(r1, r2, ov, n + 1)
  {
    Reader1PartUnfold(r1, r2, ov, n + 1);
    CountAppend(Reader1Part(r1, r2, ov, n), Block(r1, r2, ov, n), Reader1Alone());
    BlockAlone(r1, r2, ov, n);
  }

  /** The rows of the first `n` reader-1 lesions with an empty Reader_2 field: one per unmatched lesion. */
  lemma Reader1PartAlone(r1: seq<Path>, r2: seq<Path>, ov: (Path, Path) -> bool, n: nat)
    requires n <= |r1|
    ensures Count(Reader1Part(r1, r2, ov, n), Reader1Alone()) == UnmatchedReader1(r1, r2, ov, n)
  {
    var m := 0;
    while m < n
      invariant m <= n
      invariant Count(Reader1Part(r1, r2, ov, m), Reader1Alone()) == UnmatchedReader1(r1, r2, ov, m)
    {
      Reader1PartAloneStep(r1, r2, ov, m);
      m := m + 1;
    }
  }

  /** Σ over j < m of the rows carrying reader-2 lesion j. */
  function SumReader2(os: seq<Origin>, m: nat): nat {
    if m == 0 then 0 else SumReader2(os, m - 1) + Count(os, Reader2Of(m - 1))
  }

  lemma {:induction false} SumReader2Snoc(os: seq<Origin>, o: Origin, m: nat)
    ensures SumReader2(os + [o], m) == SumReader2(os, m) + (if HasReader2(o) && o.j < m then 1 else 0)
  {
    if m > 0 {
      SumReader2Snoc(os, o, m - 1);
      assert (os + [o])[..|os|] == os;
    }
  }

  lemma {:induction false} SumReader2Empty(m: nat)
    ensures SumReader2([], m) == 0
  {
    if m > 0 {
      SumReader2Empty(m - 1);
    }
  }

  /** Counting rows with a reader-2 lesion, row by row or lesion by lesion, gives the same number. */
  lemma {:induction false} DoubleCount(os: seq<Origin>, m: nat)
    requires forall k :: 0 <= k < |os| && HasReader2(os[k]) ==> os[k].j < m
    ensures Count(os, AnyReader2()) == SumReader2(os, m)
  {
    if os == [] {
      SumReader2Empty(m);
    } else {
      var init := os[..|os| - 1];
      DoubleCount(init, m);
      SumReader2Snoc(init, os[|os| - 1], m);
      assert init + [os[|os| - 1]] == os;
    }
  }

  lemma {:induction false} SumReader2Ones(os: seq<Origin>, m: nat)
    requires forall j :: 0 <= j < m ==> Count(os, Reader2Of(j)) == 1
    ensures SumReader2(os, m) == m
  {
    if m > 0 {
      SumReader2Ones(os, m - 1);
    }
  }

  /**
   * A subject gets one row per reader-1 lesion that claims no reader-2 lesion
   * plus one row per reader-2 lesion.
   */
  lemma RowCount(r1: seq<Path>, r2: seq<Path>, ov: (Path, Path) -> bool)
    ensures |Origins(r1, r2, ov)| == UnmatchedReader1(r1, r2, ov, |r1|) + |r2|
  {
    var os := Origins(r1, r2, ov);
    OriginsValid(r1, r2, ov);
    CountSplit(os, Reader1Alone(), AnyReader2());
    var p := Reader1Part(r1, r2, ov, |r1|);
    var l := Leftovers(r1, r2, ov, |r2|);
    CountAppend(p, l, Reader1Alone());
    LeftoversShape(r1, r2, ov, |r2|);
    CountPositive(l, Reader1Alone());
    Reader1PartAlone(r1, r2, ov, |r1|);
    DoubleCount(os, |r2|);
    forall j | 0 <= j < |r2| ensures Count(os, Reader2Of(j)) == 1 {
      Reader2LesionOnce(r1, r2, ov, j);
    }
    SumReader2Ones(os, |r2|);
  }

  // ---------------------------------------------------------------------------
  // Lesion counters and lesion ids
  // ---------------------------------------------------------------------------

  /** Neighbouring rows carry the same counter or the next one. */
  predicate CountersStepByOne(os: seq<Origin>) {
    forall k :: 0 <= k < |os| - 1 ==> Counter(os[k + 1]) == Counter(os[k]) || Counter(os[k + 1]) == Counter(os[k]) + 1
  }

  lemma StepsAppend(p: seq<Origin>, b: seq<Origin>)
    requires CountersStepByOne(p) && CountersStepByOne(b)
    requires p != [] && b != [] ==> Counter(b[0]) == Counter(p[|p| - 1]) || Counter(b[0]) == Counter(p[|p| - 1]) + 1
    ensures CountersStepByOne(p + b)
    ensures p != [] ==> (p + b)[0] == p[0]
    ensures b != [] ==> (p + b)[|p + b| - 1] == b[|b| - 1]
  {
    var q := p + b;
    forall k | 0 <= k < |q| - 1
      ensures Counter(q[k + 1]) == Counter(q[k]) || Counter(q[k + 1]) == Counter(q[k]) + 1
    {
      if k + 1 < |p| {
        assert q[k] == p[k] && q[k + 1] == p[k + 1];
      } else if k + 1 == |p| {
        assert q[k] == p[|p| - 1] && q[k + 1] == b[0];
      } else {
        assert q[k] == b[k - |p|] && q[k + 1] == b[k + 1 - |p|];
      }
    }
  }

  /** The rows of one reader-1 lesion all carry its counter. */
  lemma BlockCounters(r1: seq<Path>, r2: seq<Path>, ov: (Path, Path) -> bool, i: nat)
    requires i < |r1|
    ensures forall k :: 0 <= k < |Block(r1, r2, ov, i)| ==> Counter(Block(r1, r2, ov, i)[k]) == i + 1
    ensures CountersStepByOne(Block(r1, r2, ov, i))
  {
    BlockShape(r1, r2, ov, i);
  }

  /** The rows are numbered 1 to `n` without gaps (no rows at all when `n` is 0). */
  predicate NumberedUpTo(p: seq<Origin>, n: nat) {
    && |p| >= n
    && CountersStepByOne(p)
    && (n == 0 ==> p == [])
    && (n > 0 ==> Counter(p[0]) == 1 && Counter(p[|p| - 1]) == n)
  }

  /** Appending the rows of reader-1 lesion `n` (counter `n + 1`) to rows numbered 1 to `n`. */
  lemma AppendNextCounter(p: seq<Origin>, b: seq<Origin>, n: nat)
    requires NumberedUpTo(p, n)
    requires b != [] && forall k :: 0 <= k < |b| ==> Counter(b[k]) == n + 1
    ensures NumberedUpTo(p + b, n + 1)
  {
    assert CountersStepByOne(b);
    StepsAppend(p, b);
    if n == 0 {
      assert p + b == b;
    }
  }

  lemma Reader1PartCountersStep(r1: seq<Path>, r2: seq<Path>, ov: (Path, Path) -> bool, n: nat)
    requires n < |r1|
    requires NumberedUpTo(Reader1Part(r1, r2, ov, n), n)
    ensures NumberedUpTo(Reader1Part(r1, r2, ov, n + 1), n + 1)
  {
    Reader1PartUnfold(r1, r2, ov, n + 1);
    BlockCounters(r1, r2, ov, n);
    BlockShape(r1, r2, ov, n);
    AppendNextCounter(Reader1Part(r1, r2, ov, n), Block(r1, r2, ov, n), n);
  }

  /**
   * The rows of the first `n` reader-1 lesions are numbered 1 to `n`: the
   * counter starts at 1, never skips and ends at `n`.
   */
  lemma Reader1PartCounters(r1: seq<Path>, r2: seq<Path>, ov: (Path, Path) -> bool, n: nat)
    requires n <= |r1|
    ensures NumberedUpTo(Reader1Part(r1, r2, ov, n), n)
  {
    var m := 0;
    while m < n
      invariant m <= n
      invariant NumberedUpTo(Reader1Part(r1, r2, ov, m), m)
    {
      Reader1PartCountersStep(r1, r2, ov, m);
      m := m + 1;
    }
  }

  /**
   * Counters start at 1 and never skip: the rows of one reader-1 lesion share
   * a counter, the next reader-1 lesion or leftover takes the next one, and the
   * last row carries |r1| plus the number of leftovers. Leftover rows come
   * last, in reader-2 order.
   */
  lemma CountersConsecutive(r1: seq<Path>, r2: seq<Path>, ov: (Path, Path) -> bool)
    ensures |Origins(r1, r2, ov)| > 0 ==> Counter(Origins(r1, r2, ov)[0]) == 1
    ensures CountersStepByOne(Origins(r1, r2, ov))
    ensures |Origins(r1, r2, ov)| > 0 ==>
      Counter(Origins(r1, r2, ov)[|Origins(r1, r2, ov)| - 1]) == |r1| + |Leftovers(r1, r2, ov, |r2|)|
    ensures forall k, k' :: 0 <= k < k' < |Origins(r1, r2, ov)| && Origins(r1, r2, ov)[k].Reader2Only? ==>
      Origins(r1, r2, ov)[k'].Reader2Only? && Origins(r1, r2, ov)[k].j < Origins(r1, r2, ov)[k'].j
  {
    Reader1PartCounters(r1, r2, ov, |r1|);
    Reader1PartShape(r1, r2, ov, |r1|);
    LeftoversShape(r1, r2, ov, |r2|);
    AppendLeftoverCounters(Reader1Part(r1, r2, ov, |r1|), Leftovers(r1, r2, ov, |r2|), |r1|);
  }

  /** Rows numbered 1 to `n` followed by leftovers numbered from `n + 1`, in increasing reader-2 order. */
  lemma AppendLeftoverCounters(p: seq<Origin>, l: seq<Origin>, n: nat)
    requires NumberedUpTo(p, n)
    requires forall k :: 0 <= k < |p| ==> !p[k].Reader2Only?
    requires forall k :: 0 <= k < |l| ==> l[k].Reader2Only? && l[k].counter == n + 1 + k
    requires forall k, k' :: 0 <= k < k' < |l| ==> l[k].j < l[k'].j
    ensures |p + l| > 0 ==> Counter((p + l)[0]) == 1
    ensures CountersStepByOne(p + l)
    ensures |p + l| > 0 ==> Counter((p + l)[|p + l| - 1]) == n + |l|
    ensures forall k, k' :: 0 <= k < k' < |p + l| && (p + l)[k].Reader2Only? ==>
      (p + l)[k'].Reader2Only? && (p + l)[k].j < (p + l)[k'].j
  {
    var os := p + l;
    assert CountersStepByOne(l) by {
      forall k | 0 <= k < |l| - 1 ensures Counter(l[k + 1]) == Counter(l[k]) + 1 {
      }
    }
    StepsAppend(p, l);
    if l == [] {
      assert os == p;
    }
    if n == 0 && l != [] {
      assert os == l;
    }
    assert forall k :: 0 <= k < |p| ==> os[k] == p[k];
    assert forall k :: |p| <= k < |os| ==> os[k] == l[k - |p|];
  }

  /** Different counters give different lesion ids. */
  lemma LesionIdInjective(subject: string, a: nat, b: nat)
    requires LesionId(subject, a) == LesionId(subject, b)
    ensures a == b
  {
    var pre := subject + "_";
    assert LesionId(subject, a)[|pre|..] == PadNum(a, 3);
    assert LesionId(subject, b)[|pre|..] == PadNum(b, 3);
    PadNumInjective(a, b, 3);
  }

  /**
   * Two rows of a subject share a lesion id exactly when they are the same row
   * or both are rows of the same reader-1 lesion.
   */
  lemma SharedIdsOnlyWithinReader1Lesion(subject: string, underlay: Path, r1: seq<Path>, r2: seq<Path>, ov: (Path, Path) -> bool, k: nat, k': nat)
    requires k < |Origins(r1, r2, ov)| && k' < |Origins(r1, r2, ov)|
    ensures SubjectRows(subject, underlay, r1, r2, ov)[k].lesionId == SubjectRows(subject, underlay, r1, r2, ov)[k'].lesionId
      <==> k == k' || (!Origins(r1, r2, ov)[k].Reader2Only? && !Origins(r1, r2, ov)[k'].Reader2Only? && Origins(r1, r2, ov)[k].i == Origins(r1, r2, ov)[k'].i)
  {
    var os := Origins(r1, r2, ov);
    var p := Reader1Part(r1, r2, ov, |r1|);
    var l := Leftovers(r1, r2, ov, |r2|);
    assert os == p + l;
    Reader1PartShape(r1, r2, ov, |r1|);
    LeftoversShape(r1, r2, ov, |r2|);
    if LesionId(subject, Counter(os[k])) == LesionId(subject, Counter(os[k'])) {
      LesionIdInjective(subject, Counter(os[k]), Counter(os[k']));
      if k < |p| { assert os[k] == p[k]; } else { assert os[k] == l[k - |p|]; }
      if k' < |p| { assert os[k'] == p[k']; } else { assert os[k'] == l[k' - |p|]; }
    }
  }

  // ---------------------------------------------------------------------------
  // A subject read by one reader only
  // ---------------------------------------------------------------------------

  lemma OneReaderStep(r1: seq<Path>, ov: (Path, Path) -> bool, n: nat)
    requires n < |r1|
    requires Reader1Part(r1, [], ov, n) == seq(n, i requires 0 <= i => Reader1Only(i))
    ensures Reader1Part(r1, [], ov, n + 1) == seq(n + 1, i requires 0 <= i => Reader1Only(i))
  {
    Reader1PartUnfold(r1, [], ov, n + 1);
    assert Block(r1, [], ov, n) == [Reader1Only(n)];
  }

  /** Without reader-2 lesions every reader-1 lesion gets one row of its own. */
  lemma OneReaderOrigins(r1: seq<Path>, ov: (Path, Path) -> bool)
    ensures Origins(r1, [], ov) == seq(|r1|, i requires 0 <= i => Reader1Only(i))
  {
    var m := 0;
    while m < |r1|
      invariant m <= |r1|
      invariant Reader1Part(r1, [], ov, m) == seq(m, i requires 0 <= i => Reader1Only(i))
    {
      OneReaderStep(r1, ov, m);
      m := m + 1;
    }
    assert Leftovers(r1, [], ov, 0) == [];
  }

  /** Without a second reader, every reader-1 lesion gets one row of its own, numbered from 1. */
  lemma OneReaderRows(subject: string, underlay: Path, r1: seq<Path>, ov: (Path, Path) -> bool)
    ensures |SubjectRows(subject, underlay, r1, [], ov)| == |r1|
    ensures forall i :: 0 <= i < |r1| ==>
      SubjectRows(subject, underlay, r1, [], ov)[i] == MatchRow(LesionId(subject, i + 1), underlay, r1[i], "")
  {
    OneReaderOrigins(r1, ov);
  }

  lemma {:induction false} PathsOfAll(data: seq<LesionEntry>, reader: string)
    requires forall k :: 0 <= k < |data| ==> data[k].readerType == reader
    ensures PathsOf(data, reader) == seq(|data|, k requires 0 <= k < |data| => data[k].path)
  {
    if data != [] {
      PathsOfAll(data[..|data| - 1], reader);
    }
  }

  /**
   * A subject whose lesions all come from one reader, whichever it is, gets one
   * row per lesion with an empty Reader_2 field, and "No_Reader" as second name.
   */
  lemma OneReaderSubject(data: seq<LesionEntry>, ov: (Path, Path) -> bool)
    requires data != []
    requires forall k :: 0 <= k < |data| ==> data[k].readerType == data[0].readerType
    ensures SubjectOutcome(data, ov).Ok?
    ensures SubjectOutcome(data, ov).value.reader1 == data[0].readerType
    ensures SubjectOutcome(data, ov).value.reader2 == NO_READER
    ensures |SubjectOutcome(data, ov).value.rows| == |data|
    ensures forall k :: 0 <= k < |data| ==>
      SubjectOutcome(data, ov).value.rows[k] == MatchRow(LesionId(data[0].subject, k + 1), data[0].underlay, data[k].path, "")
  {
    DistinctConstant(ReaderTypes(data));
    PathsOfAll(data, data[0].readerType);
    OneReaderRows(data[0].subject, data[0].underlay, PathsOf(data, data[0].readerType), ov);
  }

  // ---------------------------------------------------------------------------
  // The rows themselves
  // ---------------------------------------------------------------------------

  function Reader2Is(path: Path): MatchRow -> bool {
    (row: MatchRow) => row.reader2 == path
  }

  /**
   * When the reader-2 lesion files have distinct, non-empty paths, each of them
   * is in the Reader_2 field of exactly one row.
   */
  lemma Reader2RowOnce(subject: string, underlay: Path, r1: seq<Path>, r2: seq<Path>, ov: (Path, Path) -> bool, j: nat)
    requires j < |r2| && NoDuplicates(r2) && r2[j] != ""
    ensures Count(SubjectRows(subject, underlay, r1, r2, ov), Reader2Is(r2[j])) == 1
  {
    var os := Origins(r1, r2, ov);
    var rows := SubjectRows(subject, underlay, r1, r2, ov);
    OriginsValid(r1, r2, ov);
    forall k | 0 <= k < |os| ensures Reader2Is(r2[j])(rows[k]) == Reader2Of(j)(os[k]) {
      assert rows[k] == RowOf(subject, underlay, r1, r2, os[k]);
    }
    CountCorresponds(rows, os, Reader2Is(r2[j]), Reader2Of(j));
    Reader2LesionOnce(r1, r2, ov, j);
  }

  /** Every reader-1 lesion file is in the Reader_1 field of some row. */
  lemma Reader1RowExists(subject: string, underlay: Path, r1: seq<Path>, r2: seq<Path>, ov: (Path, Path) -> bool, i: nat)
    requires i < |r1|
    ensures exists k ::
      0 <= k < |SubjectRows(subject, underlay, r1, r2, ov)| && SubjectRows(subject, underlay, r1, r2, ov)[k].reader1 == r1[i]
  {
    var os := Origins(r1, r2, ov);
    var rows := SubjectRows(subject, underlay, r1, r2, ov);
    Reader1LesionCovered(r1, r2, ov, i);
    var o: Origin;
    if Reader1Only(i) in os {
      o := Reader1Only(i);
    } else {
      var j :| 0 <= j < |r2| && Paired(i, j) in os;
      o := Paired(i, j);
    }
    var k :| 0 <= k < |os| && os[k] == o;
    assert rows[k] == RowOf(subject, underlay, r1, r2, o);
  }
}
