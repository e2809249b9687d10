/**
 The compact frontier of a range of leaves: its decomposition into perfect
 subtrees of decreasing size, and the alignment these need.
 */
module Frontier {
  import opened NumberTheory
  import opened MerkleLevels
  import opened ConsistencyPaths
  import opened LevelCache

  /** The largest power of two that does not exceed n. */
  function LargestPower(n: nat): (k: nat)
    requires n > 0
    ensures k <= n < 2 * k
  {
    if n == 1 then 1 else 2 * LargestPower(n / 2)
  }

  lemma {:induction false} LargestPowerIsPower(n: nat)
    requires n > 0
    ensures IsPowerOfTwo(LargestPower(n))
  {
    if n > 1 { LargestPowerIsPower(n / 2); }
  }

  lemma {:induction false} LargestPowerUnique(n: nat, k: nat)
    requires n > 0 && IsPowerOfTwo(k) && k <= n < 2 * k
    ensures k == LargestPower(n)
  {
    if n > 1 { LargestPowerUnique(n / 2, k / 2); }
  }

  lemma DoublePower(k: nat)
    requires IsPowerOfTwo(k)
    ensures IsPowerOfTwo(2 * k)
  {
  }

  method FindLargestPower(n: nat) returns (k: nat)
    requires n > 0
    ensures k == LargestPower(n)
  {
    k := 1;
    while k * 2 <= n
      invariant 0 < k <= n && IsPowerOfTwo(k)
      decreases n - k
    {
      DoublePower(k);
      k := k * 2;
    }
    LargestPowerUnique(n, k);
  }

  /** The loop behind the split point; 0 when there is nothing to split. */
  method FindSplitPoint(n: nat) returns (k: nat)
    ensures k == if n <= 1 then 0 else SplitPoint(n)
  {
    if n <= 1 {
      return 0;
    }
    k := 1;
    while k * 2 < n
      invariant 0 < k < n && IsPowerOfTwo(k)
      decreases n - k
    {
      DoublePower(k);
      k := k * 2;
    }
    SplitPointUnique(n, k);
  }

  // ---------- folding ----------

  function FoldRight<D>(h: (D, D) -> D, fs: seq<D>, x: D): (d: D)
  {
    if fs == [] then x else h(fs[0], FoldRight(h, fs[1..], x))
  }

  lemma {:induction false} FoldRightLast<D>(h: (D, D) -> D, fs: seq<D>, y: D, x: D)
    ensures FoldRight(h, fs + [y], x) == FoldRight(h, fs, h(y, x))
    decreases |fs|
  {
    if fs == [] {
      assert ([y])[1..] == [];
    } else {
      assert (fs + [y])[1..] == fs[1..] + [y];
      FoldRightLast(h, fs[1..], y, x);
    }
  }

  /** Peeling the largest perfect subtree off the left. */
  lemma PeelPerfect<D>(h: (D, D) -> D, s: seq<D>, k: nat)
    requires 0 < k <= |s| < 2 * k && IsPowerOfTwo(k)
    ensures |s| == k ==> s[..k] == s
    ensures |s| > k ==> TreeHash(h, s) == h(TreeHash(h, s[..k]), TreeHash(h, s[k..]))
  {
    if |s| > k {
      SplitPointUnique(|s|, k);
      TreeHashSplit(h, s);
    }
  }

  // ---------- alignment ----------

  /** start is a multiple of the largest perfect subtree within size leaves. */
  ghost predicate Aligned(start: nat, size: nat)
    requires size > 0
  {
    Divides(LargestPower(size), start)
  }

  lemma AlignedStart(start: nat, size: nat)
    requires size > 0 && Aligned(start, size)
    ensures var k := LargestPower(size);
            k > 0 && IsPowerOfTwo(k) && size < 2 * k && Divides(k, start)
  {
    LargestPowerIsPower(size);
  }

  lemma HalfDivides(c: nat, x: nat)
    requires c > 0 && Divides(2 * c, x)
    ensures Divides(c, x) && Divides(c, x + 2 * c)
  {
    hide Divides;
    var j := DividesElim(2 * c, x);
    Regroup(1, 2, c, j);
    assert (2 * c) * j == c * (2 * j);
    DividesIntro(c, x, 2 * j);
    assert c * (2 * j) + c * 2 == c * (2 * j + 2);
    DividesIntro(c, x + 2 * c, 2 * j + 2);
  }

  /** Alignment survives taking or skipping a subtree of size k. */
  lemma AlignedBelow(k: nat, x: nat)
    requires k > 1 && IsPowerOfTwo(k) && Divides(k, x)
    ensures IsPowerOfTwo(k / 2) && k == 2 * (k / 2) && k / 2 > 0
    ensures Divides(k / 2, x) && Divides(k / 2, x + k)
  {
    hide Divides, IsPowerOfTwo;
    HalfIsPower(k);
    HalfDivides(k / 2, x);
  }

  lemma HalfIsPower(k: nat)
    requires k > 1 && IsPowerOfTwo(k)
    ensures IsPowerOfTwo(k / 2) && k == 2 * (k / 2) && k / 2 > 0
  {
  }

  /** start is a multiple of p, a power of two that holds size leaves. */
  ghost predicate Fits(start: nat, size: nat, p: nat)
  {
    p > 0 && IsPowerOfTwo(p) && size <= p && Divides(p, start)
  }

  lemma FitsAligned(start: nat, size: nat, p: nat)
    requires Fits(start, size, p) && size > 0
    ensures Aligned(start, size)
  {
    hide Divides;
    var q := LargestPower(size);
    LargestPowerIsPower(size);
    PowersDivide(q, p);
    DividesTrans(q, p, start);
  }

  lemma DividesNext(k: nat, x: nat)
    requires k > 0 && Divides(k, x)
    ensures Divides(k, x + k)
  {
    hide Divides;
    var j := DividesElim(k, x);
    assert k * j + k == k * (j + 1);
    DividesIntro(k, x + k, j + 1);
  }

  /** Both halves of a split range fit where the whole range fits. */
  lemma FitsSplit(start: nat, size: nat, p: nat)
    requires Fits(start, size, p) && size >= 2
    ensures var k := SplitPoint(size);
            && Fits(start, k, k) && Fits(start + k, size - k, k)
            && Aligned(start, k) && Aligned(start + k, size - k)
  {
    hide Divides, Aligned, SplitPoint;
    var k := SplitPoint(size);
    SplitPointIsPower(size);
    PowersDivide(k, p);
    DividesTrans(k, p, start);
    DividesNext(k, start);
    FitsAligned(start, k, k);
    FitsAligned(start + k, size - k, k);
  }

  // ---------- hashing ranges from the cache ----------

  /** The hash of an aligned perfect subtree, straight from the cache. */
  method PerfectSubtreeRoot<D(!new)>(h: (D, D) -> D, lv: seq<seq<D>>, start: nat, size: nat) returns (d: D)
    requires |lv| > 0 && IsLevels(h, lv) && size > 0 && IsPowerOfTwo(size) && Divides(size, start) && start + size <= |lv[0]|
    ensures d == TreeHash(h, Range(lv[0], start, size))
  {
    ExactQuotient(size, start);
    var i := start / size;
    hide IsLevels, Divides, TreeHash;
    CachedSubtree(h, lv, start, size, i);
    d := lv[Log2(size)][i];
  }

  /** Folding the frontier onto what remains gives the goal. */
  ghost predicate Pending<D>(h: (D, D) -> D, s: seq<D>, frontier: seq<D>, offset: nat, remaining: nat, goal: D)
  {
    && offset + remaining <= |s|
    && if remaining > 0 then FoldRight(h, frontier, TreeHash(h, Range(s, offset, remaining))) == goal
       else frontier != [] && FoldRight(h, frontier[..|frontier| - 1], frontier[|frontier| - 1]) == goal
  }

  lemma PendingStart<D>(h: (D, D) -> D, s: seq<D>, start: nat, size: nat)
    requires size > 0 && start + size <= |s|
    ensures Pending(h, s, [], start, size, TreeHash(h, Range(s, start, size)))
  {
  }

  lemma PendingStep<D>(h: (D, D) -> D, s: seq<D>, frontier: seq<D>, offset: nat, remaining: nat, goal: D, k: nat)
    requires Pending(h, s, frontier, offset, remaining, goal)
    requires 0 < k <= remaining < 2 * k && IsPowerOfTwo(k)
    ensures offset + k <= |s|
    ensures Pending(h, s, frontier + [TreeHash(h, Range(s, offset, k))], offset + k, remaining - k, goal)
  {
    hide TreeHash, Range;
    var range := Range(s, offset, remaining);
    var hash := TreeHash(h, Range(s, offset, k));
    PeelPerfect(h, range, k);
    RangeSplit(s, offset, remaining, k);
    if remaining > k {
      FoldRightLast(h, frontier, hash, TreeHash(h, range[k..]));
    } else {
      assert (frontier + [hash])[..|frontier|] == frontier;
    }
  }

  /** Decompose [start, start + size) into perfect subtrees, largest first. */
  method Decompose<D(!new)>(h: (D, D) -> D, lv: seq<seq<D>>, start: nat, size: nat) returns (frontier: seq<D>)
    requires |lv| > 0 && IsLevels(h, lv) && 0 < size && start + size <= |lv[0]| && Aligned(start, size)
    ensures Pending(h, lv[0], frontier, start + size, 0, TreeHash(h, Range(lv[0], start, size)))
  {
    hide *;
    var k := FindLargestPower(size);
    AlignedStart(start, size);
    frontier := [];
    var offset, remaining := start, size;
    ghost var s := lv[0];
    ghost var goal := TreeHash(h, Range(s, start, size));
    PendingStart(h, s, start, size);
    while remaining > 0
      invariant 0 <= remaining && 0 <= offset && offset + remaining == start + size
      invariant remaining > 0 ==> k > 0 && IsPowerOfTwo(k) && remaining < 2 * k && Divides(k, offset)
      invariant Pending(h, s, frontier, offset, remaining, goal)
      decreases k, remaining
    {
      if k > 1 { AlignedBelow(k, offset); }
      if remaining >= k {
        var hash := PerfectSubtreeRoot(h, lv, offset, k);
        PendingStep(h, s, frontier, offset, remaining, goal, k);
        frontier := frontier + [hash];
        offset := offset + k;
        remaining := remaining - k;
      }
      k := k / 2;
    }
  }

  /** The hash of the leaves [start, start + size), and the given zero for none. */
  method SubtreeRoot<D(!new)>(h: (D, D) -> D, zero: D, lv: seq<seq<D>>, start: nat, size: nat) returns (d: D)
    requires |lv| > 0 && IsLevels(h, lv) && start + size <= |lv[0]| && (size > 0 ==> Aligned(start, size))
    ensures d == if size == 0 then zero else TreeHash(h, Range(lv[0], start, size))
  {
    if size == 0 {
      return zero;
    }
    var frontier := Decompose(h, lv, start, size);
    hide TreeHash, IsLevels, Aligned, Range;
    ghost var goal := TreeHash(h, Range(lv[0], start, size));
    var i := |frontier| - 1;
    d := frontier[i];
    while i > 0
      invariant 0 <= i < |frontier|
      invariant FoldRight(h, frontier[..i], d) == goal
    {
      i := i - 1;
      assert frontier[..i + 1] == frontier[..i] + [frontier[i]];
      FoldRightLast(h, frontier[..i], frontier[i], d);
      d := h(frontier[i], d);
    }
  }

  lemma ConsistencyPathRange<D>(h: (D, D) -> D, s: seq<D>, start: nat, n: nat, m: nat)
    requires start + n <= |s| && 0 < m <= n
    ensures m == n ==> ConsistencyPath(h, Range(s, start, n), m) == []
    ensures m < n ==>
              var k := SplitPoint(n);
              ConsistencyPath(h, Range(s, start, n), m)
              == if m <= k then ConsistencyPath(h, Range(s, start, k), m) + [TreeHash(h, Range(s, start + k, n - k))]
                 else [TreeHash(h, Range(s, start, k))] + ConsistencyPath(h, Range(s, start + k, n - k), m - k)
  {
    hide TreeHash, ConsistencyPath, Range;
    ConsistencyPathSplit(h, Range(s, start, n), m);
    if m < n { RangeSplit(s, start, n, SplitPoint(n)); }
  }

  /** The consistency recursion on the cached tree. */
  method ConsistencyRec<D(!new)>(
    h: (D, D) -> D, zero: D, lv: seq<seq<D>>, start: nat, oldSize: nat, newSize: nat, ghost p: nat)
    returns (path: seq<D>)
    requires |lv| > 0 && IsLevels(h, lv) && 0 < oldSize <= newSize && start + newSize <= |lv[0]| && Fits(start, newSize, p)
    ensures path == ConsistencyPath(h, Range(lv[0], start, newSize), oldSize)
    decreases newSize
  {
    hide *;
    ConsistencyPathRange(h, lv[0], start, newSize, oldSize);
    if oldSize == newSize {
      return [];
    }
    var k := FindSplitPoint(newSize);
    FitsSplit(start, newSize, p);
    if oldSize <= k {
      var sub := ConsistencyRec(h, zero, lv, start, oldSize, k, k);
      var right := SubtreeRoot(h, zero, lv, start + k, newSize - k);
      return sub + [right];
    } else {
      var sub := ConsistencyRec(h, zero, lv, start + k, oldSize - k, newSize - k, k);
      var left := SubtreeRoot(h, zero, lv, start, k);
      return [left] + sub;
    }
  }

  lemma WholeTreeFits(size: nat) returns (p: nat)
    requires size > 0
    ensures Fits(0, size, p) && Aligned(0, size)
  {
    p := 2 * LargestPower(size);
    LargestPowerIsPower(size);
    DoublePower(LargestPower(size));
    DividesIntro(p, 0, 0);
    DividesIntro(LargestPower(size), 0, 0);
  }
}
