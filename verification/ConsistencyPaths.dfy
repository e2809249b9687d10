/**
 Consistency paths between a tree and a prefix of it, and why the generated
 list suffices: together with one perfect subtree of the old tree it rebuilds
 both roots.
 */
module ConsistencyPaths {
  import opened NumberTheory
  import opened MerkleLevels

  /** What the generator emits for the first m leaves of s. */
  function ConsistencyPath<D>(h: (D, D) -> D, s: seq<D>, m: nat): (p: seq<D>)
    requires 0 < m <= |s|
    decreases |s|
  {
    if m == |s| then [] else
    var k := SplitPoint(|s|);
    if m <= k then ConsistencyPath(h, s[..k], m) + [TreeHash(h, s[k..])]
    else [TreeHash(h, s[..k])] + ConsistencyPath(h, s[k..], m - k)
  }

  lemma ConsistencyPathSplit<D>(h: (D, D) -> D, s: seq<D>, m: nat)
    requires 0 < m <= |s|
    ensures m == |s| ==> ConsistencyPath(h, s, m) == []
    ensures m < |s| ==>
              var k := SplitPoint(|s|);
              ConsistencyPath(h, s, m) == if m <= k then ConsistencyPath(h, s[..k], m) + [TreeHash(h, s[k..])]
                                          else [TreeHash(h, s[..k])] + ConsistencyPath(h, s[k..], m - k)
  {
  }

  /** The subtree at which the old and the new tree meet. */
  function BaseOf<D>(s: seq<D>, m: nat): (b: seq<D>)
    requires 0 < m <= |s|
    ensures |b| > 0
    decreases |s|
  {
    if m == |s| then s else
    var k := SplitPoint(|s|);
    if m <= k then BaseOf(s[..k], m) else BaseOf(s[k..], m - k)
  }

  /** The length of a consistency path from m to n leaves. */
  function PathSize(m: nat, n: nat): (l: nat)
    requires 0 < m <= n
    decreases n
  {
    if m == n then 0 else
    var k := SplitPoint(n);
    1 + if m <= k then PathSize(m, k) else PathSize(m - k, n - k)
  }

  /** Old and new root, from the base hash and the path alone. */
  function Rebuild<D>(h: (D, D) -> D, base: D, p: seq<D>, m: nat, n: nat): (r: (D, D))
    requires 0 < m <= n && |p| == PathSize(m, n)
    decreases n
  {
    if m == n then (base, base) else
    var k := SplitPoint(n);
    if m <= k then
      var last := |p| - 1;
      var (o, w) := Rebuild(h, base, p[..last], m, k);
      (o, h(w, p[last]))
    else
      var (o, w) := Rebuild(h, base, p[1..], m - k, n - k);
      (h(p[0], o), h(p[0], w))
  }

  lemma RebuildSame<D>(h: (D, D) -> D, base: D, m: nat)
    requires 0 < m
    ensures Rebuild(h, base, [], m, m) == (base, base)
  {
  }

  lemma RebuildLeft<D>(h: (D, D) -> D, base: D, q: seq<D>, x: D, m: nat, n: nat)
    requires 0 < m < n && m <= SplitPoint(n) && |q| == PathSize(m, SplitPoint(n))
    ensures var (o, w) := Rebuild(h, base, q, m, SplitPoint(n));
            Rebuild(h, base, q + [x], m, n) == (o, h(w, x))
  {
    assert (q + [x])[..|q|] == q;
  }

  lemma RebuildRight<D>(h: (D, D) -> D, base: D, q: seq<D>, x: D, m: nat, n: nat)
    requires 2 <= n && SplitPoint(n) < m < n && |q| == PathSize(m - SplitPoint(n), n - SplitPoint(n))
    ensures var (o, w) := Rebuild(h, base, q, m - SplitPoint(n), n - SplitPoint(n));
            Rebuild(h, base, [x] + q, m, n) == (h(x, o), h(x, w))
  {
    assert ([x] + q)[1..] == q;
  }

  lemma TreeHashPrefix<D>(h: (D, D) -> D, s: seq<D>, m: nat)
    requires |s| >= 2 && SplitPoint(|s|) < m <= |s|
    ensures var k := SplitPoint(|s|);
            TreeHash(h, s[..m]) == h(TreeHash(h, s[..k]), TreeHash(h, s[k..][..m - k]))
  {
    hide TreeHash;
    var k := SplitPoint(|s|);
    SplitPointIsPower(|s|);
    SplitPointUnique(m, k);
    TreeHashSplit(h, s[..m]);
    assert s[..m][..k] == s[..k] && s[..m][k..] == s[k..][..m - k];
  }

  /** The path rebuilds the root of the first m leaves and of all leaves. */
  lemma {:induction false} PathRebuildsRoots<D>(h: (D, D) -> D, s: seq<D>, m: nat)
    requires 0 < m <= |s|
    ensures |ConsistencyPath(h, s, m)| == PathSize(m, |s|)
    ensures Rebuild(h, TreeHash(h, BaseOf(s, m)), ConsistencyPath(h, s, m), m, |s|)
            == (TreeHash(h, s[..m]), TreeHash(h, s))
    decreases |s|
  {
    hide TreeHash, Rebuild, SplitPoint;
    if m == |s| {
      assert s[..m] == s;
      RebuildSame(h, TreeHash(h, s), m);
    } else {
      var k := SplitPoint(|s|);
      TreeHashSplit(h, s);
      if m <= k {
        PathRebuildsRoots(h, s[..k], m);
        assert s[..k][..m] == s[..m];
        RebuildLeft(h, TreeHash(h, BaseOf(s[..k], m)), ConsistencyPath(h, s[..k], m), TreeHash(h, s[k..]), m, |s|);
      } else {
        PathRebuildsRoots(h, s[k..], m - k);
        TreeHashPrefix(h, s, m);
        RebuildRight(h, TreeHash(h, BaseOf(s[k..], m - k)), ConsistencyPath(h, s[k..], m - k), TreeHash(h, s[..k]), m, |s|);
      }
    }
  }

  /** For a power-of-two old size the base is the whole old tree. */
  lemma {:induction false} BaseOfPower<D>(s: seq<D>, m: nat)
    requires 0 < m <= |s| && IsPowerOfTwo(m)
    ensures BaseOf(s, m) == s[..m]
    decreases |s|
  {
    if m < |s| {
      var k := SplitPoint(|s|);
      SplitPointIsPower(|s|);
      PowersHalve(m, k);
      BaseOfPower(s[..k], m);
      assert s[..k][..m] == s[..m];
    } else {
      assert s[..m] == s;
    }
  }

  /** A power of two below twice another does not exceed it. */
  lemma {:induction false} PowersHalve(a: nat, b: nat)
    requires IsPowerOfTwo(a) && IsPowerOfTwo(b) && a < 2 * b
    ensures a <= b
  {
    if a > 1 && b > 1 { PowersHalve(a / 2, b / 2); }
  }

  /** The larger of two powers of two is a multiple of the smaller. */
  lemma {:induction false} PowersDivide(a: nat, b: nat)
    requires IsPowerOfTwo(a) && IsPowerOfTwo(b) && a <= b
    ensures Divides(a, b)
  {
    if a == 1 {
      DividesIntro(1, b, b);
    } else {
      PowersDivide(a / 2, b / 2);
      var k := DividesElim(a / 2, b / 2);
      assert 2 * ((a / 2) * k) == (2 * (a / 2)) * k;
      DividesIntro(a, b, k);
    }
  }

  lemma {:induction false} BaseIsShort<D>(s: seq<D>, m: nat)
    requires 0 < m <= |s|
    ensures |BaseOf(s, m)| <= m && (m < |s| && !IsPowerOfTwo(m) ==> |BaseOf(s, m)| < m)
    decreases |s|
  {
    if m < |s| {
      var k := SplitPoint(|s|);
      SplitPointIsPower(|s|);
      if m <= k { BaseIsShort(s[..k], m); } else { BaseIsShort(s[k..], m - k); }
    }
  }

  /** The base is the whole old tree exactly for a power of two or an unchanged tree. */
  lemma BaseIsOldTreeExactly<D>(s: seq<D>, m: nat)
    requires 0 < m <= |s|
    ensures BaseOf(s, m) == s[..m] <==> IsPowerOfTwo(m) || m == |s|
  {
    BaseIsShort(s, m);
    if IsPowerOfTwo(m) { BaseOfPower(s, m); }
    assert m == |s| ==> s[..m] == s;
  }

  /** So then the old root and the path give both roots. */
  lemma PowerOfTwoConsistency<D>(h: (D, D) -> D, s: seq<D>, m: nat)
    requires 0 < m <= |s| && (IsPowerOfTwo(m) || m == |s|)
    ensures |ConsistencyPath(h, s, m)| == PathSize(m, |s|)
    ensures Rebuild(h, TreeHash(h, s[..m]), ConsistencyPath(h, s, m), m, |s|) == (TreeHash(h, s[..m]), TreeHash(h, s))
  {
    hide TreeHash, Rebuild, BaseOf, ConsistencyPath, PathSize;
    PathRebuildsRoots(h, s, m);
    BaseIsOldTreeExactly(s, m);
  }

  // ---------- when the old root is enough ----------

  /** The old root and the path rebuild the new root. */
  ghost predicate OldRootSuffices(h: (int, int) -> int, s: seq<int>, m: nat)
    requires 0 < m <= |s|
  {
    var p := ConsistencyPath(h, s, m);
    |p| == PathSize(m, |s|) && Rebuild(h, TreeHash(h, s[..m]), p, m, |s|).1 == TreeHash(h, s)
  }

  /** A hash that counts the nodes below. */
  function CountNodes(): (h: (int, int) -> int)
  {
    (a: int, b: int) => a + b + 1
  }

  function Zeros(n: nat): (s: seq<int>)
    ensures |s| == n && forall i :: 0 <= i < n ==> s[i] == 0
  {
    seq(n, _ => 0)
  }

  /** A base too large by d makes the new root too large by d. */
  lemma {:induction false} CountShifts(base: int, d: int, p: seq<int>, m: nat, n: nat)
    requires 0 < m <= n && |p| == PathSize(m, n)
    ensures Rebuild(CountNodes(), base + d, p, m, n).1 == Rebuild(CountNodes(), base, p, m, n).1 + d
    decreases n
  {
    if m < n {
      var k := SplitPoint(n);
      if m <= k {
        CountShifts(base, d, p[..|p| - 1], m, k);
      } else {
        CountShifts(base, d, p[1..], m - k, n - k);
      }
    }
  }

  lemma {:induction false} CountOfZeros(s: seq<int>)
    requires |s| > 0 && forall i :: 0 <= i < |s| ==> s[i] == 0
    ensures TreeHash(CountNodes(), s) == |s| - 1
    decreases |s|
  {
    hide SplitPoint;
    if |s| > 1 {
      var k := SplitPoint(|s|);
      hide TreeHash;
      TreeHashSplit(CountNodes(), s);
      CountOfZeros(s[..k]);
      CountOfZeros(s[k..]);
    }
  }

  lemma {:induction false} BaseWithin(s: seq<int>, m: nat)
    requires 0 < m <= |s| && forall i :: 0 <= i < |s| ==> s[i] == 0
    ensures forall i :: 0 <= i < |BaseOf(s, m)| ==> BaseOf(s, m)[i] == 0
    decreases |s|
  {
    if m < |s| {
      var k := SplitPoint(|s|);
      if m <= k { BaseWithin(s[..k], m); } else { BaseWithin(s[k..], m - k); }
    }
  }

  lemma CountFails(m: nat, n: nat)
    requires 0 < m < n && !IsPowerOfTwo(m)
    ensures !OldRootSuffices(CountNodes(), Zeros(n), m)
  {
    hide TreeHash, Rebuild, BaseOf, ConsistencyPath, PathSize, IsPowerOfTwo, CountNodes;
    var (h, s) := (CountNodes(), Zeros(n));
    var (p, b) := (ConsistencyPath(h, s, m), BaseOf(s, m));
    PathRebuildsRoots(h, s, m);
    BaseIsShort(s, m);
    BaseWithin(s, m);
    CountOfZeros(s[..m]);
    CountOfZeros(b);
    CountShifts(|b| - 1, m - |b|, p, m, n);
  }

  /** Under every hash and for all leaves the old root and the path rebuild the new root if and
      only if the old size is a power of two or the tree did not grow. */
  lemma OldRootSufficesExactly(m: nat, n: nat)
    requires 0 < m <= n
    ensures (forall h: (int, int) -> int, s: seq<int> :: |s| == n ==> OldRootSuffices(h, s, m)) <==>
      IsPowerOfTwo(m) || m == n
  {
    hide OldRootSuffices, IsPowerOfTwo, CountNodes;
    if IsPowerOfTwo(m) || m == n {
      forall h: (int, int) -> int, s: seq<int> | |s| == n
        ensures OldRootSuffices(h, s, m)
      {
        RootSuffices(h, s, m);
      }
    } else {
      CountFails(m, n);
      assert |Zeros(n)| == n;
    }
  }

  lemma RootSuffices(h: (int, int) -> int, s: seq<int>, m: nat)
    requires 0 < m <= |s| && (IsPowerOfTwo(m) || m == |s|)
    ensures OldRootSuffices(h, s, m)
  {
    hide TreeHash, Rebuild, ConsistencyPath, PathSize, IsPowerOfTwo;
    PowerOfTwoConsistency(h, s, m);
  }
}
