/**
 Soundness of consistency paths: whatever base and path rebuild the roots of two
 trees, the leaves of the old tree are the first leaves of the new one, or two
 different pairs among those hashed have the same hash.
 */
module ConsistencySoundness {
  import opened MerkleLevels
  import opened ConsistencyPaths

  /** The pairs hashed when the two roots are rebuilt. */
  ghost function RebuildPairs<D>(h: (D, D) -> D, base: D, p: seq<D>, m: nat, n: nat): (s: set<(D, D)>)
    requires 0 < m <= n && |p| == PathSize(m, n)
    decreases n
  {
    if m == n then {} else
    var k := SplitPoint(n);
    if m <= k then
      var q := p[..|p| - 1];
      {(Rebuild(h, base, q, m, k).1, p[|p| - 1])} + RebuildPairs(h, base, q, m, k)
    else
      var q := p[1..];
      var (o, w) := Rebuild(h, base, q, m - k, n - k);
      {(p[0], o), (p[0], w)} + RebuildPairs(h, base, q, m - k, n - k)
  }

  ghost predicate SameHash<D>(h: (D, D) -> D, x: (D, D), y: (D, D))
  {
    x != y && h(x.0, x.1) == h(y.0, y.1)
  }

  ghost predicate Collision<D(!new)>(h: (D, D) -> D, s: set<(D, D)>)
  {
    exists x, y :: x in s && y in s && SameHash(h, x, y)
  }

  lemma CollisionGrows<D(!new)>(h: (D, D) -> D, s: set<(D, D)>, t: set<(D, D)>)
    requires s <= t && Collision(h, s)
    ensures Collision(h, t)
  {
    var x, y :| x in s && y in s && SameHash(h, x, y);
    assert x in t && y in t;
  }

  /** Equal hashes of two pairs in the set: the pairs are equal, or it is a collision. */
  lemma PairsAgree<D(!new)>(h: (D, D) -> D, s: set<(D, D)>, a: D, b: D, c: D, d: D)
    requires (a, b) in s && (c, d) in s && h(a, b) == h(c, d)
    ensures (a == c && b == d) || Collision(h, s)
  {
    if (a, b) != (c, d) { assert SameHash(h, (a, b), (c, d)); }
  }

  /** Trees of one size with one root have the same leaves. */
  lemma {:induction false} SameRootSameLeaves<D(!new)>(h: (D, D) -> D, a: seq<D>, b: seq<D>)
    requires |a| == |b| > 0 && TreeHash(h, a) == TreeHash(h, b)
    ensures a == b || Collision(h, TreePairs(h, a) + TreePairs(h, b))
    decreases |a|
  {
    hide Collision, TreePairs, SplitPoint;
    if |a| > 1 {
      hide TreeHash;
      var (k, s) := (SplitPoint(|a|), TreePairs(h, a) + TreePairs(h, b));
      TreeHashSplit(h, a);
      TreeHashSplit(h, b);
      TreePairsSplit(h, a);
      TreePairsSplit(h, b);
      PairsAgree(h, s, TreeHash(h, a[..k]), TreeHash(h, a[k..]), TreeHash(h, b[..k]), TreeHash(h, b[k..]));
      if !Collision(h, s) {
        SameRootSameLeaves(h, a[..k], b[..k]);
        if Collision(h, TreePairs(h, a[..k]) + TreePairs(h, b[..k])) {
          CollisionGrows(h, TreePairs(h, a[..k]) + TreePairs(h, b[..k]), s);
        }
        SameRootSameLeaves(h, a[k..], b[k..]);
        if Collision(h, TreePairs(h, a[k..]) + TreePairs(h, b[k..])) {
          CollisionGrows(h, TreePairs(h, a[k..]) + TreePairs(h, b[k..]), s);
        }
        assert a == a[..k] + a[k..] && b == b[..k] + b[k..];
      }
    }
  }

  /** Everything hashed for the two trees and for rebuilding their roots. */
  ghost function AllPairs<D>(h: (D, D) -> D, base: D, p: seq<D>, o: seq<D>, s: seq<D>): (t: set<(D, D)>)
    requires 0 < |o| <= |s| && |p| == PathSize(|o|, |s|)
  {
    TreePairs(h, o) + TreePairs(h, s) + RebuildPairs(h, base, p, |o|, |s|)
  }

  ghost predicate RootsRebuilt<D>(h: (D, D) -> D, base: D, p: seq<D>, o: seq<D>, s: seq<D>)
    requires 0 < |o| <= |s| && |p| == PathSize(|o|, |s|)
  {
    Rebuild(h, base, p, |o|, |s|) == (TreeHash(h, o), TreeHash(h, s))
  }

  lemma LeftStep<D(!new)>(h: (D, D) -> D, base: D, p: seq<D>, o: seq<D>, s: seq<D>)
    requires 0 < |o| < |s| && |p| == PathSize(|o|, |s|) && |o| <= SplitPoint(|s|)
    requires RootsRebuilt(h, base, p, o, s) && !Collision(h, AllPairs(h, base, p, o, s))
    ensures
      var (k, q) := (SplitPoint(|s|), p[..|p| - 1]);
      && RootsRebuilt(h, base, q, o, s[..k])
      && AllPairs(h, base, q, o, s[..k]) <= AllPairs(h, base, p, o, s)
  {
    hide Collision, TreePairs, TreeHash, SplitPoint;
    var (k, q, x) := (SplitPoint(|s|), p[..|p| - 1], p[|p| - 1]);
    assert p == q + [x];
    RebuildLeft(h, base, q, x, |o|, |s|);
    TreeHashSplit(h, s);
    TreePairsSplit(h, s);
    var w := Rebuild(h, base, q, |o|, k).1;
    PairsAgree(h, AllPairs(h, base, p, o, s), w, x, TreeHash(h, s[..k]), TreeHash(h, s[k..]));
  }

  lemma RebuildPairsRight<D>(h: (D, D) -> D, base: D, q: seq<D>, x: D, m: nat, n: nat)
    requires 2 <= n && SplitPoint(n) < m < n && |q| == PathSize(m - SplitPoint(n), n - SplitPoint(n))
    ensures |[x] + q| == PathSize(m, n)
    ensures
      var k := SplitPoint(n);
      var (o, w) := Rebuild(h, base, q, m - k, n - k);
      RebuildPairs(h, base, [x] + q, m, n) == {(x, o), (x, w)} + RebuildPairs(h, base, q, m - k, n - k)
  {
    hide Rebuild;
    assert ([x] + q)[1..] == q;
  }

  lemma PathSizeRight(m: nat, n: nat)
    requires 2 <= n && SplitPoint(n) < m < n
    ensures PathSize(m, n) == 1 + PathSize(m - SplitPoint(n), n - SplitPoint(n))
  {
  }

  lemma SameSplit(m: nat, n: nat)
    requires n >= 2 && SplitPoint(n) < m < n
    ensures SplitPoint(m) == SplitPoint(n)
  {
    SplitPointIsPower(n);
    SplitPointUnique(m, SplitPoint(n));
  }

  /** The pairs hashed for both trees are those at the top and in the halves. */
  lemma HalvesHashed<D>(h: (D, D) -> D, o: seq<D>, s: seq<D>, k: nat)
    requires |s| >= 2 && k == SplitPoint(|s|) && k < |o| < |s|
    ensures (TreeHash(h, o[..k]), TreeHash(h, o[k..])) in TreePairs(h, o)
    ensures (TreeHash(h, s[..k]), TreeHash(h, s[k..])) in TreePairs(h, s)
    ensures TreePairs(h, o[..k]) <= TreePairs(h, o) && TreePairs(h, o[k..]) <= TreePairs(h, o)
    ensures TreePairs(h, s[..k]) <= TreePairs(h, s) && TreePairs(h, s[k..]) <= TreePairs(h, s)
  {
    hide TreePairs, TreeHash, SplitPoint;
    SameSplit(|o|, |s|);
    TreePairsSplit(h, s);
    TreePairsSplit(h, o);
  }

  /** What is hashed for the right half is among all that is hashed. */
  lemma RightPairs<D>(h: (D, D) -> D, base: D, x: D, q: seq<D>, o: seq<D>, s: seq<D>, k: nat)
    requires |s| >= 2 && k == SplitPoint(|s|) && k < |o| < |s| && |q| == PathSize(|o| - k, |s| - k)
    requires |[x] + q| == PathSize(|o|, |s|)
    ensures AllPairs(h, base, q, o[k..], s[k..]) <= AllPairs(h, base, [x] + q, o, s)
  {
    hide TreePairs, TreeHash, SplitPoint, Rebuild, RebuildPairs, PathSize;
    RebuildPairsRight(h, base, q, x, |o|, |s|);
    HalvesHashed(h, o, s, k);
  }

  lemma RightStep<D(!new)>(h: (D, D) -> D, base: D, x: D, q: seq<D>, o: seq<D>, s: seq<D>, k: nat)
    requires |s| >= 2 && k == SplitPoint(|s|) && k < |o| < |s| && |q| == PathSize(|o| - k, |s| - k)
    requires |[x] + q| == PathSize(|o|, |s|)
    requires RootsRebuilt(h, base, [x] + q, o, s) && !Collision(h, AllPairs(h, base, [x] + q, o, s))
    ensures TreeHash(h, o[..k]) == TreeHash(h, s[..k]) && RootsRebuilt(h, base, q, o[k..], s[k..])
  {
    hide Collision, TreePairs, TreeHash, SplitPoint, Rebuild, RebuildPairs, PathSize;
    RebuildPairsRight(h, base, q, x, |o|, |s|);
    HalvesHashed(h, o, s, k);
    RebuildRight(h, base, q, x, |o|, |s|);
    SameSplit(|o|, |s|);
    TreeHashSplit(h, s);
    TreeHashSplit(h, o);
    var (a, b) := Rebuild(h, base, q, |o| - k, |s| - k);
    var all := AllPairs(h, base, [x] + q, o, s);
    PairsAgree(h, all, x, a, TreeHash(h, o[..k]), TreeHash(h, o[k..]));
    PairsAgree(h, all, x, b, TreeHash(h, s[..k]), TreeHash(h, s[k..]));
  }

  /** Any base and path that rebuild both roots prove that the old leaves are a prefix of the new. */
  lemma {:induction false} RebuiltIsPrefix<D(!new)>(h: (D, D) -> D, base: D, p: seq<D>, o: seq<D>, s: seq<D>)
    requires 0 < |o| <= |s| && |p| == PathSize(|o|, |s|) && RootsRebuilt(h, base, p, o, s)
    ensures o <= s || Collision(h, AllPairs(h, base, p, o, s))
    decreases |s|
  {
    hide Collision, TreePairs, TreeHash, RebuildPairs, SplitPoint, Rebuild;
    var all := AllPairs(h, base, p, o, s);
    if |o| == |s| {
      RebuildSame(h, base, |o|);
      SameRootSameLeaves(h, o, s);
      if Collision(h, TreePairs(h, o) + TreePairs(h, s)) {
        CollisionGrows(h, TreePairs(h, o) + TreePairs(h, s), all);
      }
    } else if !Collision(h, all) {
      var k := SplitPoint(|s|);
      if |o| <= k {
        LeftStep(h, base, p, o, s);
        var q := p[..|p| - 1];
        RebuiltIsPrefix(h, base, q, o, s[..k]);
        if Collision(h, AllPairs(h, base, q, o, s[..k])) {
          CollisionGrows(h, AllPairs(h, base, q, o, s[..k]), all);
        }
      } else {
        PathSizeRight(|o|, |s|);
        var (x, q) := (p[0], p[1..]);
        assert p == [x] + q;
        RightPairs(h, base, x, q, o, s, k);
        HalvesHashed(h, o, s, k);
        RightStep(h, base, x, q, o, s, k);
        SameRootSameLeaves(h, o[..k], s[..k]);
        if Collision(h, TreePairs(h, o[..k]) + TreePairs(h, s[..k])) {
          CollisionGrows(h, TreePairs(h, o[..k]) + TreePairs(h, s[..k]), all);
        }
        RebuiltIsPrefix(h, base, q, o[k..], s[k..]);
        if Collision(h, AllPairs(h, base, q, o[k..], s[k..])) {
          CollisionGrows(h, AllPairs(h, base, q, o[k..], s[k..]), all);
        }
        assert o == o[..k] + o[k..] && s == s[..k] + s[k..];
      }
    }
  }
}
