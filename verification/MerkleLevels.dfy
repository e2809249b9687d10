/**
 Merkle trees over an arbitrary node hash h. A tree is built level by level,
 pairing neighbours and promoting an odd last node; the same root is given by
 the recursive definition of section 2.1 of RFC 6962, which splits at the
 largest power of two below the number of leaves.
 */
module MerkleLevels {
  import opened NumberTheory

  datatype Side = Left | Right

  datatype Step<D> = Step(sibling: D, side: Side)

  /** The size elements of s from position start on. */
  function Range<D>(s: seq<D>, start: nat, size: nat): (r: seq<D>)
    requires start + size <= |s|
    ensures |r| == size
  {
    s[start..start + size]
  }

  lemma RangeSplit<D>(s: seq<D>, start: nat, size: nat, k: nat)
    requires start + size <= |s| && k <= size
    ensures Range(s, start, size)[..k] == Range(s, start, k)
    ensures Range(s, start, size)[k..] == Range(s, start + k, size - k)
  {
  }

  // ---------- level by level ----------

  function Parent<D>(h: (D, D) -> D, s: seq<D>, i: nat): (d: D)
    requires 2 * i < |s|
  {
    if 2 * i + 1 < |s| then h(s[2 * i], s[2 * i + 1]) else s[2 * i]
  }

  function LevelUp<D>(h: (D, D) -> D, s: seq<D>): (r: seq<D>)
    ensures |r| == (|s| + 1) / 2
    ensures forall i :: 0 <= i < |r| ==> r[i] == Parent(h, s, i)
  {
    seq((|s| + 1) / 2, i requires 0 <= i < (|s| + 1) / 2 => Parent(h, s, i))
  }

  lemma LevelUpSize<D>(h: (D, D) -> D, s: seq<D>)
    ensures |LevelUp(h, s)| == (|s| + 1) / 2
  {
  }

  function Root<D>(h: (D, D) -> D, s: seq<D>): (d: D)
    requires |s| > 0
    decreases |s|
  {
    if |s| == 1 then s[0] else Root(h, LevelUp(h, s))
  }

  // ---------- the recursive definition ----------

  function SplitPoint(n: nat): (k: nat)
    requires n >= 2
    ensures 1 <= k < n <= 2 * k
  {
    if n == 2 then 1 else 2 * SplitPoint((n + 1) / 2)
  }

  function TreeHash<D>(h: (D, D) -> D, s: seq<D>): (d: D)
    requires |s| > 0
    decreases |s|
  {
    if |s| == 1 then s[0] else
    var k := SplitPoint(|s|);
    h(TreeHash(h, s[..k]), TreeHash(h, s[k..]))
  }

  lemma TreeHashSplit<D>(h: (D, D) -> D, s: seq<D>)
    requires |s| >= 2
    ensures TreeHash(h, s) == h(TreeHash(h, s[..SplitPoint(|s|)]), TreeHash(h, s[SplitPoint(|s|)..]))
  {
  }

  ghost predicate IsPowerOfTwo(k: nat)
  {
    k == 1 || (k > 1 && k % 2 == 0 && IsPowerOfTwo(k / 2))
  }

  lemma {:induction false} SplitPointIsPower(n: nat)
    requires n >= 2
    ensures IsPowerOfTwo(SplitPoint(n))
  {
    if n > 2 { SplitPointIsPower((n + 1) / 2); }
  }

  /** The split point is the only power of two in [n/2, n). */
  lemma {:induction false} SplitPointUnique(n: nat, k: nat)
    requires n >= 2 && IsPowerOfTwo(k) && k < n <= 2 * k
    ensures k == SplitPoint(n)
  {
    if n > 2 {
      assert k > 1;
      SplitPointUnique((n + 1) / 2, k / 2);
    }
  }

  /** Splitting a level at an even position splits the level above. */
  lemma LevelUpSplit<D>(h: (D, D) -> D, s: seq<D>, k: nat)
    requires k % 2 == 0 && k <= |s|
    ensures LevelUp(h, s)[..k / 2] == LevelUp(h, s[..k])
    ensures LevelUp(h, s)[k / 2..] == LevelUp(h, s[k..])
  {
    var up := LevelUp(h, s);
    forall i | 0 <= i < k / 2
      ensures up[i] == LevelUp(h, s[..k])[i]
    {
    }
    var right := LevelUp(h, s[k..]);
    assert |up| - k / 2 == |right|;
    forall i | 0 <= i < |right|
      ensures up[k / 2..][i] == right[i]
    {
      assert up[k / 2 + i] == Parent(h, s, k / 2 + i);
    }
  }

  /** Going up one level does not change the recursive hash. */
  lemma {:induction false} TreeHashLevelUp<D>(h: (D, D) -> D, s: seq<D>)
    requires |s| > 0
    ensures TreeHash(h, LevelUp(h, s)) == TreeHash(h, s)
    decreases |s|
  {
    var up := LevelUp(h, s);
    if |s| == 1 {
      assert up == s;
    } else if |s| > 2 {
      hide TreeHash;
      var k := SplitPoint(|s|);
      assert SplitPoint(|up|) == k / 2;
      LevelUpSplit(h, s, k);
      TreeHashLevelUp(h, s[..k]);
      TreeHashLevelUp(h, s[k..]);
      TreeHashSplit(h, s);
      TreeHashSplit(h, up);
    }
  }

  /** Building level by level gives the root of RFC 6962. */
  lemma {:induction false} RootIsTreeHash<D>(h: (D, D) -> D, s: seq<D>)
    requires |s| > 0
    ensures Root(h, s) == TreeHash(h, s)
    decreases |s|
  {
    if |s| > 1 {
      RootIsTreeHash(h, LevelUp(h, s));
      TreeHashLevelUp(h, s);
    }
  }

  // ---------- what is hashed ----------

  ghost function PairsOf<D>(s: seq<D>): set<(D, D)>
  {
    set i | 0 <= i < |s| / 2 :: (s[2 * i], s[2 * i + 1])
  }

  /** All pairs hashed while building the tree level by level. */
  ghost function HashedPairs<D>(h: (D, D) -> D, s: seq<D>): set<(D, D)>
    decreases |s|
  {
    if |s| <= 1 then {} else PairsOf(s) + HashedPairs(h, LevelUp(h, s))
  }

  /** All pairs hashed by the recursive definition. */
  ghost function TreePairs<D>(h: (D, D) -> D, s: seq<D>): set<(D, D)>
    decreases |s|
  {
    if |s| <= 1 then {} else
    var k := SplitPoint(|s|);
    {(TreeHash(h, s[..k]), TreeHash(h, s[k..]))} + TreePairs(h, s[..k]) + TreePairs(h, s[k..])
  }

  lemma PairsOfSplit<D>(s: seq<D>, k: nat)
    requires k % 2 == 0 && k <= |s|
    ensures PairsOf(s) == PairsOf(s[..k]) + PairsOf(s[k..])
  {
    forall x | x in PairsOf(s[k..])
      ensures x in PairsOf(s)
    {
      var i :| 0 <= i < |s[k..]| / 2 && x == (s[k..][2 * i], s[k..][2 * i + 1]);
      assert x == (s[2 * (k / 2 + i)], s[2 * (k / 2 + i) + 1]);
    }
    forall x | x in PairsOf(s)
      ensures x in PairsOf(s[..k]) + PairsOf(s[k..])
    {
      var i :| 0 <= i < |s| / 2 && x == (s[2 * i], s[2 * i + 1]);
      if i < k / 2 {
        assert x == (s[..k][2 * i], s[..k][2 * i + 1]);
      } else {
        var j := i - k / 2;
        assert x == (s[k..][2 * j], s[k..][2 * j + 1]);
      }
    }
  }

  lemma PairsOfOne<D>(s: seq<D>)
    requires |s| <= 1
    ensures PairsOf(s) == {}
  {
  }

  lemma TreePairsSplit<D>(h: (D, D) -> D, s: seq<D>)
    requires |s| > 1
    ensures var k := SplitPoint(|s|);
            TreePairs(h, s) == {(TreeHash(h, s[..k]), TreeHash(h, s[k..]))} + TreePairs(h, s[..k]) + TreePairs(h, s[k..])
  {
  }

  lemma TreePairsOfTwo<D>(h: (D, D) -> D, s: seq<D>)
    requires |s| == 2
    ensures TreePairs(h, s) == PairsOf(s) + TreePairs(h, LevelUp(h, s))
  {
    assert s[..1] == [s[0]] && s[1..] == [s[1]];
    assert (s[2 * 0], s[2 * 0 + 1]) in PairsOf(s);
    assert PairsOf(s) == {(s[0], s[1])};
  }

  lemma {:induction false} TreePairsLevelUp<D>(h: (D, D) -> D, s: seq<D>)
    requires |s| > 0
    ensures TreePairs(h, s) == PairsOf(s) + TreePairs(h, LevelUp(h, s))
    decreases |s|
  {
    var up := LevelUp(h, s);
    if |s| == 1 {
      assert up == s;
      PairsOfOne(s);
    } else if |s| == 2 {
      TreePairsOfTwo(h, s);
    } else {
      var k := SplitPoint(|s|);
      assert SplitPoint(|up|) == k / 2;
      LevelUpSplit(h, s, k);
      hide TreeHash, TreePairs, PairsOf, LevelUp, SplitPoint;
      PairsOfSplit(s, k);
      TreeHashLevelUp(h, s[..k]);
      TreeHashLevelUp(h, s[k..]);
      TreePairsLevelUp(h, s[..k]);
      TreePairsLevelUp(h, s[k..]);
      TreePairsSplit(h, s);
      TreePairsSplit(h, up);
    }
  }

  /** Both ways of building the tree hash the same pairs. */
  lemma {:induction false} HashedPairsAreTreePairs<D>(h: (D, D) -> D, s: seq<D>)
    ensures HashedPairs(h, s) == TreePairs(h, s)
    decreases |s|
  {
    if |s| > 1 {
      HashedPairsAreTreePairs(h, LevelUp(h, s));
      TreePairsLevelUp(h, s);
    }
  }

  // ---------- inclusion paths ----------

  /** The siblings met from leaf i up to the root; a promoted node has none. */
  function Path<D>(h: (D, D) -> D, s: seq<D>, i: nat): (p: seq<Step<D>>)
    requires i < |s|
    decreases |s|
  {
    if |s| == 1 then [] else
    PathStep(s, i) + Path(h, LevelUp(h, s), i / 2)
  }

  function PathStep<D>(s: seq<D>, i: nat): (p: seq<Step<D>>)
    requires i < |s|
    ensures |p| <= 1
  {
    if i % 2 == 1 then [Step(s[i - 1], Left)]
    else if i + 1 < |s| then [Step(s[i + 1], Right)]
    else []
  }

  function Fold<D>(h: (D, D) -> D, d: D, p: seq<Step<D>>): (r: D)
    decreases |p|
  {
    if p == [] then d else
    var e := match p[0].side
      case Left => h(p[0].sibling, d)
      case Right => h(d, p[0].sibling);
    Fold(h, e, p[1..])
  }

  lemma {:induction false} FoldConcat<D>(h: (D, D) -> D, d: D, p: seq<Step<D>>, q: seq<Step<D>>)
    ensures Fold(h, d, p + q) == Fold(h, Fold(h, d, p), q)
    decreases |p|
  {
    if p == [] {
      assert p + q == q;
    } else {
      assert (p + q)[1..] == p[1..] + q;
      var e := match p[0].side
        case Left => h(p[0].sibling, d)
        case Right => h(d, p[0].sibling);
      FoldConcat(h, e, p[1..], q);
    }
  }

  /** Folding a leaf along its path yields the root. */
  lemma {:induction false} PathLeadsToRoot<D>(h: (D, D) -> D, s: seq<D>, i: nat)
    requires i < |s|
    ensures Fold(h, s[i], Path(h, s, i)) == Root(h, s)
    decreases |s|
  {
    if |s| > 1 {
      var up := LevelUp(h, s);
      var step := PathStep(s, i);
      assert Fold(h, s[i], step) == Parent(h, s, i / 2) by {
        if step != [] { assert step[1..] == []; }
      }
      FoldConcat(h, s[i], step, Path(h, up, i / 2));
      PathLeadsToRoot(h, up, i / 2);
    }
  }

  function CeilLog2(n: nat): (c: nat)
  {
    if n <= 1 then 0 else 1 + CeilLog2((n + 1) / 2)
  }

  /** It is the least c with n <= 2^c. */
  lemma {:induction false} CeilLog2Least(n: nat)
    requires n > 0
    ensures n <= Pow(2, CeilLog2(n))
    ensures n > 1 ==> Pow(2, CeilLog2(n) - 1) < n
  {
    if n > 1 { CeilLog2Least((n + 1) / 2); }
  }

  lemma {:induction false} PathLength<D>(h: (D, D) -> D, s: seq<D>, i: nat)
    requires i < |s|
    ensures |Path(h, s, i)| <= CeilLog2(|s|)
    decreases |s|
  {
    if |s| > 1 { PathLength(h, LevelUp(h, s), i / 2); }
  }

  lemma {:induction false} PowersOfTwoGrow(a: nat, b: nat)
    requires a <= b
    ensures Pow(2, a) <= Pow(2, b) && Pow(2, a) > 0
  {
    if a < b {
      PowersOfTwoGrow(a, b - 1);
    } else if a > 0 {
      PowersOfTwoGrow(a - 1, a - 1);
    }
  }

  /** A path of c + 1 steps needs more than 2^c leaves. */
  lemma PathIsShort<D>(h: (D, D) -> D, s: seq<D>, i: nat)
    requires i < |s| && |Path(h, s, i)| > 0
    ensures Pow(2, |Path(h, s, i)| - 1) < |s|
  {
    hide Path, Pow;
    PathLength(h, s, i);
    CeilLog2Least(|s|);
    PowersOfTwoGrow(|Path(h, s, i)| - 1, CeilLog2(|s|) - 1);
  }
}
