/**
 The cached levels of an append-only tree: what a well-formed cache is, what
 appending one leaf does to every level, and which cached node is the root of
 an aligned perfect subtree.
 */
module LevelCache {
  import opened NumberTheory
  import opened MerkleLevels

  /** lv holds all levels from the leaves up to the singleton root level. */
  ghost predicate IsLevels<D(!new)>(h: (D, D) -> D, lv: seq<seq<D>>)
  {
    && |lv| > 0
    && |lv[|lv| - 1]| == 1
    && forall k :: 0 <= k < |lv| - 1 ==> |lv[k]| > 1 && lv[k + 1] == LevelUp(h, lv[k])
  }

  /** The cache is determined by the leaves. */
  lemma {:induction false} LevelsUnique<D(!new)>(h: (D, D) -> D, a: seq<seq<D>>, b: seq<seq<D>>)
    requires IsLevels(h, a) && IsLevels(h, b) && a[0] == b[0]
    ensures a == b
  {
    LevelsAgree(h, a, b, if |a| <= |b| then |a| - 1 else |b| - 1);
  }

  lemma {:induction false} LevelsAgree<D(!new)>(h: (D, D) -> D, a: seq<seq<D>>, b: seq<seq<D>>, k: nat)
    requires IsLevels(h, a) && IsLevels(h, b) && a[0] == b[0] && k < |a| && k < |b|
    ensures forall i :: 0 <= i <= k ==> a[i] == b[i]
  {
    if k > 0 {
      LevelsAgree(h, a, b, k - 1);
      assert a[k - 1] == b[k - 1];
      assert a[k] == LevelUp(h, a[k - 1]) && b[k] == LevelUp(h, b[k - 1]);
    }
  }

  lemma {:induction false} LevelNonEmpty<D(!new)>(h: (D, D) -> D, lv: seq<seq<D>>, k: nat)
    requires |lv| > 0 && IsLevels(h, lv) && k < |lv|
    ensures |lv[k]| > 0
  {
  }

  /** The top of the cache is the tree hash of the leaves. */
  lemma {:induction false} TopIsTreeHash<D(!new)>(h: (D, D) -> D, lv: seq<seq<D>>)
    requires IsLevels(h, lv)
    ensures |lv[0]| > 0 && lv[|lv| - 1][0] == TreeHash(h, lv[0])
    decreases |lv|
  {
    if |lv| > 1 {
      var rest := lv[1..];
      forall k | 0 <= k < |rest| - 1
        ensures |rest[k]| > 1 && rest[k + 1] == LevelUp(h, rest[k])
      {
        assert rest[k] == lv[k + 1];
      }
      TopIsTreeHash(h, rest);
      assert lv[1] == LevelUp(h, lv[0]);
      TreeHashLevelUp(h, lv[0]);
    }
  }

  // ---------- appending ----------

  /** t arises from s by replacing the last node or adding one. */
  ghost predicate TailChanged<D>(s: seq<D>, t: seq<D>)
  {
    |t| > 0 && |t| - 1 <= |s| <= |t| && t[..|t| - 1] == s[..|t| - 1]
  }

  /** The tail of the level above is the only node that can change there. */
  lemma TailChangedUp<D>(h: (D, D) -> D, s: seq<D>, t: seq<D>)
    requires TailChanged(s, t)
    ensures TailChanged(LevelUp(h, s), LevelUp(h, t))
  {
    var us, ut := LevelUp(h, s), LevelUp(h, t);
    var m := |ut| - 1;
    assert |s| == |t| || |s| == |t| - 1;
    forall i | 0 <= i < m
      ensures us[i] == ut[i]
    {
      assert t[..|t| - 1][2 * i] == s[..|t| - 1][2 * i];
      assert t[..|t| - 1][2 * i + 1] == s[..|t| - 1][2 * i + 1];
    }
    assert ut[..m] == us[..m];
  }

  /** Writing the new tail into the old level yields the new level. */
  lemma TailWritten<D>(s: seq<D>, t: seq<D>)
    requires TailChanged(s, t)
    ensures |s| == |t| ==> s[..|s| - 1] + [t[|t| - 1]] == t
    ensures |s| < |t| ==> s + [t[|t| - 1]] == t
  {
    assert t == t[..|t| - 1] + [t[|t| - 1]];
    assert |s| == |t| ==> s == s[..|t| - 1] + [s[|s| - 1]];
  }

  /** Derive the tail of level j+1 from level j and write it there: it replaces
      the tail, is appended, or starts a new top level. */
  method WriteAbove<D>(h: (D, D) -> D, lv: seq<seq<D>>, j: nat, ghost below: seq<D>) returns (r: seq<seq<D>>)
    requires j < |lv| && |lv[j]| > 1
    requires j + 1 < |lv| ==> TailChanged(below, lv[j]) && lv[j + 1] == LevelUp(h, below)
    requires j + 1 == |lv| ==> |lv[j]| == 2
    ensures |r| == if j + 1 < |lv| then |lv| else |lv| + 1
    ensures forall k :: 0 <= k < |lv| && k != j + 1 ==> r[k] == lv[k]
    ensures r[j + 1] == LevelUp(h, lv[j])
  {
    var n := |lv[j]|;
    var up := if n % 2 == 0 then h(lv[j][n - 2], lv[j][n - 1]) else lv[j][n - 1];
    var target := (n + 1) / 2;
    ghost var next := LevelUp(h, lv[j]);
    assert |next| == target && next[target - 1] == up;
    if j + 1 == |lv| {
      r := lv + [[up]];
    } else {
      TailChangedUp(h, below, lv[j]);
      TailWritten(lv[j + 1], next);
      var above := lv[j + 1];
      r := lv[j + 1 := if |above| == target then above[..target - 1] + [up] else above + [up]];
    }
  }

  /** Place a leaf into the levels, walking up to the root. */
  method AppendLeaf<D(!new)>(h: (D, D) -> D, levels: seq<seq<D>>, leaf: D) returns (lv: seq<seq<D>>, root: D)
    requires levels == [] || IsLevels(h, levels)
    ensures |lv| > 0 && IsLevels(h, lv)
    ensures lv[0] == (if levels == [] then [] else levels[0]) + [leaf]
    ensures root == lv[|lv| - 1][0]
  {
    if levels == [] {
      return [[leaf]], leaf;
    }
    LevelNonEmpty(h, levels, 0);
    lv := levels[0 := levels[0] + [leaf]];
    var j := 0;
    while true
      invariant 0 <= j < |levels| && |lv| == |levels|
      invariant forall k :: j < k < |lv| ==> lv[k] == levels[k]
      invariant forall k :: 0 <= k < j ==> |lv[k]| > 1 && lv[k + 1] == LevelUp(h, lv[k])
      invariant |lv[j]| > 1 && TailChanged(levels[j], lv[j])
      invariant lv[0] == levels[0] + [leaf]
      decreases |levels| - j
    {
      ghost var below := levels[j];
      ghost var before := lv;
      assert j + 1 < |levels| ==> |below| > 1 && levels[j + 1] == LevelUp(h, below);
      assert j + 1 == |levels| ==> |below| == 1;
      TailChangedUp(h, below, lv[j]);
      LevelUpSize(h, lv[j]);
      hide LevelUp;
      lv := WriteAbove(h, lv, j, below);
      assert forall k :: 0 <= k < j ==> lv[k] == before[k];
      j := j + 1;
      if |lv[j]| == 1 {
        assert |lv| == j + 1 by {
          if j < |levels| { LevelNonEmpty(h, levels, j); }
        }
        return lv, lv[j][0];
      }
    }
  }

  /** The full rebuild from the leaves. */
  method RebuildLevels<D(!new)>(h: (D, D) -> D, leaves: seq<D>) returns (lv: seq<seq<D>>)
    ensures if leaves == [] then lv == [] else |lv| > 0 && IsLevels(h, lv) && lv[0] == leaves
  {
    if leaves == [] {
      return [];
    }
    lv := [leaves];
    while |lv[|lv| - 1]| > 1
      invariant |lv| > 0 && lv[0] == leaves && |lv[|lv| - 1]| > 0
      invariant forall k :: 0 <= k < |lv| - 1 ==> |lv[k]| > 1 && lv[k + 1] == LevelUp(h, lv[k])
      decreases |lv[|lv| - 1]|
    {
      lv := lv + [LevelUp(h, lv[|lv| - 1])];
    }
  }

  /** The inclusion path of leaf i, read from the cache. */
  method ReadPath<D(!new)>(h: (D, D) -> D, lv: seq<seq<D>>, i: nat) returns (steps: seq<Step<D>>)
    requires |lv| > 0 && IsLevels(h, lv) && i < |lv[0]|
    ensures steps == Path(h, lv[0], i)
  {
    steps := [];
    var idx: nat, level := i, 0;
    while level < |lv| - 1
      invariant 0 <= level <= |lv| - 1 && idx < |lv[level]|
      invariant steps + Path(h, lv[level], idx) == Path(h, lv[0], i)
    {
      var current := lv[level];
      ghost var before, step := steps, PathStep(current, idx);
      ghost var rest := Path(h, lv[level + 1], idx / 2);
      assert lv[level + 1] == LevelUp(h, current);
      LevelUpSize(h, current);
      hide IsLevels, LevelUp;
      assert before + (step + rest) == (before + step) + rest;
      if idx % 2 == 0 {
        if idx + 1 < |current| {
          steps := steps + [Step(current[idx + 1], Right)];
        }
      } else {
        steps := steps + [Step(current[idx - 1], Left)];
      }
      assert steps == before + step;
      idx := idx / 2;
      level := level + 1;
    }
  }

  // ---------- perfect subtrees ----------

  function LevelSize(j: nat): (k: nat)
    ensures k > 0
  {
    if j == 0 then 1 else 2 * LevelSize(j - 1)
  }

  /** The first leaf below node i of level j. */
  function NodeStart(j: nat, i: nat): (a: nat)
  {
    if j == 0 then i else NodeStart(j - 1, 2 * i)
  }

  lemma {:induction false} NodeStartNext(j: nat, i: nat)
    ensures NodeStart(j, i + 1) == NodeStart(j, i) + LevelSize(j)
  {
    if j > 0 {
      NodeStartNext(j - 1, 2 * i);
      NodeStartNext(j - 1, 2 * i + 1);
    }
  }

  lemma {:induction false} NodeStartIsProduct(j: nat, i: nat)
    ensures NodeStart(j, i) == i * LevelSize(j)
  {
    if j > 0 { NodeStartIsProduct(j - 1, 2 * i); }
  }

  lemma {:induction false} LevelSizeIsPower(j: nat)
    ensures IsPowerOfTwo(LevelSize(j))
  {
    if j > 0 { LevelSizeIsPower(j - 1); }
  }

  lemma PerfectSplit<D>(h: (D, D) -> D, s: seq<D>, c: nat)
    requires c > 0 && IsPowerOfTwo(c) && |s| == 2 * c
    ensures TreeHash(h, s) == h(TreeHash(h, s[..c]), TreeHash(h, s[c..]))
  {
    SplitPointUnique(|s|, c);
    TreeHashSplit(h, s);
  }

  lemma TreeHashOne<D>(h: (D, D) -> D, s: seq<D>, i: nat)
    requires i < |s|
    ensures TreeHash(h, s[i..i + 1]) == s[i]
  {
  }

  /** A cached node is the hash of the complete range of leaves below it. */
  lemma {:induction false} CachedNode<D(!new)>(h: (D, D) -> D, lv: seq<seq<D>>, j: nat, i: nat)
    requires |lv| > 0 && IsLevels(h, lv) && NodeStart(j, i) + LevelSize(j) <= |lv[0]|
    ensures j < |lv| && i < |lv[j]|
    ensures lv[j][i] == TreeHash(h, lv[0][NodeStart(j, i)..NodeStart(j, i) + LevelSize(j)])
    decreases j
  {
    hide TreeHash;
    if j == 0 {
      TreeHashOne(h, lv[0], i);
    } else {
      var a, c := NodeStart(j, i), LevelSize(j - 1);
      NodeStartNext(j - 1, 2 * i);
      CachedNode(h, lv, j - 1, 2 * i);
      CachedNode(h, lv, j - 1, 2 * i + 1);
      assert |lv[j - 1]| > 1;
      assert lv[j] == LevelUp(h, lv[j - 1]);
      assert lv[j][i] == h(lv[j - 1][2 * i], lv[j - 1][2 * i + 1]);
      LevelSizeIsPower(j - 1);
      var s := lv[0][a..a + 2 * c];
      assert TreeHash(h, s) == lv[j][i] by {
        hide LevelUp, IsLevels;
        PerfectSplit(h, s, c);
        assert s[..c] == lv[0][a..a + c];
        assert s[c..] == lv[0][a + c..a + 2 * c];
      }
    }
  }

  function Log2(k: nat): (j: nat)
    requires k > 0
  {
    if k == 1 then 0 else 1 + Log2(k / 2)
  }

  lemma {:induction false} Log2OfPower(k: nat)
    requires IsPowerOfTwo(k)
    ensures LevelSize(Log2(k)) == k
  {
    if k > 1 { Log2OfPower(k / 2); }
  }

  lemma ExactQuotient(d: nat, x: nat)
    requires d > 0 && Divides(d, x)
    ensures x / d >= 0 && (x / d) * d == x
  {
  }

  /** An aligned perfect subtree is read from level log2(size). */
  lemma CachedSubtree<D(!new)>(h: (D, D) -> D, lv: seq<seq<D>>, start: nat, size: nat, i: nat)
    requires |lv| > 0 && IsLevels(h, lv) && IsPowerOfTwo(size) && size > 0 && i * size == start && start + size <= |lv[0]|
    ensures Log2(size) < |lv| && i < |lv[Log2(size)]|
    ensures lv[Log2(size)][i] == TreeHash(h, Range(lv[0], start, size))
  {
    hide IsLevels, TreeHash;
    Log2OfPower(size);
    NodeStartIsProduct(Log2(size), i);
    CachedNode(h, lv, Log2(size), i);
  }
}
