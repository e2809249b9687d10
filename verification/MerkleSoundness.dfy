/**
 Soundness of Merkle inclusion proofs by collision extraction: whatever proof
 is accepted, either the element is in the tree or two different strings, one
 hashed while building and one hashed while verifying, have the same digest.
 */
module MerkleSoundness {
  import opened Hashing
  import opened MerkleLevels

  /** Strings hashed while building the tree over the elements. */
  ghost function BuildInputs(sc: Scheme, es: seq<Bytes>): set<Bytes>
  {
    (set e | e in es :: LeafInput(sc, e))
    + (set x | x in HashedPairs(HashNode(sc), HashLeaves(sc, es)) :: NodeInput(sc, x.0, x.1))
  }

  /** Strings hashed while folding d along p. */
  ghost function FoldInputs(sc: Scheme, d: Digest, p: seq<Step<Digest>>): set<Bytes>
    decreases |p|
  {
    if p == [] then {} else
    var last := p[|p| - 1];
    var d' := Fold(HashNode(sc), d, p[..|p| - 1]);
    FoldInputs(sc, d, p[..|p| - 1])
    + {match last.side
       case Left => NodeInput(sc, last.sibling, d')
       case Right => NodeInput(sc, d', last.sibling)}
  }

  ghost function VerifyInputs(sc: Scheme, element: Bytes, p: seq<Step<Digest>>): set<Bytes>
  {
    {LeafInput(sc, element)} + FoldInputs(sc, HashLeaf(sc, element), p)
  }

  ghost predicate Collide(sc: Scheme, xs: set<Bytes>, ys: set<Bytes>)
  {
    exists x, y :: x in xs && y in ys && x != y && sc.hash(x) == sc.hash(y)
  }

  lemma FoldLast<D>(h: (D, D) -> D, d: D, p: seq<Step<D>>)
    requires |p| > 0
    ensures var last := p[|p| - 1];
            var d' := Fold(h, d, p[..|p| - 1]);
            Fold(h, d, p) == match last.side
                             case Left => h(last.sibling, d')
                             case Right => h(d', last.sibling)
  {
    var last := p[|p| - 1];
    assert p == p[..|p| - 1] + [last];
    FoldConcat(h, d, p[..|p| - 1], [last]);
    assert [last][1..] == [];
  }

  /** What the recursive definition hashes over the elements. */
  ghost function TreeInputs(sc: Scheme, es: seq<Bytes>): set<Bytes>
    requires |es| > 0
    decreases |es|
  {
    var h := HashNode(sc);
    var s := HashLeaves(sc, es);
    if |es| == 1 then {LeafInput(sc, es[0])} else
    var k := SplitPoint(|es|);
    {NodeInput(sc, TreeHash(h, s[..k]), TreeHash(h, s[k..]))}
    + TreeInputs(sc, es[..k]) + TreeInputs(sc, es[k..])
  }

  lemma HashLeavesSplit(sc: Scheme, es: seq<Bytes>, k: nat)
    requires k <= |es|
    ensures HashLeaves(sc, es)[..k] == HashLeaves(sc, es[..k])
    ensures HashLeaves(sc, es)[k..] == HashLeaves(sc, es[k..])
  {
  }

  /** Compare the top of the tree with the last verification step, then descend
      into the half the proof came from. */
  lemma {:induction false} AcceptedAgainstTree(sc: Scheme, es: seq<Bytes>, element: Bytes, p: seq<Step<Digest>>)
    requires Separated(sc) && |es| > 0
    requires Fold(HashNode(sc), HashLeaf(sc, element), p) == TreeHash(HashNode(sc), HashLeaves(sc, es))
    ensures element in es || Collide(sc, TreeInputs(sc, es), VerifyInputs(sc, element, p))
    decreases |es|
  {
    var h := HashNode(sc);
    var s := HashLeaves(sc, es);
    var d := HashLeaf(sc, element);
    var top: Bytes :=
      if |es| == 1 then LeafInput(sc, es[0])
      else NodeInput(sc, TreeHash(h, s[..SplitPoint(|es|)]), TreeHash(h, s[SplitPoint(|es|)..]));
    assert top in TreeInputs(sc, es) && sc.hash(top) == TreeHash(h, s);
    if p == [] {
      var y := LeafInput(sc, element);
      assert y in VerifyInputs(sc, element, p) && sc.hash(y) == d;
      if y == top {
        InputsSeparated(sc, element, es[0], s[0], s[0], s[0], s[0]);
        if |es| > 1 {
          var k := SplitPoint(|es|);
          InputsSeparated(sc, element, element, TreeHash(h, s[..k]), TreeHash(h, s[k..]), d, d);
        }
      }
    } else {
      var last := p[|p| - 1];
      var q := p[..|p| - 1];
      var d' := Fold(h, d, q);
      FoldLast(h, d, p);
      var l, r := if last.side.Left? then last.sibling else d', if last.side.Left? then d' else last.sibling;
      var y := NodeInput(sc, l, r);
      assert y in VerifyInputs(sc, element, p) && sc.hash(y) == Fold(h, d, p);
      if y == top {
        if |es| == 1 {
          InputsSeparated(sc, es[0], es[0], l, r, l, r);
        } else {
          var k := SplitPoint(|es|);
          InputsSeparated(sc, element, element, l, r, TreeHash(h, s[..k]), TreeHash(h, s[k..]));
          HashLeavesSplit(sc, es, k);
          if last.side.Left? {
            AcceptedAgainstTree(sc, es[k..], element, q);
          } else {
            AcceptedAgainstTree(sc, es[..k], element, q);
          }
        }
      }
    }
  }

  /** x is hashed for a leaf or for a pair of the tree. */
  ghost predicate IsHashed(sc: Scheme, es: seq<Bytes>, x: Bytes)
    requires |es| > 0
  {
    || (exists e :: e in es && x == LeafInput(sc, e))
    || (exists l, r :: (l, r) in TreePairs(HashNode(sc), HashLeaves(sc, es)) && x == NodeInput(sc, l, r))
  }

  lemma {:induction false} TreeInputsAreHashed(sc: Scheme, es: seq<Bytes>)
    requires |es| > 0
    ensures forall x :: x in TreeInputs(sc, es) ==> IsHashed(sc, es, x)
    decreases |es|
  {
    hide IsHashed, SplitPoint, NodeInput, LeafInput, TreeHash, HashLeaves;
    if |es| > 1 {
      var k := SplitPoint(|es|);
      TreeInputsAreHashed(sc, es[..k]);
      TreeInputsAreHashed(sc, es[k..]);
      forall x | x in TreeInputs(sc, es)
        ensures IsHashed(sc, es, x)
      {
        HashedInHalf(sc, es, x);
      }
    } else {
      LeafIsHashed(sc, es);
    }
  }

  lemma LeafIsHashed(sc: Scheme, es: seq<Bytes>)
    requires |es| > 0
    ensures IsHashed(sc, es, LeafInput(sc, es[0]))
  {
    assert es[0] in es;
  }

  lemma HashedInHalf(sc: Scheme, es: seq<Bytes>, x: Bytes)
    requires |es| > 1
    ensures
      var (k, s) := (SplitPoint(|es|), HashLeaves(sc, es));
      || IsHashed(sc, es[..k], x) || IsHashed(sc, es[k..], x)
      || x == NodeInput(sc, TreeHash(HashNode(sc), s[..k]), TreeHash(HashNode(sc), s[k..]))
      ==> IsHashed(sc, es, x)
  {
    hide SplitPoint, NodeInput, LeafInput, TreeHash, HashLeaves, TreePairs;
    HashLeavesSplit(sc, es, SplitPoint(|es|));
    TreePairsSplit(HashNode(sc), HashLeaves(sc, es));
  }

  /** A proof of any length accepted against the root of a non-empty tree is for
      one of its elements, or exhibits a collision. */
  lemma AcceptedIsMember(sc: Scheme, es: seq<Bytes>, element: Bytes, p: seq<Step<Digest>>)
    requires Separated(sc) && |es| > 0
    requires Fold(HashNode(sc), HashLeaf(sc, element), p) == Root(HashNode(sc), HashLeaves(sc, es))
    ensures element in es || Collide(sc, BuildInputs(sc, es), VerifyInputs(sc, element, p))
  {
    var h := HashNode(sc);
    var s := HashLeaves(sc, es);
    RootIsTreeHash(h, s);
    AcceptedAgainstTree(sc, es, element, p);
    TreeInputsAreHashed(sc, es);
    HashedPairsAreTreePairs(h, s);
    assert TreeInputs(sc, es) <= BuildInputs(sc, es);
  }
}
