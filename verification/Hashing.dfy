/**
 Byte strings, 32-byte digests and domain-separated Merkle hashing. The hash
 function is a parameter of every definition.
 */
module Hashing {

  type Byte = x: int | 0 <= x < 256

  type Bytes = seq<Byte>

  type Digest = d: Bytes | |d| == 32 witness seq(32, _ => 0)

  const ZERO_DIGEST: Digest :=
    [0, 0, 0, 0, 0, 0, 0, 0, 0, 0, 0, 0, 0, 0, 0, 0,
     0, 0, 0, 0, 0, 0, 0, 0, 0, 0, 0, 0, 0, 0, 0, 0]

  /** A hash function with the tags put in front of leaves and of inner nodes. */
  datatype Scheme = Scheme(hash: Bytes -> Digest, leafTag: Bytes, nodeTag: Bytes)

  function LeafInput(sc: Scheme, e: Bytes): (b: Bytes)
  {
    sc.leafTag + e
  }

  function NodeInput(sc: Scheme, l: Digest, r: Digest): (b: Bytes)
  {
    sc.nodeTag + l + r
  }

  function HashLeaf(sc: Scheme, e: Bytes): (d: Digest)
  {
    sc.hash(LeafInput(sc, e))
  }

  function HashNode(sc: Scheme): (h: (Digest, Digest) -> Digest)
  {
    (l: Digest, r: Digest) => sc.hash(NodeInput(sc, l, r))
  }

  function HashLeaves(sc: Scheme, es: seq<Bytes>): (s: seq<Digest>)
    ensures |s| == |es|
    ensures forall i :: 0 <= i < |s| ==> s[i] == HashLeaf(sc, es[i])
  {
    seq(|es|, i requires 0 <= i < |es| => HashLeaf(sc, es[i]))
  }

  /** Tags of one length that differ keep leaf and node inputs apart. */
  ghost predicate Separated(sc: Scheme)
  {
    |sc.leafTag| == |sc.nodeTag| && sc.leafTag != sc.nodeTag
  }

  lemma InputsSeparated(sc: Scheme, e: Bytes, f: Bytes, l: Digest, r: Digest, l': Digest, r': Digest)
    requires Separated(sc)
    ensures LeafInput(sc, e) != NodeInput(sc, l, r)
    ensures LeafInput(sc, e) == LeafInput(sc, f) ==> e == f
    ensures NodeInput(sc, l, r) == NodeInput(sc, l', r') ==> l == l' && r == r'
  {
    var k := |sc.leafTag|;
    assert LeafInput(sc, e)[..k] == sc.leafTag;
    assert LeafInput(sc, e)[k..] == e && LeafInput(sc, f)[k..] == f;
    assert NodeInput(sc, l, r)[..k] == sc.nodeTag;
    assert NodeInput(sc, l, r)[k..k + 32] == l && NodeInput(sc, l, r)[k + 32..] == r;
    assert NodeInput(sc, l', r')[k..k + 32] == l' && NodeInput(sc, l', r')[k + 32..] == r';
  }
}
