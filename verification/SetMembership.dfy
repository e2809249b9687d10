/**
 Set membership proofs: the level-building loops, the proof builder and the
 folding verifier, for any hash function.
 */
module SetMembership {
  import opened Common
  import opened Hashing
  import opened MerkleLevels
  import opened MerkleSoundness
  import opened NumberTheory

  datatype SetMembershipProof =
    SetMembershipProof(elementCommitment: Digest, merkleProof: seq<Step<Digest>>, root: Digest)

  const LEAF_TAG: Bytes := [0x6C, 0x65, 0x61, 0x66, 0x3A] // "leaf:"
  const NODE_TAG: Bytes := [0x6E, 0x6F, 0x64, 0x65, 0x3A] // "node:"

  function Tagged(hash: Bytes -> Digest): (sc: Scheme)
    ensures Separated(sc)
  {
    assert LEAF_TAG[0] != NODE_TAG[0];
    Scheme(hash, LEAF_TAG, NODE_TAG)
  }

  /** What is hashed for an element and for two children. */
  lemma TaggedStrings(hash: Bytes -> Digest, e: Bytes, l: Digest, r: Digest)
    ensures HashLeaf(Tagged(hash), e) == hash([0x6C, 0x65, 0x61, 0x66, 0x3A] + e)
    ensures HashNode(Tagged(hash))(l, r) == hash([0x6E, 0x6F, 0x64, 0x65, 0x3A] + l + r)
  {
    assert NodeInput(Tagged(hash), l, r) == [0x6E, 0x6F, 0x64, 0x65, 0x3A] + l + r;
  }

  function SetRoot(sc: Scheme, elements: seq<Bytes>): (d: Digest)
  {
    if elements == [] then ZERO_DIGEST else Root(HashNode(sc), HashLeaves(sc, elements))
  }

  /** One pass over the chunks of two. */
  method NextLevel(sc: Scheme, level: seq<Digest>) returns (next: seq<Digest>)
    ensures next == LevelUp(HashNode(sc), level)
  {
    next := [];
    var i := 0;
    while i < |level|
      invariant i % 2 == 0 || i == |level|
      invariant 0 <= i <= |level| && |next| == (i + 1) / 2
      invariant forall j :: 0 <= j < |next| ==> next[j] == Parent(HashNode(sc), level, j)
    {
      if i + 1 < |level| {
        next := next + [HashNode(sc)(level[i], level[i + 1])];
        i := i + 2;
      } else {
        next := next + [level[i]];
        i := i + 1;
      }
    }
  }

  method ComputeRoot(sc: Scheme, leaves: seq<Digest>) returns (root: Digest)
    ensures root == if leaves == [] then ZERO_DIGEST else TreeHash(HashNode(sc), leaves)
  {
    if leaves == [] {
      return ZERO_DIGEST;
    }
    var level := leaves;
    while |level| > 1
      invariant |level| > 0 && Root(HashNode(sc), level) == Root(HashNode(sc), leaves)
      decreases |level|
    {
      level := NextLevel(sc, level);
    }
    RootIsTreeHash(HashNode(sc), leaves);
    root := level[0];
  }

  method BuildMerkleTree(sc: Scheme, elements: seq<Bytes>) returns (leaves: seq<Digest>, root: Digest)
    ensures leaves == HashLeaves(sc, elements) && root == SetRoot(sc, elements)
  {
    if elements == [] {
      return [], ZERO_DIGEST;
    }
    leaves := HashLeaves(sc, elements);
    root := ComputeRoot(sc, leaves);
    RootIsTreeHash(HashNode(sc), leaves);
  }

  method BuildProof(sc: Scheme, leaves: seq<Digest>, index: nat) returns (proof: seq<Step<Digest>>)
    requires index < |leaves|
    ensures proof == Path(HashNode(sc), leaves, index)
  {
    hide LevelUp, HashNode;
    proof := [];
    var level: seq<Digest>, idx: nat := leaves, index;
    while |level| > 1
      invariant idx < |level|
      invariant proof + Path(HashNode(sc), level, idx) == Path(HashNode(sc), leaves, index)
      decreases |level|
    {
      ghost var before, step := proof, PathStep(level, idx);
      ghost var rest := Path(HashNode(sc), LevelUp(HashNode(sc), level), idx / 2);
      assert before + (step + rest) == (before + step) + rest;
      var siblingIdx := if idx % 2 == 0 then idx + 1 else idx - 1;
      if siblingIdx < |level| {
        proof := proof + [Step(level[siblingIdx], if idx % 2 == 0 then Right else Left)];
      }
      assert proof == before + step;
      level := NextLevel(sc, level);
      idx := idx / 2;
    }
  }

  method GenerateProof(sc: Scheme, elements: seq<Bytes>, index: nat) returns (proof: Option<SetMembershipProof>)
    ensures proof.None? <==> index >= |elements|
    ensures proof.Some? ==>
              proof.value == SetMembershipProof(HashLeaf(sc, elements[index]),
                                                Path(HashNode(sc), HashLeaves(sc, elements), index),
                                                SetRoot(sc, elements))
  {
    if index >= |elements| {
      return None;
    }
    var leaves, root := BuildMerkleTree(sc, elements);
    var steps := BuildProof(sc, leaves, index);
    proof := Some(SetMembershipProof(HashLeaf(sc, elements[index]), steps, root));
  }

  predicate Accepts(sc: Scheme, proof: SetMembershipProof, element: Bytes)
  {
    && HashLeaf(sc, element) == proof.elementCommitment
    && Fold(HashNode(sc), HashLeaf(sc, element), proof.merkleProof) == proof.root
  }

  method VerifyProof(sc: Scheme, proof: SetMembershipProof, element: Bytes) returns (ok: bool)
    ensures ok <==> Accepts(sc, proof, element)
    ensures HashLeaf(sc, element) != proof.elementCommitment ==> !ok
  {
    var commitment := HashLeaf(sc, element);
    if commitment != proof.elementCommitment {
      return false;
    }
    var current: Digest := commitment;
    var i := 0;
    while i < |proof.merkleProof|
      invariant 0 <= i <= |proof.merkleProof|
      invariant Fold(HashNode(sc), current, proof.merkleProof[i..]) == Fold(HashNode(sc), commitment, proof.merkleProof)
    {
      var step := proof.merkleProof[i];
      assert proof.merkleProof[i..][1..] == proof.merkleProof[i + 1..];
      current := match step.side
        case Left => HashNode(sc)(step.sibling, current)
        case Right => HashNode(sc)(current, step.sibling);
      i := i + 1;
    }
    ok := current == proof.root;
  }

  /** Every generated proof is accepted for its element and has at most
      ceil(log2 n) steps: a proof of c + 1 steps needs more than 2^c elements. */
  lemma GeneratedProofAccepted(sc: Scheme, elements: seq<Bytes>, index: nat)
    requires index < |elements|
    ensures var path := Path(HashNode(sc), HashLeaves(sc, elements), index);
            && Accepts(sc, SetMembershipProof(HashLeaf(sc, elements[index]), path, SetRoot(sc, elements)), elements[index])
            && |path| <= CeilLog2(|elements|)
            && (|path| > 0 ==> Pow(2, |path| - 1) < |elements|)
  {
    hide Pow, Path, Fold;
    var leaves := HashLeaves(sc, elements);
    PathLeadsToRoot(HashNode(sc), leaves, index);
    PathLength(HashNode(sc), leaves, index);
    if |Path(HashNode(sc), leaves, index)| > 0 { PathIsShort(HashNode(sc), leaves, index); }
  }

  /** A proof that carries the root of a non-empty set and is accepted proves
      membership, unless the run exhibits a collision of the hash function. */
  lemma AcceptedProofIsSound(hash: Bytes -> Digest, elements: seq<Bytes>, proof: SetMembershipProof, element: Bytes)
    requires elements != [] && proof.root == SetRoot(Tagged(hash), elements)
    requires Accepts(Tagged(hash), proof, element)
    ensures || element in elements
            || Collide(Tagged(hash), BuildInputs(Tagged(hash), elements),
                       VerifyInputs(Tagged(hash), element, proof.merkleProof))
  {
    AcceptedIsMember(Tagged(hash), elements, element, proof.merkleProof);
  }
}
