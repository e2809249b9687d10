# Confium

Models of the protocol and data-structure cores of Confium, with proofs of what
they promise over all inputs and all runs.

- **Paillier encryption** (`NumberTheory`, `Paillier`, `MillerRabin`): key
  generation, encryption, decryption and the homomorphic operations over the
  integers, from Fermat's little theorem up; the primality test.
- **Merkle trees** (`MerkleLevels`, `Hashing`, `MerkleSoundness`,
  `SetMembership`, `ConsistencyPaths`, `ConsistencySoundness`, `LevelCache`,
  `Frontier`, `ByteOrder`, `TransparencyLog`): set-membership proofs and the transparency log with its
  cached levels, inclusion and consistency. The hash function is a parameter;
  soundness is proved by exhibiting a collision, not by assuming there is none.
- **Delegation** (`Scope`, `DelegationGraph`, `Manifest`, `RouteOrder`,
  `TrustGraph`): scope
  narrowing, the depth-first cycle check, manifest validation and path finding.
- **Secret sharing** (`Polynomials`, `Lagrange`, `Interpolation`, `Shamir`,
  `PrimeGroup`, `Vss`, `Parties`, `Dkg`): Shamir, Feldman and Pedersen sharing and distributed key
  generation over an arbitrary group of prime order.
- **COSE_Sign1** (`Cbor`, `Cose`): a concrete syntax of CBOR items, a parser for
  exactly that syntax, and the cursor-based reader and the encoders against it.
- **Predicate language** (`PredicateGrammar`, `PredicateDsl`, `PredicateSpacing`): a concrete syntax
  with free spacing, a parser for exactly that syntax up to the depth limit, the
  printer, and the recursive-descent code against them.
- **Stateful services** (`LeaseManager`, `LeaseTtl`, `LeasePurge`, `RecencyList`,
  `VerificationCache`, `RefreshSession`, `PowersOfTwo`, `Accumulator`): leases with fencing tokens, the LRU cache,
  share refresh and the RSA-style accumulator, over whole runs.

Random values, clock readings, hash functions, the alphanumeric test and
signature verification are arguments. A hash map is iterated by taking any
remaining key, so every result about such a loop holds for every order. The
hypotheses made about key pairs, groups and the alphanumeric test can be met:
`Paillier.KeysExist`, `PrimeGroup.BooleansFormGroup` and
`PredicateGrammar.AsciiIsAlnumLike` give instances.

## What the proofs show about the code

- Paillier: all messages round trip under randomness r if and only if r is
  coprime to n (`encrypt` does not check it). Two primes are a key pair exactly
  when they differ and neither divides the other minus one. Decryption fails on
  exactly the multiples of n (`Paillier.DecryptFailsExactly`).
- Narrowing of scopes is checked link by link and is not inherited: an extension
  dimension that a middle authority leaves out comes back unconstrained below it.
  It is inherited if and only if the middle scope repeats every constrained
  extension dimension (`Scope.NarrowingIsInheritedIff`,
  `Manifest.ChainNarrowsExactly`).
- The manifest's cycle search follows the first declaration of an identifier. It
  is exact for the declared graph if and only if identifiers are distinct
  (`Manifest.SearchExactly`); with a repeated one it can miss a declared cycle.
- The entry hash of the log covers sequence, timestamp and artifact hash, and no
  other field. `verify_consistency` does not look at the proof it is given. The
  proof lists are sufficient and sound (`ConsistencyPaths.PathRebuildsRoots`,
  `TransparencyLog.ConsistencySound`), provided the verifier has the hash of the
  last shared subtree. The old root is enough in its place if and only if the old
  size is a power of two or the tree did not grow
  (`ConsistencyPaths.OldRootSufficesExactly`).
- COSE: string lengths are cut to 32 bits, so the round trip holds if and only if
  every field is shorter than 2^32 bytes. Against all other structures an encoding
  is prefix-free if and only if every field is shorter than 2^16 bytes, and among
  structures with bounded fields all encodings are, if and only if the bound is at
  most 2^32 + 2^16 (`Cose.EncodingsPrefixFree`).
- Leases exclude each other at a time if and only if no clock reading but the
  first was later than that time (`LeaseManager.ExclusionExactly`). When all times
  to live are positive, a later reading may come after the first as well, provided
  it does not rise above a reading before it
  (`LeaseTtl.ExclusionExactlyPositive`).
- A lease may be renewed after it expired, as long as nobody took it and it was
  not purged. So a purge can be seen later, exactly through calls that meet a
  purged lease (`LeasePurge.PurgeUnseenExactly`,
  `LeasePurge.LocksUnchangedExactly`).
- The cache files results under the four inputs run together, so inputs that
  differ only in where a field ends share an entry
  (`VerificationCache.SameKeyExactly`).
- The accumulator raises its state again when an element is added twice, without
  recording it, until the next removal that takes effect; and a witness leaves out
  every element with the same exponent. `Accumulator.AcceptedExactly` says after
  which runs a witness is accepted whatever the modulus, and
  `Accumulator.AcceptedUnderModulus` when it is under one modulus, where a
  repetition can go unnoticed (`Accumulator.OneModulusMayCoincide`).
- Path finding returns one path per route, so parallel edges show as repeated
  paths, in depth-first order, and fails at the first bad link in that order
  (`TrustGraph.FindPaths`).
- The comments of the refresh coordinator speak of a polynomial that is 0 at 0;
  the code makes the exclusive or of the shares zero, and that is what is proved.

## Model

| member | source | states |
|---|---|---|
| NumberTheory.ExtendedGcd | crates/confium-crypto-vss/src/paillier.rs:188-196 | the coefficients combine the arguments into a common divisor of both |
| NumberTheory.ModInv | crates/confium-crypto-vss/src/paillier.rs:167-186 | an inverse comes back exactly when the arguments are coprime; it lies in [0, m) and the product is 1 modulo m |
| NumberTheory.Fermat | crates/confium-crypto-vss/src/paillier.rs:73-97 | a^(p-1) is 1 modulo every prime p that does not divide a; what the blinding factor's disappearance rests on |
| Paillier.KeyGeneration | crates/confium-crypto-vss/src/paillier.rs:37-71 | two primes give a key pair exactly when they differ and neither divides the other minus one; the pair then satisfies all the key equations |
| Paillier.GenerateKeypair | crates/confium-crypto-vss/src/paillier.rs:37-71 | the loop stops at the first acceptable pair of primes drawn and returns exactly its key pair, skipping only unacceptable ones |
| Paillier.EncryptOpens | crates/confium-crypto-vss/src/paillier.rs:73-84 | for randomness coprime to n the ciphertext is an encryption of m: raised to lambda it is 1 + m lambda n modulo n^2 |
| Paillier.DecryptOpens | crates/confium-crypto-vss/src/paillier.rs:86-97 | whatever opens to an integer m decrypts to m modulo n |
| Paillier.RoundTripOfUnit | crates/confium-crypto-vss/src/paillier.rs:73-97 | decrypt(encrypt(m, r)) is m for every m below n and every r coprime to n |
| Paillier.EncryptCollision | crates/confium-crypto-vss/src/paillier.rs:73-84 | randomness divisible by a factor of n encrypts two different messages to one ciphertext |
| Paillier.RoundTripExactly | crates/confium-crypto-vss/src/paillier.rs:73-97 | all messages round trip under randomness r if and only if r is coprime to n |
| Paillier.MessageExactly | crates/confium-crypto-vss/src/paillier.rs:73-97 | under a generated key and coprime randomness exactly the numbers below n come back, and encryption refuses exactly the others |
| Paillier.DecryptFailsExactly | crates/confium-crypto-vss/src/paillier.rs:86-97 | under a generated key decryption fails if and only if n divides the ciphertext |
| Paillier.Homomorphism | crates/confium-crypto-vss/src/paillier.rs:99-105 | every expression of additions and scalar multiplications, evaluated on ciphertexts, decrypts to its value on the messages modulo n |
| MillerRabin.SplitTwos | crates/confium-crypto-vss/src/paillier.rs:134-144 | n - 1 is split into its odd part and the power of two |
| MillerRabin.OneRound | crates/confium-crypto-vss/src/paillier.rs:148-162 | one base passes exactly when its chain of squares starts at 1 or meets n - 1 |
| MillerRabin.IsProbablePrime | crates/confium-crypto-vss/src/paillier.rs:121-165 | the loop computes the specified verdict for every list of bases |
| MillerRabin.PrimesAccepted | crates/confium-crypto-vss/src/paillier.rs:121-165 | no prime is ever rejected, whatever bases are drawn |
| MillerRabin.PassesExactly | crates/confium-crypto-vss/src/paillier.rs:147-163 | with n - 1 = 2^r d and d odd, a base passes if and only if a^d is 1 or some a^(d 2^i) with i < r is -1 modulo n |
| MillerRabin.PassesMeans | crates/confium-crypto-vss/src/paillier.rs:147-163 | a base passes if and only if a^(n-1) is 1 modulo n and the squarings from a^d on show no square root of 1 other than 1 and -1 |
| MerkleLevels.RootIsTreeHash | crates/confium-crypto-zk/src/zk_set_membership.rs:56-73 | pairing level by level with promotion of an odd last node equals the recursive hash that splits at the largest power of two below n (section 2.1 of RFC 6962) |
| MerkleLevels.HashedPairsAreTreePairs | crates/confium-crypto-zk/src/zk_set_membership.rs:56-73 | the two computations hash the same set of node pairs |
| MerkleLevels.PathLeadsToRoot | crates/confium-crypto-zk/src/zk_set_membership.rs:115-145 | folding any leaf along its path gives the root |
| MerkleLevels.PathLength | crates/confium-crypto-zk/src/zk_set_membership.rs:115-145 | a path has at most the binary logarithm of the leaf count, rounded up, steps |
| SetMembership.ComputeRoot | crates/confium-crypto-zk/src/zk_set_membership.rs:56-73 | the loop computes the RFC 6962 tree hash, or the zero digest of no leaves |
| SetMembership.BuildMerkleTree | crates/confium-crypto-zk/src/zk_set_membership.rs:35-54 | the leaves are the tagged element hashes and the root is theirs |
| SetMembership.BuildProof | crates/confium-crypto-zk/src/zk_set_membership.rs:115-145 | the loop collects exactly the path of the indexed leaf |
| SetMembership.GenerateProof | crates/confium-crypto-zk/src/zk_set_membership.rs:97-113 | a proof exists exactly for indices within the set and carries the leaf hash, the path and the root |
| SetMembership.VerifyProof | crates/confium-crypto-zk/src/zk_set_membership.rs:147-161 | accepts exactly when the commitment is the element's leaf hash and folding it along the proof gives the root; another commitment is refused whatever path and root |
| SetMembership.GeneratedProofAccepted | crates/confium-crypto-zk/src/zk_set_membership.rs:97-161 | every generated proof is accepted, and one of c + 1 steps needs more than 2^c elements |
| MerkleSoundness.AcceptedIsMember | crates/confium-crypto-zk/src/zk_set_membership.rs:35-94 | an element folding to the root of a non-empty tree is in it, unless a string hashed to build the tree and one hashed to check the proof collide |
| SetMembership.AcceptedProofIsSound | crates/confium-crypto-zk/src/zk_set_membership.rs:35-94 | a proof of any length accepted against the root of a non-empty set is for a member of it, unless a collision among the hashed strings is exhibited |
| SetMembership.TaggedStrings | crates/confium-crypto-zk/src/zk_set_membership.rs:75-94 | the strings hashed for an element and for two children, byte for byte |
| LevelCache.AppendLeaf | crates/confium-transparency/src/merkle.rs:146-191 | updating only the right edge of the cached levels gives the levels of the longer leaf list |
| LevelCache.RebuildLevels | crates/confium-transparency/src/merkle.rs:193-216 | the rebuilt table is the level table of the leaves, empty for none |
| LevelCache.LevelsUnique | crates/confium-transparency/src/merkle.rs:146-216 | the leaves determine the level table, so the incremental and the rebuilt one agree |
| LevelCache.TopIsTreeHash | crates/confium-transparency/src/merkle.rs:146-191 | the top of the level table is the RFC 6962 tree hash of the leaves |
| LevelCache.CachedSubtree | crates/confium-transparency/src/merkle.rs:414-432 | an aligned perfect subtree inside the tree is one cached node, with the subtree's hash |
| LevelCache.ReadPath | crates/confium-transparency/src/merkle.rs:247-283 | reading siblings off the cached levels gives the leaf's path |
| Frontier.FindSplitPoint | crates/confium-transparency/src/merkle.rs:105-114 | finds the largest power of two strictly below n |
| Frontier.PerfectSubtreeRoot | crates/confium-transparency/src/merkle.rs:414-443 | reads off the tree hash of an aligned range of a power of two of leaves |
| Frontier.SubtreeRoot | crates/confium-transparency/src/merkle.rs:361-412 | folding the frontier of perfect subtrees from the right gives the RFC 6962 hash of the range, and zero for an empty one |
| Frontier.ConsistencyRec | crates/confium-transparency/src/merkle.rs:338-359 | computes the consistency path of the range from cached nodes |
| ConsistencyPaths.PathRebuildsRoots | crates/confium-transparency/src/merkle.rs:312-359 | from the hash of the last shared subtree and the path alone both the old and the new root are rebuilt, for every pair of sizes |
| ConsistencyPaths.BaseIsOldTreeExactly | crates/confium-transparency/src/merkle.rs:305-311 | the subtree whose hash a verifier needs beside the path is the whole old tree if and only if the old size is a power of two or the tree did not grow |
| ConsistencyPaths.OldRootSufficesExactly | crates/confium-transparency/src/merkle.rs:312-353 | for all hash functions on the integers and all leaves the old root and the path rebuild the new root, if and only if the old size is a power of two or the tree did not grow |
| ConsistencyPaths.PowerOfTwoConsistency | crates/confium-transparency/src/merkle.rs:305-311 | in that case the old root and the path rebuild both roots |
| ConsistencySoundness.RebuiltIsPrefix | crates/confium-transparency/src/merkle.rs:305-359 | whatever base and path rebuild the roots of two trees, the old leaves are a prefix of the new ones, unless two hashed pairs collide |
| TransparencyLog.ConsistencySound | crates/confium-transparency/src/merkle.rs:305-359 | whatever base and path rebuild the roots of two logs, the old log's records are the first of the new one's, unless two hashed strings collide |
| TransparencyLog.EntryInputInjective | crates/confium-transparency/src/entry.rs:119-131 | the bytes hashed for two entries agree if and only if sequence, timestamp and artifact hash do |
| TransparencyLog.LogStrings | crates/confium-transparency/src/merkle.rs:80-99 | the strings hashed for a leaf and for two children, byte for byte |
| TransparencyLog.MerkleTree.Append | crates/confium-transparency/src/merkle.rs:127-144 | appends the entry, numbering it where the sequence is 0 in a non-empty log; the cached root stays the tree hash of all leaves |
| TransparencyLog.MerkleTree.Root | crates/confium-transparency/src/merkle.rs:230-232 | the cached root is the tree hash of the leaves, or zero |
| TransparencyLog.MerkleTree.ProveInclusion | crates/confium-transparency/src/merkle.rs:247-283 | the path of the entry, or out of range |
| TransparencyLog.MerkleTree.RootAtSize | crates/confium-transparency/src/merkle.rs:452-457 | the tree hash of the first leaves, computed from the present cache |
| TransparencyLog.MerkleTree.ProveConsistency | crates/confium-transparency/src/merkle.rs:312-336 | the consistency path between the sizes, empty from size 0, or out of range |
| TransparencyLog.MerkleTree.VerifyConsistency | crates/confium-transparency/src/merkle.rs:475-512 | accepts exactly old size 0, or both given roots being those of the tree at the old and the present size |
| TransparencyLog.VerifyInclusion | crates/confium-transparency/src/merkle.rs:285-310 | accepts exactly when the fold from the entry's leaf hash gives the root |
| TransparencyLog.InclusionComplete | crates/confium-transparency/src/merkle.rs:247-310 | the proof of every logged entry is accepted against the log's root |
| TransparencyLog.InclusionSound | crates/confium-transparency/src/merkle.rs:285-310 | an accepted proof is for a logged record, unless strings hashed by log and verifier collide |
| Scope.FirstWidenedDimension | crates/confium-signatif/src/scope.rs:129-146 | nothing is reported exactly when the child narrows the parent; otherwise the first widening dimension in order |
| Scope.NarrowsWithinMeaning | crates/confium-signatif/src/scope.rs:41-52 | a value narrows another exactly when everything it allows is allowed there, a set under a single value excepted |
| Scope.NarrowsWithinOrder | crates/confium-signatif/src/scope.rs:41-52 | narrowing of values is a partial order |
| Scope.NarrowingIsInheritedIff | crates/confium-signatif/src/scope.rs:123-146 | everything below a scope narrows another one if and only if the scope narrows it, hidden extensions aside, and repeats every extension dimension it constrains |
| DelegationGraph.CycleSearch.Visit | crates/confium-deployment/src/signatif.rs:315-341 | one visit of the shared-mark search meets a cycle or finishes the node in topological order; it ends because the unmarked nodes decrease |
| DelegationGraph.CycleSearch.VisitAll | crates/confium-deployment/src/signatif.rs:308-346 | the search from a list of nodes succeeds if and only if no cycle is met from any of them |
| DelegationGraph.WalkBounded | crates/confium-deployment/src/signatif.rs:308-346 | in a graph without cycles no walk is longer than the number of nodes it may use |
| Manifest.CheckAcyclic | crates/confium-deployment/src/signatif.rs:308-346 | the check passes if and only if the parent graph has no cycle |
| Manifest.CheckParents | crates/confium-deployment/src/signatif.rs:277-292 | passes if and only if every parent is declared, and otherwise names the first link that is not |
| Manifest.CheckQuorums | crates/confium-deployment/src/signatif.rs:294-299 | passes if and only if every quorum is consistent, and otherwise names the first that is not |
| Manifest.CheckLinks | crates/confium-deployment/src/signatif.rs:348-360 | passes if and only if every declared link narrows, and otherwise names the first that widens and its first widened dimension |
| Manifest.Validate | crates/confium-deployment/src/signatif.rs:269-362 | returns the first violation in the order of the checks, with what the message names; no root is reported if and only if every declaration names a parent, and an accepted manifest has possible quorums and policy |
| Manifest.RootsAppend | crates/confium-deployment/src/signatif.rs:228-234 | the roots are the declarations without parents in document order: a last declaration comes last among them or not at all |
| Manifest.AcceptedMeans | crates/confium-deployment/src/signatif.rs:269-362 | acceptance written out over positions in the document: a declaration without parents, all parents declared, 1 <= T <= N and 1 <= M <= K, no cycle, and every child narrows the first declaration of each parent |
| Manifest.OrderIrrelevant | crates/confium-deployment/src/signatif.rs:269-362 | with distinct identifiers acceptance does not depend on the order of the declarations |
| Manifest.ChainsAreShort | crates/confium-deployment/src/signatif.rs:269-362 | in an accepted manifest every parent chain has fewer steps than there are authorities |
| Manifest.ChainReachesRoot | crates/confium-deployment/src/signatif.rs:269-362 | every parent chain of an accepted manifest extends to a root |
| Manifest.AncestorsNarrow | crates/confium-deployment/src/signatif.rs:348-360 | along a chain whose middle scopes repeat the constrained extension dimensions, the start narrows every ancestor |
| Manifest.ChainNarrowsExactly | crates/confium-deployment/src/signatif.rs:348-360 | along a fixed chain everything below its first parent narrows all ancestors if and only if that parent narrows each, hidden extensions aside, and repeats the extension dimensions each constrains |
| Manifest.GrandchildMayWiden | crates/confium-deployment/src/signatif.rs:348-360 | without that condition an accepted manifest can have a grandchild wider than its grandparent |
| Manifest.SearchExactly | crates/confium-deployment/src/signatif.rs:308-346 | over all manifests with given identifiers the search finds exactly the cycles of the declared graph if and only if no identifier is repeated |
| Manifest.RepeatedIdHidesCycle | crates/confium-deployment/src/signatif.rs:308-346 | for every repeated identifier there is an accepted manifest with a declared cycle |
| TrustGraph.IsAcyclic | crates/confium-signatif/src/graph.rs:235-261 | true if and only if no cycle is met from a node, also when edges name unknown identifiers |
| TrustGraph.Graph.AddNode | crates/confium-signatif/src/graph.rs:187-189 | stores the node and keeps the graph acyclic |
| TrustGraph.Graph.AddDelegation | crates/confium-signatif/src/graph.rs:197-213 | adds the edge exactly when both ends are known and no cycle arises, and otherwise leaves the edges as they were |
| TrustGraph.Walk | crates/confium-signatif/src/graph.rs:287-331 | appends one path for each route on to an anchored root, in depth-first order of the edge positions, skipping unknown parents; fails exactly when a link within reach is bad, and names the first one met |
| TrustGraph.FindPaths | crates/confium-signatif/src/graph.rs:274-331 | succeeds exactly when on every link above the signer the parent signed the child and the child's scope narrows the parent's; the list then holds one path per route in depth-first order, so all verification paths and nothing else; otherwise the error is that of the first bad link |
| TrustGraph.GoodMeansDelegates | crates/confium-signatif/src/graph.rs:304-322 | the link test says: signed under the parent over the child, and narrowed; for every link of every chain above a node |
| TrustGraph.ErrorMeansBroken | crates/confium-signatif/src/graph.rs:304-322 | a bad-signature error names an edge above the signer that its parent did not sign, a scope error a signed one whose child is wider |
| TrustGraph.ListUnique | crates/confium-signatif/src/graph.rs:287-331 | graph and signer determine the returned list, order and repetitions included |
| TrustGraph.ErrorUnique | crates/confium-signatif/src/graph.rs:304-329 | graph and signer determine the returned error |
| RouteOrder.SortedUnique | crates/confium-signatif/src/graph.rs:304-329 | a list of routes in walk order is determined by its members |
| Polynomials.EvalByPowers | crates/confium-coordinator/src/dkg_coordinator.rs:144-153 | running powers give the value of the polynomial modulo q |
| Polynomials.EvalByHorner | crates/confium-tc-frost-p256/src/shamir.rs:72-80 | Horner's rule gives the value of the polynomial modulo q |
| Lagrange.InterpolatesConstant | crates/confium-tc-frost-p256/src/shamir.rs:105-127 | the weighted values of any polynomial of degree below the number of points sum to its value at 0 |
| Shamir.HasDuplicate | crates/confium-tc-frost-p256/src/shamir.rs:97-103 | finds exactly whether two shares have the same index |
| Shamir.RecoverSecret | crates/confium-tc-frost-p256/src/shamir.rs:92-128 | computes the interpolated value, with the empty and the duplicate errors |
| Shamir.SharesRecoverConstant | crates/confium-tc-frost-p256/src/shamir.rs:92-128 | enough distinct points of a polynomial recover its constant term |
| Shamir.SplitSecret | crates/confium-tc-frost-p256/src/shamir.rs:49-70 | share i is the polynomial at i |
| Shamir.SplitThenRecover | crates/confium-tc-frost-p256/src/shamir.rs:49-128 | any selection of at least t of the shares, in any order, recovers the secret |
| Interpolation.PolynomialUnique | crates/confium-tc-frost-p256/src/shamir.rs:49-70 | coefficients modulo a prime that agree at as many distinct points are equal |
| Interpolation.PolynomialExists | crates/confium-tc-frost-p256/src/shamir.rs:49-70 | through any points with distinct abscissas passes a polynomial with as many coefficients |
| Shamir.FewerSharesFitAnySecret | crates/confium-tc-frost-p256/src/shamir.rs:49-70 | for any t - 1 shares and any secret exactly one choice of the other coefficients explains the shares |
| Vss.FeldmanVerify | crates/confium-crypto-vss/src/vss.rs:48-60 | accepts exactly when the share in the exponent is the combination of the commitments |
| Vss.FeldmanExact | crates/confium-crypto-vss/src/vss.rs:48-60 | a share is accepted if and only if it is the committed polynomial's value at the party's index |
| Vss.Deal | crates/confium-crypto-vss/src/pedersen_vss.rs:51-101 | the shares are the values of both polynomials and the commitments commit to their coefficients |
| Vss.PedersenVerify | crates/confium-crypto-vss/src/pedersen_vss.rs:103-127 | accepts exactly when the opening is the combination of the commitments, undecodable ones skipped |
| Vss.DealtSharesVerify | crates/confium-crypto-vss/src/pedersen_vss.rs:51-127 | every dealt share is accepted |
| Vss.DealtPublicKey | crates/confium-crypto-vss/src/pedersen_vss.rs:129-143 | the public key of a dealing is the generator times the secret |
| Vss.TwoOpeningsRevealLog | crates/confium-crypto-vss/src/pedersen_vss.rs:103-127 | two different accepted openings at one index determine the discrete logarithm of h |
| Parties.CompleteExactly | crates/confium-coordinator/src/dkg_coordinator.rs:51-53 | n entries keyed from 1 to n are one for every party, and only then |
| Dkg.DkgSession.Submit | crates/confium-coordinator/src/dkg_coordinator.rs:40-49 | stores one contribution per party in range, rejects others and changes nothing then |
| Dkg.DkgSession.IsComplete | crates/confium-coordinator/src/dkg_coordinator.rs:51-53 | complete exactly when every party has contributed |
| Dkg.GenerateContribution | crates/confium-coordinator/src/dkg_coordinator.rs:67-101 | every share is the polynomial's value at the recipient and the commitment is its constant term times the generator |
| Dkg.ComputeAggregateShare | crates/confium-coordinator/src/dkg_coordinator.rs:103-125 | the sum of the shares addressed to the party in whatever order the map yields them; fails exactly when incomplete or a share is missing or bad |
| Dkg.ComputeJointPublicKey | crates/confium-coordinator/src/dkg_coordinator.rs:127-142 | the sum of the commitments in any order, with the same failures |
| Dkg.DkgAgreement | crates/confium-coordinator/src/dkg_coordinator.rs:67-142 | all aggregates lie on one polynomial of degree below t, and the joint key is its constant term times the generator |
| Dkg.AnyQuorumRecovers | crates/confium-coordinator/src/dkg_coordinator.rs:67-142 | any t aggregate shares recover the secret key of the joint public key |
| Cbor.ParseExactly | crates/confium-composite/src/cose.rs:267-334 | the parser accepts exactly the inputs that begin with an item of the concrete syntax |
| Cbor.PrefixFree | crates/confium-composite/src/cose.rs:267-334 | an input begins with at most one item |
| Cbor.NodesBounded | crates/confium-composite/src/cose.rs:267-313 | a value has no more nodes than the bytes it was read from |
| Cbor.NodesCounted | crates/confium-composite/src/cose.rs:267-334 | a value has one node for every head it was written with, the tags aside |
| Cbor.TooMany | crates/confium-composite/src/cose.rs:254-265 | the count guard turns away nothing that could be read |
| Cbor.CborReader.ReadBytes | crates/confium-composite/src/cose.rs:241-252 | the bytes at the cursor, or nothing when they run past the end or the sum overflows |
| Cbor.CborReader.ReadUint | crates/confium-composite/src/cose.rs:315-334 | the argument the additional information announces, or nothing when it is reserved or cut off |
| Cbor.CborReader.Read | crates/confium-composite/src/cose.rs:267-313 | on every input ends within bounds with what the parser finds, having advanced by at least a byte and by no fewer bytes than nodes |
| Cbor.CborReader.ReadItems | crates/confium-composite/src/cose.rs:286-293 | the loop reads the announced number of items or fails where the parser does |
| Cbor.CborReader.ReadEntries | crates/confium-composite/src/cose.rs:295-304 | the loop reads the announced number of keys and values and pairs them in order |
| Cose.ShortestHead | crates/confium-composite/src/cose.rs:96-141 | the head chosen for an integer is valid and no valid head for it is shorter |
| Cose.CborUnsignedInt | crates/confium-composite/src/cose.rs:96-116 | the shortest head that holds the number |
| Cose.CborNegativeInt | crates/confium-composite/src/cose.rs:118-141 | the shortest head that holds -1 - n, for every negative 64-bit n |
| Cose.CborByteString | crates/confium-composite/src/cose.rs:143-163 | head and content, with the length cut to 32 bits |
| Cose.StringParses | crates/confium-composite/src/cose.rs:143-163 | an encoded string reads back as its first |s| mod 2^32 bytes |
| Cose.FieldsExactly | crates/confium-composite/src/cose.rs:209-217 | a list of strings reads back if and only if each is shorter than 2^32 bytes |
| Cose.RoundTripExactly | crates/confium-composite/src/cose.rs:201-220 | decoding an encoding followed by any bytes gives the structure back if and only if all four fields are shorter than 2^32 bytes |
| Cose.EncodingsPrefixFree | crates/confium-composite/src/cose.rs:201-220 | among structures with fields below a limit no encoding is a prefix of another, if and only if the limit is at most 2^32 + 2^16 |
| Cose.PrefixFreeExactly | crates/confium-composite/src/cose.rs:201-220 | no encoding of any other structure begins like that of c, whatever follows, if and only if every field of c is shorter than 2^16 bytes |
| Cose.AlgorithmRoundTrip | crates/confium-composite/src/cose.rs:190-199 | the header built for an algorithm names it, for every 32-bit number |
| Cose.EncodeProtectedHeader | crates/confium-composite/src/cose.rs:190-199 | writes a one-entry map that names the algorithm |
| Cose.EncodeCoseSign1 | crates/confium-composite/src/cose.rs:201-220 | writes tag, array head and the four strings; decodable exactly when they are short enough |
| Cose.DecodeCoseSign1 | crates/confium-composite/src/cose.rs:345-385 | succeeds exactly on a four-element array of byte strings at the front of the input, tags aside |
| Cose.DecodeAlgorithm | crates/confium-composite/src/cose.rs:387-412 | the first entry with key 1 and an integer value, in 32-bit wrapping arithmetic |
| Cose.AlgorithmMeans | crates/confium-composite/src/cose.rs:387-412 | the answer is a if and only if the header is a map whose first entry with key 1 and an integer value is congruent to a modulo 2^32; an error if and only if there is no such entry |
| Cose.OtherKeysIgnored | crates/confium-composite/src/cose.rs:396-410 | entries with other keys can be inserted anywhere without changing the answer |
| Cose.New | crates/confium-composite/src/cose.rs:63-86 | the new structure names its algorithm and, with payload and signature shorter than 2^32 bytes, survives encoding and decoding |
| PredicateGrammar.EatExactly | crates/confium-attributes/src/dsl.rs:186-196 | eating a character succeeds exactly on spaces followed by it |
| PredicateGrammar.QuoteExactly | crates/confium-attributes/src/dsl.rs:165-171 | a string ends at the first quote |
| PredicateGrammar.DigitsExactly | crates/confium-attributes/src/dsl.rs:173-184 | a number is the longest run of digits |
| PredicateGrammar.ParseTree | crates/confium-attributes/src/dsl.rs:53-147 | on success the input is the text of the returned tree followed by the rest, and the tree fits under the depth limit |
| PredicateGrammar.TreeComplete | crates/confium-attributes/src/dsl.rs:53-147 | the text of every tree, with any spacing and trailing commas, parses to it at any depth where it fits, and gives the depth error where it does not |
| PredicateGrammar.ParseExactly | crates/confium-attributes/src/dsl.rs:22-28 | the parser accepts exactly the texts that begin with a tree of height at most 32 |
| PredicateDsl.RoundTrip | crates/confium-attributes/src/dsl.rs:22-28 | parsing the printed form of a predicate gives it back if its height is at most 32 and the depth error otherwise |
| PredicateDsl.ParsedIsCanonical | crates/confium-attributes/src/dsl.rs:22-28 | whatever parses is printable, at most 32 high, and is what its printed form parses to |
| PredicateDsl.ParseIdent | crates/confium-attributes/src/dsl.rs:149-163 | the loop finds the end of the longest identifier |
| PredicateDsl.ParseExpr | crates/confium-attributes/src/dsl.rs:53-147 | the recursive code computes what the parser does, errors included |
| PredicateDsl.ParseString | crates/confium-attributes/src/dsl.rs:165-171 | the quoted string or the parser's error |
| PredicateDsl.ParseCall | crates/confium-attributes/src/dsl.rs:66-146 | the token steps of each branch on the name compute what the parser does for that body, errors in the same order |
| PredicateDsl.ParseJunction | crates/confium-attributes/src/dsl.rs:114-138 | the argument loop of and/or computes what the parser does for the list |
| PredicateDsl.Parse | crates/confium-attributes/src/dsl.rs:25-28 | trims and computes the parser's verdict |
| PredicateSpacing.ParsedExactly | crates/confium-attributes/src/dsl.rs:25-28 | parsing succeeds with q if and only if the text is that of a tree of height at most 32 that means q, followed by anything |
| PredicateSpacing.SpacesAround | crates/confium-attributes/src/dsl.rs:25-28 | spaces around a text change neither success nor error |
| PredicateSpacing.RoundTripAround | crates/confium-attributes/src/dsl.rs:25-28 | a printed predicate with spaces around it parses back, or gives the depth error beyond height 32 |
| LeaseManager.DistributedLockManager.TryAcquire | crates/confium-coordinator/src/distributed_lock.rs:35-60 | one step of the state machine: a grant takes the next token, a refusal changes nothing |
| LeaseManager.DistributedLockManager.Release | crates/confium-coordinator/src/distributed_lock.rs:63-72 | one step of the state machine: only the holder's release removes the lease |
| LeaseManager.DistributedLockManager.Renew | crates/confium-coordinator/src/distributed_lock.rs:75-83 | one step of the state machine: only the holder moves the expiry, and the token stays |
| LeaseManager.DistributedLockManager.PurgeExpired | crates/confium-coordinator/src/distributed_lock.rs:101-107 | one step of the state machine: exactly the expired leases go, and are counted |
| LeaseManager.DistributedLockManager.IsLocked | crates/confium-coordinator/src/distributed_lock.rs:86-92 | locked exactly while an unexpired lease is stored |
| LeaseManager.DistributedLockManager.ActiveCount | crates/confium-coordinator/src/distributed_lock.rs:110-114 | counts the unexpired leases |
| LeaseManager.HolderIsStored | crates/confium-coordinator/src/distributed_lock.rs:35-107 | in every run with no reading but the first later than now, whoever was last told a lease unexpired at now and unreleased is the stored holder with that expiry |
| LeaseManager.MutualExclusion | crates/confium-coordinator/src/distributed_lock.rs:35-107 | in every such run no two holders may act on one resource at now |
| LeaseManager.GrantExactly | crates/confium-coordinator/src/distributed_lock.rs:35-60 | in every such run a request at now is granted if and only if every other holder has released or was last told an expiry that has passed |
| LeaseManager.ExclusionExactly | crates/confium-coordinator/src/distributed_lock.rs:35-107 | over all runs with given clock readings and any times to live, exclusion at now holds if and only if no reading but the first is later than now; the same for the exactness of grants |
| LeaseTtl.ExclusionExactlyPositive | crates/confium-coordinator/src/distributed_lock.rs:35-107 | over all runs with given clock readings and positive times to live, exclusion at now holds if and only if every reading later than now is at most all readings before it; the same for the exactness of grants |
| LeaseManager.Overlaps | crates/confium-coordinator/src/distributed_lock.rs:35-60 | for every list of readings in which a lease can end by a later reading and still reach beyond now, there is a run in which two holders may act at now |
| LeaseManager.TokensIncrease | crates/confium-coordinator/src/distributed_lock.rs:45-59 | later grants carry larger tokens, in every run and under every clock |
| LeaseManager.StoredTokensBelow | crates/confium-coordinator/src/distributed_lock.rs:45-59 | every stored token is below the next one |
| LeasePurge.PurgeUnseenExactly | crates/confium-coordinator/src/distributed_lock.rs:35-114 | from any state and under any clock, all later replies but counts of purges are those of the run without the purge if and only if no later call meets a purged lease; locks and counts are then the same from the purge on |
| LeasePurge.LocksUnchangedExactly | crates/confium-coordinator/src/distributed_lock.rs:75-114 | while time does not run backwards a purge changes no later lock and no count if and only if no later call renews a purged lease for a time still to come |
| LeasePurge.RenewalShowsPurge | crates/confium-coordinator/src/distributed_lock.rs:75-107 | a run where a renewal after a purge makes the difference for the lock and for the next grant |
| RecencyList.ApplyKeeps | crates/confium-composite/src/cache.rs:56-95 | every operation keeps the keys distinct and the length within the capacity |
| RecencyList.PresentExactly | crates/confium-composite/src/cache.rs:56-134 | after any run a key is present if and only if it was used since the last clear and fewer than the capacity of other keys were used after it |
| RecencyList.HitIsLastPut | crates/confium-composite/src/cache.rs:56-95 | a hit returns the value last put under the key |
| VerificationCache.TouchRepresents | crates/confium-composite/src/cache.rs:63-91 | taking the next sequence number makes the key the most recent one of the list |
| VerificationCache.OldestIsFirst | crates/confium-composite/src/cache.rs:130-134 | the entry with the smallest number is the least recently used key |
| VerificationCache.RepresentsUnique | crates/confium-composite/src/cache.rs:36-40 | the numbered map determines the recency list |
| VerificationCache.SameKeyExactly | crates/confium-composite/src/cache.rs:118-128 | two inputs share a key under every hash function if and only if they run together to the same bytes, and with equal field lengths only if they are equal |
| VerificationCache.FieldBoundaryIsLost | crates/confium-composite/src/cache.rs:118-128 | two different inputs with one key |
| VerificationCache.OldestKey | crates/confium-composite/src/cache.rs:130-134 | finds the smallest sequence number whatever the iteration order |
| VerificationCache.VerificationCache.Get | crates/confium-composite/src/cache.rs:56-73 | keeps the map a picture of the recency list; hits exactly as the list's run law says and returns the last value put |
| VerificationCache.VerificationCache.Put | crates/confium-composite/src/cache.rs:76-94 | keeps the map a picture of the recency list, evicting the least recently used key when over capacity |
| VerificationCache.VerificationCache.Len | crates/confium-composite/src/cache.rs:97-99 | never more entries than the capacity |
| VerificationCache.VerificationCache.Clear | crates/confium-composite/src/cache.rs:107-109 | empties map and list; the next number stays |
| RefreshSession.XorInto | crates/confium-coordinator/src/refresh_coordinator.rs:69-77 | the longer length, and in every byte the exclusive or with missing bytes zero |
| RefreshSession.RefreshSession.SubmitContribution | crates/confium-coordinator/src/refresh_coordinator.rs:42-51 | stores one contribution per party in range, rejects others and changes nothing then |
| RefreshSession.RefreshSession.IsComplete | crates/confium-coordinator/src/refresh_coordinator.rs:54-56 | complete exactly when every party has contributed |
| RefreshSession.Combine | crates/confium-coordinator/src/refresh_coordinator.rs:64-80 | the combination of everything sent to the party, whatever order the map yields |
| RefreshSession.RefreshSession.AggregateForParty | crates/confium-coordinator/src/refresh_coordinator.rs:60-81 | exists exactly when the session is complete and somebody sent the party something, and is the combination of it all |
| RefreshSession.GenerateContribution | crates/confium-coordinator/src/refresh_coordinator.rs:99-125 | one share of the given size per party, the shares cancelling in every byte |
| RefreshSession.RefreshConserves | crates/confium-coordinator/src/refresh_coordinator.rs:60-125 | in a complete session of generated contributions the refreshes of all parties cancel in every byte, even for different share sizes |
| Accumulator.ConsistentExactly | crates/confium-crypto-zk/src/accumulator.rs:43-83 | what 2 has been raised to after any run of additions and removals is the product of the stored exponents if and only if no stored element, exponent 1 aside, was added again since the last removal that took effect |
| Accumulator.StateExactly | crates/confium-crypto-zk/src/accumulator.rs:43-83 | after any run the state is 2 to the product of the stored exponents modulo every product of two odd numbers above 3, if and only if nothing was so repeated |
| Accumulator.WitnessExactly | crates/confium-crypto-zk/src/accumulator.rs:43-83 | after any run the witness exponent of a stored element times its own is the state's exponent if and only if nothing was so repeated and no other stored element has the same exponent, 1 aside |
| Accumulator.AcceptedExactly | crates/confium-crypto-zk/src/accumulator.rs:51-68 | after any run the witness of a stored element is accepted by the verification under every such modulus if and only if nothing was repeated and the element's exponent is its own |
| Accumulator.AllAcceptedExactly | crates/confium-crypto-zk/src/accumulator.rs:51-68 | all stored elements' witnesses are so accepted if and only if nothing is stored, or nothing was repeated and exponents above 1 are distinct |
| Accumulator.AcceptedUnderModulus | crates/confium-crypto-zk/src/accumulator.rs:51-68 | under one odd modulus the witness of a stored element is accepted if and only if the order of 2 divides the difference between the state's exponent and the witness exponent times the element's |
| Accumulator.OneModulusMayCoincide | crates/confium-crypto-zk/src/accumulator.rs:43-68 | under one modulus a repetition can go unnoticed: exponent 13 and modulus 35, one element added twice, state and witness as after one addition |
| PowersOfTwo.ResiduesDetermine | crates/confium-crypto-zk/src/accumulator.rs:43-68 | powers of 2 agree modulo every product of two odd numbers above 3 if and only if the exponents are equal |
| PowersOfTwo.PowersAgreeExactly | crates/confium-crypto-zk/src/accumulator.rs:64-68 | modulo an odd number powers of 2 agree if and only if the order of 2 divides the difference of the exponents |
| PowersOfTwo.OrderExists | crates/confium-crypto-zk/src/accumulator.rs:30-40 | 2 has an order modulo every odd number above 1 |
| Accumulator.RepeatedAddFails | crates/confium-crypto-zk/src/accumulator.rs:43-68 | one element added twice: its witness is rejected |
| Accumulator.SharedExponentFails | crates/confium-crypto-zk/src/accumulator.rs:51-68 | two elements with one exponent: the witness is rejected |
| Accumulator.ProdTake | crates/confium-crypto-zk/src/accumulator.rs:53-58 | the product does not depend on the order of iteration |
| Accumulator.Accumulator.constructor | crates/confium-crypto-zk/src/accumulator.rs:30-40 | an empty accumulator with state 2 and modulus p q |
| Accumulator.Accumulator.Add | crates/confium-crypto-zk/src/accumulator.rs:43-48 | stores the element and raises the state; while nothing is repeated the state is 2 to the product of the stored exponents |
| Accumulator.Accumulator.Witness | crates/confium-crypto-zk/src/accumulator.rs:51-61 | exists exactly for stored elements; it verifies when nothing is repeated and the element's exponent is its own |
| Accumulator.Accumulator.Verify | crates/confium-crypto-zk/src/accumulator.rs:64-68 | accepts exactly when the witness raised to the element's exponent is the state; so, in such a run, every stored element's own witness |
| Accumulator.Accumulator.Remove | crates/confium-crypto-zk/src/accumulator.rs:71-83 | a removal that takes effect makes the state 2 to the product of the stored exponents whatever was done before; an absent element changes nothing |
| Accumulator.Recompute | crates/confium-crypto-zk/src/accumulator.rs:73-78 | raising to the exponents one after another in any order gives 2 to their product |

## Left out

- Primality of generated numbers, the error probability of the primality test and the quality of randomness: primes and random values are arguments.
- SHA-256, P-256, hexadecimal, SEC1 and serde encodings: a hash parameter, an arbitrary group of prime order and decoded values stand for them; `VssCommitment::encode` and `decode` with them.
- Paillier.GenerateKeypair: the loop draws from a finite list of pairs of primes, since it need not end on an endless one.
- Manifest.Validate: messages are the values they name, and the order of extension dimensions is an argument; the signature of the manifest is not modelled.
- TrustGraph.FindPaths: trust anchors and signature checks are predicates of the view, and a path is its list of edges; the widened dimension an error names is left to `Scope.FirstWidenedDimension`. Nodes are stored under their own identifiers, as `add_node` stores them: under another key the recursion of the code need not end.
- TransparencyLog.MerkleTree.Append: fields that the entry hash does not cover are not modelled.
- Frontier.SubtreeRoot: starts are aligned, as the assertions of `perfect_subtree_root` demand of its callers; for others the code reads a neighbouring node.
- Frontier.PerfectSubtreeRoot: the recomputation behind the cache look-up is not modelled, because `LevelCache.CachedSubtree` shows the look-up always succeeds.
- Cbor.CborReader.Read: stack depth is not modelled; a 64-bit address space is taken.
- Cose.DecodeAlgorithm: arithmetic wraps as in an optimised build; a build with overflow checks stops at the argument 2^63 - 1.
- Cose.EncodeCoseSign1: the two fixed heads are written as their bytes, without the general array and map head encoders.
- PredicateDsl.ParseExpr: error payloads other than the depth are not modelled; repeated trimming before a token is done once.
- LeasePurge.LocksUnchangedExactly: takes the readings from the purge on in order; `LeasePurge.PurgeUnseenExactly` does not.
- LeaseManager.TokensIncrease: tokens are unbounded, so the wrap of a 64-bit counter is not modelled; each call is one atomic step, as the locks make it.
- VerificationCache.VerificationCache.Get: sequence numbers are unbounded; laws are stated per key, which is a hash of the four inputs run together without separators.
- Accumulator.AcceptedExactly: the modulus ranges over the products of all odd factors above 3, not over primes of a fixed bit length; `Accumulator.AcceptedUnderModulus` is the law for one modulus.
- Accumulator.Accumulator.Verify: nothing is claimed about witnesses forged for absent elements; the exponents are hashes that the code does not make prime.
- RefreshSession.RefreshConserves: secrecy of the refresh is not modelled.
- Lists of missing parties, counts of contributions and `holder` are one-line look-ups and are not modelled.
- Schnorr, NIZK, MuSig and range proofs, the log server, the command line and the bindings are not part of this model.
