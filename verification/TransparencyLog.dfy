/**
 The transparency log: an append-only Merkle tree whose levels are cached and
 updated along one path per append.
 */
module TransparencyLog {
  import opened Common
  import opened Hashing
  import opened ByteOrder
  import opened MerkleLevels
  import opened MerkleSoundness
  import opened ConsistencyPaths
  import opened ConsistencySoundness
  import opened LevelCache
  import opened Frontier

  /** The timestamp counts microseconds; artifactType and metadata are carried
      but not hashed. */
  datatype Entry =
    Entry(sequence: U64, timestamp: I64, artifactType: string, artifactHash: Digest, metadata: string)

  datatype InclusionProof = InclusionProof(sequence: nat, steps: seq<Step<Digest>>)

  datatype MerkleError = OutOfRange | ConsistencyFailed | InclusionFailed

  function EntryInput(e: Entry): (b: Bytes)
  {
    LittleEndian(e.sequence, 8) + LittleEndian(e.timestamp % TWO_64, 8) + e.artifactHash
  }

  function EntryHashes(hash: Bytes -> Digest, es: seq<Entry>): (s: seq<Bytes>)
    ensures |s| == |es|
    ensures forall i :: 0 <= i < |s| ==> s[i] == hash(EntryInput(es[i]))
  {
    seq(|es|, i requires 0 <= i < |es| => hash(EntryInput(es[i])))
  }

  /** The fields that the entry hash covers. */
  predicate SameRecord(a: Entry, b: Entry)
  {
    a.sequence == b.sequence && a.timestamp == b.timestamp && a.artifactHash == b.artifactHash
  }

  lemma TwosComplementInjective(x: I64, y: I64)
    requires x % TWO_64 == y % TWO_64
    ensures x == y
  {
    assert x % TWO_64 == if x >= 0 then x else x + TWO_64;
    assert y % TWO_64 == if y >= 0 then y else y + TWO_64;
  }

  /** The bytes hashed for two entries agree exactly when sequence, timestamp and artifact hash do. */
  lemma EntryInputInjective(a: Entry, b: Entry)
    ensures EntryInput(a) == EntryInput(b) <==> SameRecord(a, b)
  {
    hide LittleEndian, Pow256;
    var x, y := EntryInput(a), EntryInput(b);
    if x == y {
      var s, s' := LittleEndian(a.sequence, 8), LittleEndian(b.sequence, 8);
      var t, t' := LittleEndian(a.timestamp % TWO_64, 8), LittleEndian(b.timestamp % TWO_64, 8);
      assert s == x[..8] == y[..8] == s';
      assert t == x[8..16] == y[8..16] == t';
      assert a.artifactHash == x[16..] == y[16..] == b.artifactHash;
      EightOctets();
      LittleEndianInjective(a.sequence, b.sequence, 8);
      LittleEndianInjective(a.timestamp % TWO_64, b.timestamp % TWO_64, 8);
      TwosComplementInjective(a.timestamp, b.timestamp);
    }
  }

  lemma EightOctets()
    ensures Pow256(8) == TWO_64
  {
  }

  /** Tree hashing in the log: tag byte 1 for leaves, 2 for inner nodes. */
  function LogScheme(hash: Bytes -> Digest): (sc: Scheme)
    ensures Separated(sc)
  {
    var l: Bytes, n: Bytes := [1], [2];
    assert l[0] != n[0];
    Scheme(hash, l, n)
  }

  /** What is hashed for a leaf and for two children. */
  lemma LogStrings(hash: Bytes -> Digest, e: Bytes, l: Digest, r: Digest)
    ensures HashLeaf(LogScheme(hash), e) == hash([0x01] + e)
    ensures HashNode(LogScheme(hash))(l, r) == hash([0x02] + l + r)
  {
    assert NodeInput(LogScheme(hash), l, r) == [0x02] + l + r;
  }

  /** The root of a list of leaf hashes; all zero for the empty tree. */
  function LogRoot(sc: Scheme, leaves: seq<Digest>): (d: Digest)
  {
    if leaves == [] then ZERO_DIGEST else TreeHash(HashNode(sc), leaves)
  }

  class MerkleTree {
    const sc: Scheme
    var entries: seq<Entry>
    var leafHashes: seq<Digest>
    var levels: seq<seq<Digest>>
    var cachedRoot: Digest

    ghost predicate CacheValid()
      reads this
    {
      if leafHashes == [] then levels == [] && cachedRoot == ZERO_DIGEST
      else |levels| > 0 && IsLevels(HashNode(sc), levels) && levels[0] == leafHashes && cachedRoot == levels[|levels| - 1][0]
    }

    ghost predicate Valid()
      reads this
    {
      leafHashes == HashLeaves(sc, EntryHashes(sc.hash, entries)) && CacheValid()
    }

    constructor (hash: Bytes -> Digest)
      ensures Valid() && entries == [] && sc == LogScheme(hash)
    {
      sc := LogScheme(hash);
      entries, leafHashes, levels, cachedRoot := [], [], [], ZERO_DIGEST;
    }

    method Append(entry: Entry) returns (index: nat)
      requires Valid() && |entries| < TWO_64
      modifies this
      ensures Valid()
      ensures index == |old(entries)|
      ensures entries == old(entries)
                         + [if entry.sequence == 0 && old(entries) != [] then entry.(sequence := |old(entries)|) else entry]
      ensures cachedRoot == LogRoot(sc, leafHashes)
    {
      hide IsLevels, TreeHash, EntryInput, HashNode, HashLeaf;
      var e := if entry.sequence == 0 && entries != [] then entry.(sequence := |entries|) else entry;
      var leaf := HashLeaf(sc, sc.hash(EntryInput(e)));
      leafHashes := leafHashes + [leaf];
      entries := entries + [e];
      levels, cachedRoot := AppendLeaf(HashNode(sc), levels, leaf);
      TopIsTreeHash(HashNode(sc), levels);
      index := |entries| - 1;
    }

    method Root() returns (root: Digest)
      requires Valid()
      ensures root == LogRoot(sc, leafHashes)
    {
      if leafHashes != [] { TopIsTreeHash(HashNode(sc), levels); }
      root := cachedRoot;
    }

    /** The path read from the cached levels. */
    method ProveInclusion(sequence: nat) returns (r: Result<InclusionProof, MerkleError>)
      requires Valid()
      ensures sequence >= |entries| ==> r == Err(OutOfRange)
      ensures sequence < |entries| ==> r == Ok(InclusionProof(sequence, Path(HashNode(sc), leafHashes, sequence)))
    {
      if sequence >= |leafHashes| {
        return Err(OutOfRange);
      }
      var steps := ReadPath(HashNode(sc), levels, sequence);
      r := Ok(InclusionProof(sequence, steps));
    }

    method RootAtSize(size: nat) returns (d: Digest)
      requires Valid()
      ensures d == if size > |leafHashes| then ZERO_DIGEST else LogRoot(sc, leafHashes[..size])
    {
      if size == 0 || size > |leafHashes| {
        return ZERO_DIGEST;
      }
      ghost var p := WholeTreeFits(size);
      assert Range(leafHashes, 0, size) == leafHashes[..size];
      d := SubtreeRoot(HashNode(sc), ZERO_DIGEST, levels, 0, size);
    }

    method ProveConsistency(oldSize: nat) returns (r: Result<seq<Digest>, MerkleError>)
      requires Valid()
      ensures oldSize > |leafHashes| ==> r == Err(OutOfRange)
      ensures oldSize == 0 ==> r == Ok([])
      ensures 0 < oldSize <= |leafHashes| ==> r == Ok(ConsistencyPath(HashNode(sc), leafHashes, oldSize))
    {
      hide ConsistencyPath, HashNode, HashLeaves, EntryHashes;
      var newSize := |leafHashes|;
      if 0 < oldSize <= newSize { ConsistencyPathSplit(HashNode(sc), leafHashes, oldSize); }
      if oldSize > newSize {
        return Err(OutOfRange);
      }
      if oldSize == 0 || oldSize == newSize {
        return Ok([]);
      }
      ghost var p := WholeTreeFits(newSize);
      assert Range(leafHashes, 0, newSize) == leafHashes;
      var path := ConsistencyRec(HashNode(sc), ZERO_DIGEST, levels, 0, oldSize, newSize, p);
      r := Ok(path);
    }

    /** Accepts exactly the roots of the stated prefix and of the whole tree. */
    method VerifyConsistency(oldRoot: Digest, newRoot: Digest, oldSize: nat, newSize: nat, proof: seq<Digest>)
      returns (r: Result<(), MerkleError>)
      requires Valid()
      ensures r.Ok? <==> || oldSize == 0
                         || (&& newSize == |leafHashes| && oldSize <= newSize
                             && oldRoot == LogRoot(sc, leafHashes[..oldSize]) && newRoot == LogRoot(sc, leafHashes))
      ensures r.Err? ==> r.error == if newSize == |leafHashes| && oldSize > newSize then OutOfRange else ConsistencyFailed
    {
      if oldSize == 0 {
        return Ok(());
      }
      if newSize != |leafHashes| {
        return Err(ConsistencyFailed);
      }
      if oldSize > |leafHashes| {
        return Err(OutOfRange);
      }
      var computedOld := RootAtSize(oldSize);
      var computedNew := Root();
      if computedOld == oldRoot && computedNew == newRoot {
        return Ok(());
      }
      return Err(ConsistencyFailed);
    }
  }

  // ---------- inclusion ----------

  predicate AcceptsInclusion(sc: Scheme, entry: Entry, proof: InclusionProof, root: Digest)
  {
    Fold(HashNode(sc), HashLeaf(sc, sc.hash(EntryInput(entry))), proof.steps) == root
  }

  method VerifyInclusion(sc: Scheme, entry: Entry, proof: InclusionProof, root: Digest)
    returns (r: Result<(), MerkleError>)
    ensures r == if AcceptsInclusion(sc, entry, proof, root) then Ok(()) else Err(InclusionFailed)
  {
    var first := HashLeaf(sc, sc.hash(EntryInput(entry)));
    var current: Digest := first;
    var i := 0;
    while i < |proof.steps|
      invariant 0 <= i <= |proof.steps|
      invariant Fold(HashNode(sc), current, proof.steps[i..]) == Fold(HashNode(sc), first, proof.steps)
    {
      var step := proof.steps[i];
      assert proof.steps[i..][1..] == proof.steps[i + 1..];
      current := match step.side
        case Left => HashNode(sc)(step.sibling, current)
        case Right => HashNode(sc)(current, step.sibling);
      i := i + 1;
    }
    r := if current == root then Ok(()) else Err(InclusionFailed);
  }

  /** Every entry's proof verifies against the current root. */
  lemma InclusionComplete(sc: Scheme, entries: seq<Entry>, i: nat)
    requires i < |entries|
    ensures var leaves := HashLeaves(sc, EntryHashes(sc.hash, entries));
            AcceptsInclusion(sc, entries[i], InclusionProof(i, Path(HashNode(sc), leaves, i)), LogRoot(sc, leaves))
  {
    var leaves := HashLeaves(sc, EntryHashes(sc.hash, entries));
    PathLeadsToRoot(HashNode(sc), leaves, i);
    RootIsTreeHash(HashNode(sc), leaves);
  }

  ghost function LoggedInputs(hash: Bytes -> Digest, entries: seq<Entry>): set<Bytes>
  {
    BuildInputs(LogScheme(hash), EntryHashes(hash, entries)) + (set e | e in entries :: EntryInput(e))
  }

  ghost function CheckedInputs(hash: Bytes -> Digest, entry: Entry, proof: InclusionProof): set<Bytes>
  {
    VerifyInputs(LogScheme(hash), hash(EntryInput(entry)), proof.steps) + {EntryInput(entry)}
  }

  /** An accepted proof is for a record in the log, unless a string hashed by
      the log and one hashed by the verifier collide. */
  lemma InclusionSound(hash: Bytes -> Digest, entries: seq<Entry>, entry: Entry, proof: InclusionProof)
    requires entries != []
    requires AcceptsInclusion(LogScheme(hash), entry, proof,
                              LogRoot(LogScheme(hash), HashLeaves(LogScheme(hash), EntryHashes(hash, entries))))
    ensures || (exists e :: e in entries && SameRecord(e, entry))
            || Collide(LogScheme(hash), LoggedInputs(hash, entries), CheckedInputs(hash, entry, proof))
  {
    var sc := LogScheme(hash);
    var es := EntryHashes(hash, entries);
    var x := hash(EntryInput(entry));
    RootIsTreeHash(HashNode(sc), HashLeaves(sc, es));
    AcceptedIsMember(sc, es, x, proof.steps);
    if x in es {
      var i :| 0 <= i < |es| && es[i] == x;
      assert entries[i] in entries;
      if EntryInput(entries[i]) == EntryInput(entry) {
        EntryInputInjective(entries[i], entry);
      }
    }
  }

  // ---------- consistency ----------

  function Leaves(hash: Bytes -> Digest, entries: seq<Entry>): (s: seq<Digest>)
    ensures |s| == |entries|
  {
    HashLeaves(LogScheme(hash), EntryHashes(hash, entries))
  }

  /** Strings hashed when the two roots are rebuilt from base and path. */
  ghost function RebuildInputs(hash: Bytes -> Digest, base: Digest, path: seq<Digest>, m: nat, n: nat): set<Bytes>
    requires 0 < m <= n && |path| == PathSize(m, n)
  {
    set x | x in RebuildPairs(HashNode(LogScheme(hash)), base, path, m, n) :: NodeInput(LogScheme(hash), x.0, x.1)
  }

  /** Strings hashed for two logs and for rebuilding their roots. */
  ghost function ConsistencyInputs(
    hash: Bytes -> Digest, base: Digest, path: seq<Digest>, earlier: seq<Entry>, later: seq<Entry>): set<Bytes>
    requires 0 < |earlier| <= |later| && |path| == PathSize(|earlier|, |later|)
  {
    LoggedInputs(hash, earlier) + LoggedInputs(hash, later) + RebuildInputs(hash, base, path, |earlier|, |later|)
  }

  /** Whatever base and path rebuild the roots of two logs, the old log's records are the first
      records of the new one, unless two of the hashed strings collide. */
  lemma ConsistencySound(
    hash: Bytes -> Digest, base: Digest, path: seq<Digest>, earlier: seq<Entry>, later: seq<Entry>)
    requires 0 < |earlier| <= |later| && |path| == PathSize(|earlier|, |later|)
    requires RootsRebuilt(HashNode(LogScheme(hash)), base, path, Leaves(hash, earlier), Leaves(hash, later))
    ensures
      var all := ConsistencyInputs(hash, base, path, earlier, later);
      (forall i :: 0 <= i < |earlier| ==> SameRecord(earlier[i], later[i])) || Collide(LogScheme(hash), all, all)
  {
    hide *;
    var h := HashNode(LogScheme(hash));
    var (o, n) := (Leaves(hash, earlier), Leaves(hash, later));
    var all := ConsistencyInputs(hash, base, path, earlier, later);
    RebuiltIsPrefix(h, base, path, o, n);
    if Collision(h, AllPairs(h, base, path, o, n)) {
      PairsCollide(hash, base, path, earlier, later);
    } else if !Collide(LogScheme(hash), all, all) {
      forall i | 0 <= i < |earlier|
        ensures SameRecord(earlier[i], later[i])
      {
        assert o[i] == n[i];
        LeafRecords(hash, base, path, earlier, later, i);
      }
    }
  }

  lemma LeafRecords(
    hash: Bytes -> Digest, base: Digest, path: seq<Digest>, earlier: seq<Entry>, later: seq<Entry>, i: nat)
    requires 0 < |earlier| <= |later| && |path| == PathSize(|earlier|, |later|) && i < |earlier|
    requires Leaves(hash, earlier)[i] == Leaves(hash, later)[i]
    ensures
      var all := ConsistencyInputs(hash, base, path, earlier, later);
      SameRecord(earlier[i], later[i]) || Collide(LogScheme(hash), all, all)
  {
    hide RebuildInputs, SameRecord, PathSize, HashedPairs;
    var (sc, all) := (LogScheme(hash), ConsistencyInputs(hash, base, path, earlier, later));
    var (a, b) := (EntryHashes(hash, earlier)[i], EntryHashes(hash, later)[i]);
    assert a in EntryHashes(hash, earlier) && b in EntryHashes(hash, later);
    assert LeafInput(sc, a) in all && LeafInput(sc, b) in all;
    assert earlier[i] in earlier && later[i] in later;
    assert EntryInput(earlier[i]) in all && EntryInput(later[i]) in all;
    if LeafInput(sc, a) == LeafInput(sc, b) {
      InputsSeparated(sc, a, b, ZERO_DIGEST, ZERO_DIGEST, ZERO_DIGEST, ZERO_DIGEST);
      if EntryInput(earlier[i]) == EntryInput(later[i]) { EntryInputInjective(earlier[i], later[i]); }
    }
  }

  lemma PairsCollide(
    hash: Bytes -> Digest, base: Digest, path: seq<Digest>, earlier: seq<Entry>, later: seq<Entry>)
    requires 0 < |earlier| <= |later| && |path| == PathSize(|earlier|, |later|)
    requires
      Collision(HashNode(LogScheme(hash)),
                AllPairs(HashNode(LogScheme(hash)), base, path, Leaves(hash, earlier), Leaves(hash, later)))
    ensures
      var all := ConsistencyInputs(hash, base, path, earlier, later);
      Collide(LogScheme(hash), all, all)
  {
    hide TreePairs, HashedPairs, RebuildPairs, PathSize, EntryInput, EntryHashes, LogScheme;
    var (sc, all) := (LogScheme(hash), ConsistencyInputs(hash, base, path, earlier, later));
    var h := HashNode(sc);
    HashedPairsAreTreePairs(h, Leaves(hash, earlier));
    HashedPairsAreTreePairs(h, Leaves(hash, later));
    var x, y :|
      && x in AllPairs(h, base, path, Leaves(hash, earlier), Leaves(hash, later))
      && y in AllPairs(h, base, path, Leaves(hash, earlier), Leaves(hash, later)) && SameHash(h, x, y);
    var (a, b) := (NodeInput(sc, x.0, x.1), NodeInput(sc, y.0, y.1));
    assert a in all && b in all;
    if a == b { InputsSeparated(sc, [], [], x.0, x.1, y.0, y.1); }
  }
}
