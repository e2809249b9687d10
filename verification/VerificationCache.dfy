/**
 The cache of verification results: a map with a sequence number per entry, proved
 to behave in every run as the recency list truncated to the capacity. Results are
 filed under a hash of the four inputs run together.
 */
module VerificationCache {
  import opened Common
  import opened Hashing
  import opened RecencyList

  datatype CacheEntry = CacheEntry(verified: bool, stamp: nat)

  type Entries = map<Digest, CacheEntry>

  function Joined(algorithm: Bytes, publicKey: Bytes, message: Bytes, signature: Bytes): (b: Bytes)
  {
    algorithm + publicKey + message + signature
  }

  function MakeKey(hash: Bytes -> Digest, algorithm: Bytes, publicKey: Bytes, message: Bytes, signature: Bytes): (k: Digest)
  {
    hash(Joined(algorithm, publicKey, message, signature))
  }

  /** Two inputs share a key under every hash function if and only if they run together to the
      same bytes; inputs with equal lengths do so only if they are equal. */
  lemma SameKeyExactly(a: Bytes, p: Bytes, m: Bytes, s: Bytes, a': Bytes, p': Bytes, m': Bytes, s': Bytes)
    ensures (forall hash: Bytes -> Digest :: MakeKey(hash, a, p, m, s) == MakeKey(hash, a', p', m', s')) <==>
      Joined(a, p, m, s) == Joined(a', p', m', s')
    ensures Joined(a, p, m, s) == Joined(a', p', m', s') && |a| == |a'| && |p| == |p'| && |m| == |m'| ==>
      a == a' && p == p' && m == m' && s == s'
  {
    var (x, y) := (Joined(a, p, m, s), Joined(a', p', m', s'));
    if x != y {
      var one: Digest := ZERO_DIGEST[0 := 1];
      var hash: Bytes -> Digest := (b: Bytes) => if b == x then ZERO_DIGEST else one;
      assert hash(x)[0] == 0 && hash(y)[0] == 1;
      assert MakeKey(hash, a, p, m, s) != MakeKey(hash, a', p', m', s');
    } else if |a| == |a'| && |p| == |p'| && |m| == |m'| {
      var (i, j, k) := (|a|, |a| + |p|, |a| + |p| + |m|);
      assert a == x[..i] && p == x[i..j] && m == x[j..k] && s == x[k..];
      assert a' == y[..i] && p' == y[i..j] && m' == y[j..k] && s' == y[k..];
    }
  }

  /** Different inputs with one key: where one field ends and the next begins is not hashed. */
  lemma FieldBoundaryIsLost(hash: Bytes -> Digest)
    ensures MakeKey(hash, [1], [2], [], []) == MakeKey(hash, [1, 2], [], [], [])
  {
    assert Joined([1], [2], [], []) == Joined([1, 2], [], [], []);
  }

  /** The map holds the list, with stamps that are distinct, increase along the list
      and stay below the next one. */
  ghost predicate Represents(entries: Entries, next: nat, l: seq<Slot<Digest>>)
  {
    && Keys(l) == entries.Keys
    && (forall i :: 0 <= i < |l| ==> l[i].key in entries && entries[l[i].key].verified == l[i].verified)
    && (forall i, j :: 0 <= i < j < |l| ==> entries[l[i].key].stamp < entries[l[j].key].stamp)
    && (forall k :: k in entries ==> entries[k].stamp < next)
  }

  lemma KeyIndex(entries: Entries, next: nat, l: seq<Slot<Digest>>, k: Digest) returns (i: nat)
    requires Represents(entries, next, l) && k in entries
    ensures i < |l| && l[i].key == k && IndexOf(l, k) == i && Lookup(l, k) == Some(entries[k].verified)
  {
    hide IndexOf;
    assert k in Keys(l);
    i :| 0 <= i < |l| && l[i].key == k;
    RepresentsDistinct(entries, next, l);
    IndexIs(l, k, i);
  }

  lemma RepresentsDistinct(entries: Entries, next: nat, l: seq<Slot<Digest>>)
    requires Represents(entries, next, l)
    ensures Distinct(l) && |entries| == |l|
  {
    forall i, j | 0 <= i < j < |l|
      ensures l[i].key != l[j].key
    {
      assert entries[l[i].key].stamp < entries[l[j].key].stamp;
    }
    KeysCount(l);
    assert |entries| == |entries.Keys|;
  }

  lemma AbsentKey(entries: Entries, next: nat, l: seq<Slot<Digest>>, k: Digest)
    requires Represents(entries, next, l) && k !in entries
    ensures Lookup(l, k) == None
  {
    assert forall i :: 0 <= i < |l| ==> l[i].key in entries;
  }

  lemma WithoutRepresents(entries: Entries, next: nat, l: seq<Slot<Digest>>, k: Digest)
    requires Represents(entries, next, l)
    ensures Represents(entries - {k}, next, Without(l, k))
  {
    hide IndexOf, Keys, Lookup, Distinct, Without;
    RepresentsDistinct(entries, next, l);
    WithoutKeeps(l, k);
    WithoutSlots(l, k);
  }

  lemma WithoutSlots(l: seq<Slot<Digest>>, k: Digest)
    ensures |Without(l, k)| == if IndexOf(l, k) < |l| then |l| - 1 else |l|
    ensures forall j :: 0 <= j < |Without(l, k)| ==> Without(l, k)[j] == l[if j < IndexOf(l, k) then j else j + 1]
  {
    hide IndexOf;
  }

  lemma AppendRepresents(entries: Entries, next: nat, w: seq<Slot<Digest>>, k: Digest, v: bool)
    requires Represents(entries, next, w) && k !in entries
    ensures Represents(entries[k := CacheEntry(v, next)], next + 1, w + [Slot(k, v)])
  {
    hide Keys;
    KeysOfConcat(w, [Slot(k, v)]);
    OneKey(k, v);
  }

  /** Stamping k with the next number makes it the most recent key. */
  lemma TouchRepresents(entries: Entries, next: nat, l: seq<Slot<Digest>>, k: Digest, v: bool)
    requires Represents(entries, next, l)
    ensures Represents(entries[k := CacheEntry(v, next)], next + 1, Without(l, k) + [Slot(k, v)])
  {
    hide Represents, Without;
    WithoutRepresents(entries, next, l, k);
    AppendRepresents(entries - {k}, next, Without(l, k), k, v);
    var e := CacheEntry(v, next);
    assert (entries - {k})[k := e] == entries[k := e];
  }

  lemma LaterRepresents(entries: Entries, next: nat, l: seq<Slot<Digest>>)
    requires Represents(entries, next, l)
    ensures Represents(entries, next + 1, l)
  {
  }

  /** The smallest stamp is that of the least recent key. */
  lemma OldestIsFirst(entries: Entries, next: nat, l: seq<Slot<Digest>>, k: Digest)
    requires Represents(entries, next, l) && k in entries
    requires forall x :: x in entries ==> entries[k].stamp <= entries[x].stamp
    ensures l != [] && l[0].key == k
  {
    var i := KeyIndex(entries, next, l, k);
  }

  lemma EvictRepresents(entries: Entries, next: nat, l: seq<Slot<Digest>>)
    requires Represents(entries, next, l) && l != []
    ensures Represents(entries - {l[0].key}, next, l[1..])
  {
    hide Keys;
    RepresentsDistinct(entries, next, l);
    KeysOfConcat([l[0]], l[1..]);
    OneKey(l[0].key, l[0].verified);
    assert l == [l[0]] + l[1..];
    FirstNotAgain(l);
  }

  lemma FirstNotAgain(l: seq<Slot<Digest>>)
    requires Distinct(l) && l != []
    ensures l[0].key !in Keys(l[1..])
  {
  }

  lemma FirstIsOldest(entries: Entries, next: nat, l: seq<Slot<Digest>>)
    requires Represents(entries, next, l) && l != []
    ensures l[0].key in entries && l[0].verified == entries[l[0].key].verified
    ensures forall x :: x in entries ==> entries[l[0].key].stamp <= entries[x].stamp
  {
    hide Represents, IndexOf;
    assert l[0].key in entries && l[0].verified == entries[l[0].key].verified by { FirstSlot(entries, next, l, 0); }
    forall x | x in entries
      ensures entries[l[0].key].stamp <= entries[x].stamp
    {
      var i := KeyIndex(entries, next, l, x);
      FirstSlot(entries, next, l, i);
    }
  }

  lemma FirstSlot(entries: Entries, next: nat, l: seq<Slot<Digest>>, i: nat)
    requires Represents(entries, next, l) && i < |l|
    ensures l[0].key in entries && l[0].verified == entries[l[0].key].verified
    ensures l[i].key in entries && entries[l[0].key].stamp <= entries[l[i].key].stamp
  {
    hide Keys;
  }

  /** The map determines the list. */
  lemma {:induction false} RepresentsUnique(
    entries: Entries, next: nat, l: seq<Slot<Digest>>, next': nat, l': seq<Slot<Digest>>)
    requires Represents(entries, next, l) && Represents(entries, next', l')
    ensures l == l'
    decreases |l|
  {
    hide Represents, Distinct;
    RepresentsDistinct(entries, next, l);
    RepresentsDistinct(entries, next', l');
    if l != [] {
      var k := l[0].key;
      FirstIsOldest(entries, next, l);
      FirstIsOldest(entries, next', l');
      OldestIsFirst(entries, next', l', k);
      EvictRepresents(entries, next, l);
      EvictRepresents(entries, next', l');
      RepresentsUnique(entries - {k}, next, l[1..], next', l'[1..]);
      assert l == [l[0]] + l[1..] && l' == [l'[0]] + l'[1..];
    }
  }

  class VerificationCache {
    const hash: Bytes -> Digest
    const maxEntries: nat
    var entries: Entries
    var nextSeq: nat
    ghost var history: seq<Op<Digest>>

    ghost predicate Valid()
      reads this
    {
      Represents(entries, nextSeq, After(maxEntries, history))
    }

    constructor (hash: Bytes -> Digest, maxEntries: nat)
      ensures Valid() && this.hash == hash && this.maxEntries == maxEntries && history == []
    {
      this.hash := hash;
      this.maxEntries := maxEntries;
      entries := map[];
      nextSeq := 0;
      history := [];
    }

    /** A hit exactly when the key was used since the last clear and fewer than the capacity
        of other keys after it; the value is the last one put. */
    method Get(algorithm: Bytes, publicKey: Bytes, message: Bytes, signature: Bytes) returns (r: Option<bool>)
      requires Valid()
      modifies this
      ensures Valid()
      ensures var k := MakeKey(hash, algorithm, publicKey, message, signature);
        && history == old(history) + [Op.Get(k)]
        && (r.Some? <==> TouchedSince(maxEntries, old(history), k).Some? &&
                         |TouchedSince(maxEntries, old(history), k).value| < maxEntries)
        && (r.Some? ==> r == LastPut(old(history), k))
    {
      hide Represents, After, Lookup, Without, IndexOf, TouchedSince, LastPut;
      var key := MakeKey(hash, algorithm, publicKey, message, signature);
      ghost var l := After(maxEntries, history);
      PresentExactly(maxEntries, history, key);
      HitIsLastPut(maxEntries, history, key);
      HasLookup(l, key);
      AfterStep(maxEntries, history, Op.Get(key));
      var stamp := nextSeq;
      nextSeq := nextSeq + 1;
      history := history + [Op.Get(key)];
      if key in entries {
        var found := entries[key].verified;
        ghost var i := KeyIndex(entries, stamp, l, key);
        TouchRepresents(entries, stamp, l, key, found);
        entries := entries[key := CacheEntry(found, stamp)];
        return Some(found);
      } else {
        AbsentKey(entries, stamp, l, key);
        LaterRepresents(entries, stamp, l);
        return None;
      }
    }

    method Put(algorithm: Bytes, publicKey: Bytes, message: Bytes, signature: Bytes, verified: bool)
      requires Valid()
      modifies this
      ensures Valid()
      ensures history == old(history) + [Op.Put(MakeKey(hash, algorithm, publicKey, message, signature), verified)]
    {
      hide Represents, After, Lookup, Without, IndexOf;
      var key := MakeKey(hash, algorithm, publicKey, message, signature);
      ghost var l := After(maxEntries, history);
      ghost var grown := Without(l, key) + [Slot(key, verified)];
      AfterStep(maxEntries, history, Op.Put(key, verified));
      TouchRepresents(entries, nextSeq, l, key, verified);
      var stamp := nextSeq;
      nextSeq := nextSeq + 1;
      history := history + [Op.Put(key, verified)];
      entries := entries[key := CacheEntry(verified, stamp)];
      RepresentsDistinct(entries, nextSeq, grown);
      if |entries| > maxEntries {
        var oldest := OldestKey(entries);
        OldestIsFirst(entries, nextSeq, grown, oldest);
        EvictRepresents(entries, nextSeq, grown);
        entries := entries - {oldest};
      }
    }

    method Len() returns (n: nat)
      requires Valid()
      ensures n == |entries| <= maxEntries
    {
      RepresentsDistinct(entries, nextSeq, After(maxEntries, history));
      AfterKeeps(maxEntries, history);
      n := |entries|;
    }

    method Clear()
      requires Valid()
      modifies this
      ensures Valid() && history == old(history) + [Op.Clear] && entries == map[] && nextSeq == old(nextSeq)
    {
      AfterStep(maxEntries, history, Op.Clear);
      entries := map[];
      history := history + [Op.Clear];
    }
  }

  lemma AfterStep<K>(max: nat, ops: seq<Op<K>>, op: Op<K>)
    ensures After(max, ops + [op]) == Apply(max, After(max, ops), op)
  {
    hide Apply;
    assert (ops + [op])[..|ops|] == ops;
  }

  lemma HasLookup<K>(l: seq<Slot<K>>, k: K)
    ensures Has(l, k) <==> Lookup(l, k).Some?
  {
  }

  method OldestKey(entries: Entries) returns (k: Digest)
    requires entries != map[]
    ensures k in entries && forall x :: x in entries ==> entries[k].stamp <= entries[x].stamp
  {
    assert entries.Keys != {};
    k :| k in entries.Keys;
    var todo := entries.Keys - {k};
    while todo != {}
      invariant k in entries && todo <= entries.Keys
      invariant forall x :: x in entries.Keys - todo ==> entries[k].stamp <= entries[x].stamp
      decreases |todo|
    {
      var x :| x in todo;
      if entries[x].stamp < entries[k].stamp {
        k := x;
      }
      todo := todo - {x};
    }
  }
}
