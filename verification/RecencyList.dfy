/**
 A bounded least-recently-used store as a list of keys and values, least recent
 first, and what runs of its operations keep: the specification of the
 verification cache.
 */
module RecencyList {
  import opened Common

  datatype Slot<K> = Slot(key: K, verified: bool)

  datatype Op<K> = Get(key: K) | Put(key: K, verified: bool) | Clear

  predicate Distinct<K(==)>(l: seq<Slot<K>>)
  {
    forall i, j :: 0 <= i < j < |l| ==> l[i].key != l[j].key
  }

  function Keys<K>(l: seq<Slot<K>>): (s: set<K>)
  {
    set i | 0 <= i < |l| :: l[i].key
  }

  /** Where k is, or the length of the list. */
  function IndexOf<K(==)>(l: seq<Slot<K>>, k: K): (i: nat)
    ensures i <= |l|
    ensures i < |l| ==> l[i].key == k
    ensures forall j :: 0 <= j < i ==> l[j].key != k
  {
    if l == [] || l[0].key == k then 0 else 1 + IndexOf(l[1..], k)
  }

  function RemoveAt<T>(l: seq<T>, p: nat): (r: seq<T>)
    requires p < |l|
    ensures |r| == |l| - 1
  {
    l[..p] + l[p + 1..]
  }

  function Without<K(==)>(l: seq<Slot<K>>, k: K): (r: seq<Slot<K>>)
  {
    var i := IndexOf(l, k);
    if i == |l| then l else RemoveAt(l, i)
  }

  function Lookup<K(==)>(l: seq<Slot<K>>, k: K): (r: Option<bool>)
  {
    var i := IndexOf(l, k);
    if i < |l| then Some(l[i].verified) else None
  }

  function Apply<K(==)>(max: nat, l: seq<Slot<K>>, op: Op<K>): (r: seq<Slot<K>>)
  {
    match op
    case Get(k) => if Lookup(l, k).Some? then Without(l, k) + [Slot(k, Lookup(l, k).value)] else l
    case Put(k, v) =>
      var grown := Without(l, k) + [Slot(k, v)];
      if |grown| > max then grown[1..] else grown
    case Clear => []
  }

  lemma WithoutKeeps<K>(l: seq<Slot<K>>, k: K)
    requires Distinct(l)
    ensures Distinct(Without(l, k)) && Keys(Without(l, k)) == Keys(l) - {k}
    ensures forall j :: 0 <= j < |Without(l, k)| ==> Without(l, k)[j].key != k
    ensures |Without(l, k)| == |l| - if Lookup(l, k).Some? then 1 else 0
  {
    hide IndexOf;
    var i := IndexOf(l, k);
    var r := Without(l, k);
    if i < |l| {
      assert forall j :: 0 <= j < |r| ==> r[j] == l[if j < i then j else j + 1];
      forall x | x in Keys(l) - {k}
        ensures x in Keys(r)
      {
        var j :| 0 <= j < |l| && l[j].key == x;
        assert r[if j < i then j else j - 1].key == x;
      }
      forall x | x in Keys(r)
        ensures x in Keys(l) - {k}
      {
        var j :| 0 <= j < |r| && r[j].key == x;
        assert l[if j < i then j else j + 1].key == x;
      }
    }
  }

  /** Every operation keeps the keys distinct and the length within the capacity. */
  lemma ApplyKeeps<K>(max: nat, l: seq<Slot<K>>, op: Op<K>)
    requires Distinct(l) && |l| <= max
    ensures Distinct(Apply(max, l, op)) && |Apply(max, l, op)| <= max
  {
    hide Without, Lookup;
    if !op.Clear? { WithoutKeeps(l, op.key); }
  }

  // ----- runs -----

  function After<K(==)>(max: nat, ops: seq<Op<K>>): (l: seq<Slot<K>>)
  {
    if ops == [] then [] else Apply(max, After(max, ops[..|ops| - 1]), ops[|ops| - 1])
  }

  lemma {:induction false} AfterKeeps<K>(max: nat, ops: seq<Op<K>>)
    ensures Distinct(After(max, ops)) && |After(max, ops)| <= max
  {
    hide Apply;
    if ops != [] {
      AfterKeeps(max, ops[..|ops| - 1]);
      ApplyKeeps(max, After(max, ops[..|ops| - 1]), ops[|ops| - 1]);
    }
  }

  /** The value last put under k since the last clear. */
  function LastPut<K(==)>(ops: seq<Op<K>>, k: K): (r: Option<bool>)
  {
    if ops == [] then None
    else
      match ops[|ops| - 1]
      case Put(k', v) => if k' == k then Some(v) else LastPut(ops[..|ops| - 1], k)
      case Clear => None
      case Get(_) => LastPut(ops[..|ops| - 1], k)
  }

  /** Does the operation, on this list, make k the most recent key? */
  predicate Touches<K(==)>(l: seq<Slot<K>>, op: Op<K>, k: K)
  {
    match op
    case Get(k') => k' == k && Lookup(l, k).Some?
    case Put(k', _) => k' == k
    case Clear => false
  }

  /** The keys touched after k last was, or nothing if k was not touched since the last clear. */
  ghost function TouchedSince<K(!new)>(max: nat, ops: seq<Op<K>>, k: K): (r: Option<set<K>>)
  {
    if ops == [] then None
    else
      var (before, op) := (ops[..|ops| - 1], ops[|ops| - 1]);
      SinceStep(After(max, before), TouchedSince(max, before, k), op, k)
  }

  ghost function SinceStep<K(!new)>(l: seq<Slot<K>>, since: Option<set<K>>, op: Op<K>, k: K): (r: Option<set<K>>)
  {
    if op.Clear? then None
    else if Touches(l, op, k) then Some({})
    else if since.None? then None
    else if Touches(l, op, op.key) then Some(since.value + {op.key})
    else since
  }

  // ----- which keys are present -----

  predicate Has<K(==)>(l: seq<Slot<K>>, k: K)
  {
    IndexOf(l, k) < |l|
  }

  /** The keys more recent than k. */
  ghost function Newer<K>(l: seq<Slot<K>>, k: K): (s: set<K>)
    requires Has(l, k)
  {
    Keys(l[IndexOf(l, k) + 1..])
  }

  lemma {:induction false} KeysCount<K>(l: seq<Slot<K>>)
    requires Distinct(l)
    ensures |Keys(l)| == |l|
  {
    if l != [] {
      var rest := l[1..];
      KeysCount(rest);
      KeysOfConcat([l[0]], rest);
      OneKey(l[0].key, l[0].verified);
      assert l == [l[0]] + rest;
      assert l[0].key !in Keys(rest);
    }
  }

  lemma IndexIs<K>(l: seq<Slot<K>>, k: K, i: nat)
    requires Distinct(l) && i < |l| && l[i].key == k
    ensures IndexOf(l, k) == i
  {
    hide IndexOf;
  }

  lemma KeysOfConcat<K>(a: seq<Slot<K>>, b: seq<Slot<K>>)
    ensures Keys(a + b) == Keys(a) + Keys(b)
  {
    forall x | x in Keys(a) + Keys(b)
      ensures x in Keys(a + b)
    {
      if x in Keys(a) {
        var i :| 0 <= i < |a| && a[i].key == x;
        assert (a + b)[i].key == x;
      } else {
        var i :| 0 <= i < |b| && b[i].key == x;
        assert (a + b)[|a| + i].key == x;
      }
    }
  }

  lemma RemovedBefore<T>(l: seq<T>, p: nat, i: nat)
    requires p < i < |l|
    ensures RemoveAt(l, p)[i - 1] == l[i] && RemoveAt(l, p)[i..] == l[i + 1..]
  {
  }

  lemma RemovedBehind<T>(l: seq<T>, i: nat, p: nat)
    requires i < p < |l|
    ensures RemoveAt(l, p)[i] == l[i] && RemoveAt(l, p)[i + 1..] == RemoveAt(l[i + 1..], p - i - 1)
  {
    var rest := l[i + 1..];
    var q: nat := p - i - 1;
    assert rest[..q] == l[i + 1..p] && rest[q + 1..] == l[p + 1..];
    assert l[..p][i + 1..] == l[i + 1..p];
  }

  /** What follows another key, once k' is removed. */
  lemma WithoutAfter<K>(l: seq<Slot<K>>, k': K, i: nat)
    requires Distinct(l) && i < |l| && l[i].key != k'
    ensures
      var (w, i') := (Without(l, k'), if IndexOf(l, k') < i then i - 1 else i);
      i' < |w| && w[i'] == l[i] && w[i' + 1..] == Without(l[i + 1..], k')
  {
    hide IndexOf, Distinct, RemoveAt;
    IndexShift(l, k', i + 1);
    var p := IndexOf(l, k');
    if p < i {
      RemovedBefore(l, p, i);
    } else if p < |l| {
      RemovedBehind(l, i, p);
    }
  }

  /** Making k' the most recent key puts it after every other key k. */
  lemma MovedLast<K>(l: seq<Slot<K>>, k': K, v: bool, k: K)
    requires Distinct(l) && k != k'
    ensures
      var r := Without(l, k') + [Slot(k', v)];
      && Distinct(r) && (Has(r, k) <==> Has(l, k))
      && (Has(l, k) ==> Newer(r, k) == Newer(l, k) + {k'})
  {
    hide Keys, Without, IndexOf;
    WithoutKeeps(l, k');
    var w := Without(l, k');
    var r := w + [Slot(k', v)];
    if Has(l, k) {
      var i := IndexOf(l, k);
      var i' := if IndexOf(l, k') < i then i - 1 else i;
      WithoutAfter(l, k', i);
      assert r[i'] == w[i'] && r[i' + 1..] == w[i' + 1..] + [Slot(k', v)];
      IndexIs(r, k, i');
      var rest := l[i + 1..];
      KeysOfConcat(Without(rest, k'), [Slot(k', v)]);
      WithoutKeeps(rest, k');
      OneKey(k', v);
    } else {
      NotWithin(l, k', k);
    }
  }

  lemma NotWithin<K>(l: seq<Slot<K>>, k': K, k: K)
    requires !Has(l, k)
    ensures forall j :: 0 <= j < |Without(l, k')| ==> Without(l, k')[j].key != k
  {
  }

  lemma OneKey<K>(k: K, v: bool)
    ensures Keys([Slot(k, v)]) == {k}
  {
    assert [Slot(k, v)][0].key == k;
  }

  lemma IndexShift<K>(l: seq<Slot<K>>, k: K, i: nat)
    requires Distinct(l) && i <= |l|
    ensures IndexOf(l, k) >= i ==> IndexOf(l[i..], k) == IndexOf(l, k) - i
    ensures IndexOf(l, k) < i ==> IndexOf(l[i..], k) == |l| - i
  {
    hide IndexOf;
    var (p, q) := (IndexOf(l, k), IndexOf(l[i..], k));
    assert q < |l| - i ==> l[i + q].key == k;
    assert p >= i && p < |l| ==> l[i..][p - i].key == k;
  }

  /** Dropping the least recent slot. */
  lemma DroppedFirst<K>(g: seq<Slot<K>>, k: K)
    requires Distinct(g) && g != []
    ensures Distinct(g[1..])
    ensures Has(g[1..], k) <==> Has(g, k) && g[0].key != k
    ensures Has(g[1..], k) ==> Newer(g[1..], k) == Newer(g, k)
  {
    hide IndexOf, Keys;
    IndexShift(g, k, 1);
    if Has(g[1..], k) {
      var i := IndexOf(g, k);
      assert g[1..][i..] == g[i + 1..];
    }
  }

  /** The keys newer than k are those touched since k, until k drops out because they fill the list. */
  ghost predicate Tracks<K(!new)>(max: nat, l: seq<Slot<K>>, since: Option<set<K>>, k: K)
  {
    if Has(l, k) then since == Some(Newer(l, k)) else since.Some? ==> |since.value| >= max
  }

  lemma TrackTouch<K(!new)>(max: nat, l: seq<Slot<K>>, op: Op<K>, k: K)
    requires Distinct(l) && |l| <= max && Touches(l, op, k)
    ensures Tracks(max, Apply(max, l, op), Some({}), k)
  {
    WithoutKeeps(l, k);
    var v := if op.Put? then op.verified else Lookup(l, k).value;
    var g := Without(l, k) + [Slot(k, v)];
    IndexIs(g, k, |g| - 1);
    assert Keys(g[|g|..]) == {};
    DroppedFirst(g, k);
  }

  lemma TrackOther<K(!new)>(max: nat, l: seq<Slot<K>>, since: Option<set<K>>, op: Op<K>, k: K)
    requires Distinct(l) && |l| <= max && Tracks(max, l, since, k)
    requires !op.Clear? && op.key != k && Touches(l, op, op.key)
    ensures Tracks(max, Apply(max, l, op), if since.None? then None else Some(since.value + {op.key}), k)
  {
    hide Without, Keys, IndexOf;
    WithoutKeeps(l, op.key);
    var v := if op.Put? then op.verified else Lookup(l, op.key).value;
    var g := Without(l, op.key) + [Slot(op.key, v)];
    MovedLast(l, op.key, v, k);
    DroppedFirst(g, k);
    if Has(l, k) {
      NewerCount(g, k);
    } else if since.Some? {
      Larger(since.value, op.key);
    }
  }

  lemma Larger<K>(s: set<K>, x: K)
    ensures |s + {x}| >= |s|
  {
    if x in s {
      assert s + {x} == s;
    }
  }

  lemma NewerCount<K>(l: seq<Slot<K>>, k: K)
    requires Distinct(l) && Has(l, k)
    ensures |Newer(l, k)| == |l| - 1 - IndexOf(l, k)
  {
    hide Keys, IndexOf;
    KeysCount(l[IndexOf(l, k) + 1..]);
  }

  lemma {:induction false} Tracked<K(!new)>(max: nat, ops: seq<Op<K>>, k: K)
    ensures Tracks(max, After(max, ops), TouchedSince(max, ops, k), k)
  {
    hide Tracks, Apply, Has, Touches;
    if ops == [] {
      TracksNothing(max, k);
    } else {
      var (before, op) := (ops[..|ops| - 1], ops[|ops| - 1]);
      var l := After(max, before);
      Tracked(max, before, k);
      AfterKeeps(max, before);
      if op.Clear? {
        TracksNothing(max, k);
        Cleared(max, l);
      } else if Touches(l, op, k) {
        TrackTouch(max, l, op, k);
      } else if Touches(l, op, op.key) {
        OtherKey(l, op, k);
        TrackOther(max, l, TouchedSince(max, before, k), op, k);
      } else {
        Missed(max, l, op);
      }
    }
  }

  lemma TracksNothing<K(!new)>(max: nat, k: K)
    ensures Tracks(max, [], None, k)
  {
  }

  lemma Cleared<K>(max: nat, l: seq<Slot<K>>)
    ensures Apply(max, l, Clear) == []
  {
  }

  lemma OtherKey<K>(l: seq<Slot<K>>, op: Op<K>, k: K)
    requires !op.Clear? && Touches(l, op, op.key) && !Touches(l, op, k)
    ensures op.key != k
  {
  }

  lemma Missed<K>(max: nat, l: seq<Slot<K>>, op: Op<K>)
    requires !op.Clear? && !Touches(l, op, op.key)
    ensures Apply(max, l, op) == l
  {
  }

  /** After any run, k is present exactly when it was touched since the last clear and
      fewer than max other keys were touched after it. */
  lemma PresentExactly<K(!new)>(max: nat, ops: seq<Op<K>>, k: K)
    ensures Has(After(max, ops), k) <==>
      TouchedSince(max, ops, k).Some? && |TouchedSince(max, ops, k).value| < max
  {
    hide After, TouchedSince;
    Tracked(max, ops, k);
    AfterKeeps(max, ops);
    if Has(After(max, ops), k) { NewerCount(After(max, ops), k); }
  }

  /** A hit returns the value last put under the key. */
  lemma {:induction false} HitIsLastPut<K>(max: nat, ops: seq<Op<K>>, k: K)
    ensures Has(After(max, ops), k) ==> Lookup(After(max, ops), k) == LastPut(ops, k)
  {
    hide Apply, Has, Lookup;
    if ops == [] {
      NotInEmpty(k);
    } else {
      var (before, op) := (ops[..|ops| - 1], ops[|ops| - 1]);
      AfterKeeps(max, before);
      HitIsLastPut(max, before, k);
      LookupStep(max, After(max, before), op, k);
    }
  }

  lemma NotInEmpty<K>(k: K)
    ensures !Has([], k)
  {
  }

  lemma LookupStep<K>(max: nat, l: seq<Slot<K>>, op: Op<K>, k: K)
    requires Distinct(l)
    ensures
      var r := Apply(max, l, op);
      Has(r, k) ==> Lookup(r, k) == if op == Put(k, true) || op == Put(k, false) then Some(op.verified) else Lookup(l, k)
    ensures op.Clear? ==> !Has(Apply(max, l, op), k)
    ensures Has(Apply(max, l, op), k) && !(op.Put? && op.key == k) ==> Has(l, k)
  {
    hide IndexOf, Keys;
    if !op.Clear? {
      WithoutKeeps(l, op.key);
      var r := Apply(max, l, op);
      if Has(r, k) && !(op.Put? && op.key == k) {
        var i := IndexOf(r, k);
        assert r[i] in l;
        var j :| 0 <= j < |l| && l[j] == r[i];
        IndexIs(l, k, j);
      }
    }
  }
}
