/**
 Proactive share refresh: every party contributes one byte string per party, and a
 party's refresh is the exclusive or of what it was sent. Random bytes are
 arguments.
 */
module RefreshSession {
  import opened Common
  import opened Parties

  type Octets = seq<bv8>

  datatype Contribution = Contribution(fromParty: nat, shares: map<nat, Octets>)

  type Contributions = map<nat, Contribution>

  datatype RefreshError = InvalidParty | AlreadyContributed

  // ----- exclusive or of byte strings, the shorter padded with zeros -----

  function At(b: Octets, i: nat): (x: bv8)
  {
    if i < |b| then b[i] else 0
  }

  function Longer(a: nat, b: nat): (m: nat)
  {
    if a < b then b else a
  }

  function Xor(a: bv8, b: bv8): (x: bv8)
  {
    a ^ b
  }

  lemma XorLaws(a: bv8, b: bv8, c: bv8)
    ensures Xor(a, b) == Xor(b, a) && Xor(Xor(a, b), c) == Xor(a, Xor(b, c)) && Xor(a, 0) == a && Xor(a, a) == 0
  {
  }

  /** Resize with zeros to the longer length, then fold the share in byte by byte. */
  method XorInto(acc: Octets, share: Octets) returns (r: Octets)
    ensures |r| == Longer(|acc|, |share|)
    ensures forall i: nat :: At(r, i) == Xor(At(acc, i), At(share, i))
    ensures forall i :: 0 <= i < |r| ==>
      r[i] == (if i < |acc| then acc[i] else 0) ^ (if i < |share| then share[i] else 0)
  {
    r := acc + seq(Longer(|acc|, |share|) - |acc|, _ => 0);
    assert forall i: nat :: At(r, i) == At(acc, i);
    var j := 0;
    while j < |share|
      invariant j <= |share| && |r| == Longer(|acc|, |share|)
      invariant forall i: nat :: At(r, i) == if i < j then Xor(At(acc, i), At(share, i)) else At(acc, i)
    {
      r := r[j := Xor(r[j], share[j])];
      j := j + 1;
    }
    forall i: nat | i >= |share|
      ensures At(r, i) == Xor(At(acc, i), At(share, i))
    {
      XorLaws(At(acc, i), 0, 0);
    }
    forall i | 0 <= i < |r|
      ensures r[i] == (if i < |acc| then acc[i] else 0) ^ (if i < |share| then share[i] else 0)
    {
      assert At(r, i) == r[i];
    }
  }

  // ----- what the contributors in a set send to one party -----

  function SentAt(c: Contribution, p: nat, i: nat): (x: bv8)
  {
    if p in c.shares then At(c.shares[p], i) else 0
  }

  function SentLength(c: Contribution, p: nat): (n: nat)
  {
    if p in c.shares then |c.shares[p]| else 0
  }

  function Term(cs: Contributions, p: nat, i: nat, k: nat): (x: bv8)
  {
    if k in cs then SentAt(cs[k], p, i) else 0
  }

  function TermLength(cs: Contributions, p: nat, k: nat): (n: nat)
  {
    if k in cs then SentLength(cs[k], p) else 0
  }

  /** Byte i of the exclusive or of what the contributors of s up to n send to p. */
  ghost function XorIn(cs: Contributions, p: nat, i: nat, s: set<nat>, n: nat): (x: bv8)
  {
    if n == 0 then 0
    else if n in s then Xor(Term(cs, p, i, n), XorIn(cs, p, i, s, n - 1))
    else XorIn(cs, p, i, s, n - 1)
  }

  ghost function LengthIn(cs: Contributions, p: nat, s: set<nat>, n: nat): (m: nat)
  {
    if n == 0 then 0
    else if n in s then Longer(TermLength(cs, p, n), LengthIn(cs, p, s, n - 1))
    else LengthIn(cs, p, s, n - 1)
  }

  lemma {:induction false} XorSame(cs: Contributions, p: nat, i: nat, s: set<nat>, t: set<nat>, n: nat)
    requires forall k :: 1 <= k <= n ==> (k in s <==> k in t)
    ensures XorIn(cs, p, i, s, n) == XorIn(cs, p, i, t, n) && LengthIn(cs, p, s, n) == LengthIn(cs, p, t, n)
  {
    hide Term, TermLength, Xor, Longer;
    if n > 0 { XorSame(cs, p, i, s, t, n - 1); }
  }

  lemma {:induction false} XorPut(cs: Contributions, p: nat, i: nat, s: set<nat>, k: nat, n: nat)
    requires k !in s && 1 <= k <= n
    ensures XorIn(cs, p, i, s + {k}, n) == Xor(XorIn(cs, p, i, s, n), Term(cs, p, i, k))
    ensures LengthIn(cs, p, s + {k}, n) == Longer(LengthIn(cs, p, s, n), TermLength(cs, p, k))
  {
    hide Term, TermLength, Xor;
    var x := Term(cs, p, i, k);
    if k == n {
      XorSame(cs, p, i, s + {k}, s, n - 1);
      XorLaws(x, XorIn(cs, p, i, s, n - 1), 0);
    } else {
      XorPut(cs, p, i, s, k, n - 1);
      XorLaws(Term(cs, p, i, n), XorIn(cs, p, i, s, n - 1), x);
    }
  }

  lemma {:induction false} XorNone(cs: Contributions, p: nat, i: nat, n: nat)
    ensures XorIn(cs, p, i, {}, n) == 0 && LengthIn(cs, p, {}, n) == 0
  {
    if n > 0 { XorNone(cs, p, i, n - 1); }
  }

  /** The byte string is what the contributors in s send to p, combined. */
  ghost predicate Combines(b: Octets, cs: Contributions, p: nat, s: set<nat>, n: nat)
  {
    |b| == LengthIn(cs, p, s, n) && forall i: nat :: At(b, i) == XorIn(cs, p, i, s, n)
  }

  lemma CombinesNone(cs: Contributions, p: nat, n: nat)
    ensures Combines([], cs, p, {}, n)
  {
    forall i: nat ensures At([], i) == XorIn(cs, p, i, {}, n) && LengthIn(cs, p, {}, n) == 0 {
      XorNone(cs, p, i, n);
    }
    XorNone(cs, p, 0, n);
  }

  lemma CombinesPut(b: Octets, b': Octets, cs: Contributions, p: nat, s: set<nat>, k: nat, n: nat)
    requires Combines(b, cs, p, s, n) && k !in s && 1 <= k <= n
    requires |b'| == Longer(|b|, TermLength(cs, p, k))
    requires forall i: nat :: At(b', i) == Xor(At(b, i), Term(cs, p, i, k))
    ensures Combines(b', cs, p, s + {k}, n)
  {
    hide At, XorIn, LengthIn, Term, TermLength, Xor, Longer;
    forall i: nat
      ensures At(b', i) == XorIn(cs, p, i, s + {k}, n)
    {
      XorPut(cs, p, i, s, k, n);
    }
    XorPut(cs, p, 0, s, k, n);
  }

  // ----- the session -----

  class RefreshSession {
    const threshold: nat
    const partyCount: nat
    var contributions: Contributions

    ghost predicate Valid()
      reads this
    {
      && KeysInRange(contributions.Keys, partyCount)
      && forall k :: k in contributions ==> contributions[k].fromParty == k
    }

    constructor (threshold: nat, partyCount: nat)
      ensures Valid() && contributions == map[]
      ensures this.threshold == threshold && this.partyCount == partyCount
    {
      this.threshold, this.partyCount := threshold, partyCount;
      contributions := map[];
    }

    method SubmitContribution(c: Contribution) returns (r: Result<(), RefreshError>)
      requires Valid()
      modifies this
      ensures Valid()
      ensures r == if c.fromParty == 0 || c.fromParty > partyCount then Err(InvalidParty)
                   else if c.fromParty in old(contributions) then Err(AlreadyContributed)
                   else Ok(())
      ensures contributions == if r.Ok? then old(contributions)[c.fromParty := c] else old(contributions)
    {
      if c.fromParty == 0 || c.fromParty > partyCount {
        return Err(InvalidParty);
      }
      if c.fromParty in contributions {
        return Err(AlreadyContributed);
      }
      contributions := contributions[c.fromParty := c];
      return Ok(());
    }

    method IsComplete() returns (b: bool)
      requires Valid()
      ensures b <==> |contributions| == partyCount
      ensures b <==> forall k :: 1 <= k <= partyCount ==> k in contributions
    {
      CompleteExactly(contributions.Keys, partyCount);
      b := |contributions| == partyCount;
    }

    /** The combination of everything sent to the party, whatever order the contributions
        come in; nothing while the session is incomplete or when nobody sent anything. */
    method AggregateForParty(p: nat) returns (r: Option<Octets>)
      requires Valid()
      ensures r.Some? <==>
        && (forall k :: 1 <= k <= partyCount ==> k in contributions)
        && exists k :: k in contributions && p in contributions[k].shares
      ensures r.Some? ==> Combines(r.value, contributions, p, contributions.Keys, partyCount)
    {
      var complete := IsComplete();
      if !complete {
        return None;
      }
      r := Combine(contributions, p, partyCount);
    }
  }

  /** The loop over the contributions of a session. */
  method Combine(cs: Contributions, p: nat, n: nat) returns (r: Option<Octets>)
    requires KeysInRange(cs.Keys, n)
    ensures r.Some? <==> exists k :: k in cs && p in cs[k].shares
    ensures r.Some? ==> Combines(r.value, cs, p, cs.Keys, n)
  {
    hide *;
    r := None;
    var todo := cs.Keys;
    ghost var done: set<nat> := {};
    SplitStart(cs.Keys);
    CombinesNone(cs, p, n);
    while todo != {}
      invariant IsSplit(cs.Keys, done, todo)
      invariant r.Some? <==> exists k :: k in done && k in cs && p in cs[k].shares
      invariant Combines(if r.Some? then r.value else [], cs, p, done, n)
      decreases |todo|
    {
      var k :| k in todo;
      SplitStep(cs.Keys, done, todo, k);
      KeyBounds(cs.Keys, n, k);
      ghost var before := if r.Some? then r.value else [];
      if p in cs[k].shares {
        var share := cs[k].shares[p];
        SentShare(cs, p, k);
        if r.None? {
          r := Some(share);
          FromNothing(share);
        } else {
          var combined := XorInto(r.value, share);
          r := Some(combined);
        }
      } else {
        SentNothing(cs, p, k, before);
      }
      CombinesPut(before, if r.Some? then r.value else [], cs, p, done, k, n);
      todo := todo - {k};
      done := done + {k};
    }
    SplitEnd(cs.Keys, done, todo);
  }

  lemma SentShare(cs: Contributions, p: nat, k: nat)
    requires k in cs && p in cs[k].shares
    ensures TermLength(cs, p, k) == |cs[k].shares[p]|
    ensures forall i: nat :: Term(cs, p, i, k) == At(cs[k].shares[p], i)
  {
  }

  lemma SentNothing(cs: Contributions, p: nat, k: nat, b: Octets)
    requires k in cs && p !in cs[k].shares
    ensures Longer(|b|, TermLength(cs, p, k)) == |b|
    ensures forall i: nat :: Xor(At(b, i), Term(cs, p, i, k)) == At(b, i)
  {
    forall i: nat ensures Xor(At(b, i), Term(cs, p, i, k)) == At(b, i) {
      XorLaws(At(b, i), 0, 0);
    }
  }

  lemma FromNothing(b: Octets)
    ensures Longer(0, |b|) == |b|
    ensures forall i: nat :: Xor(At([], i), At(b, i)) == At(b, i)
  {
    forall i: nat ensures Xor(At([], i), At(b, i)) == At(b, i) {
      XorLaws(0, At(b, i), 0);
    }
  }

  // ----- generated contributions cancel -----

  /** Byte i of the exclusive or over the recipients 1 to n. */
  ghost function RowXor(c: Contribution, i: nat, n: nat): (x: bv8)
  {
    if n == 0 then 0 else Xor(SentAt(c, n, i), RowXor(c, i, n - 1))
  }

  /** One share per party, cancelling out in every byte. */
  ghost predicate Cancels(c: Contribution, n: nat)
  {
    forall i: nat :: RowXor(c, i, n) == 0
  }

  lemma {:induction false} RowSame(c: Contribution, d: Contribution, i: nat, n: nat)
    requires forall p :: 1 <= p <= n ==> SentAt(c, p, i) == SentAt(d, p, i)
    ensures RowXor(c, i, n) == RowXor(d, i, n)
  {
    hide SentAt, Xor;
    if n > 0 { RowSame(c, d, i, n - 1); }
  }

  method GenerateContribution(fromParty: nat, partyCount: nat, shareSize: nat, random: seq<Octets>) returns (c: Contribution)
    requires partyCount <= |random| + 1 && forall j :: 0 <= j < |random| ==> |random[j]| == shareSize
    ensures c.fromParty == fromParty && Cancels(c, partyCount)
    ensures partyCount > 0 ==> forall p: nat :: p in c.shares <==> 1 <= p <= partyCount
    ensures forall p :: p in c.shares ==> |c.shares[p]| == shareSize
    ensures forall p :: 1 <= p < partyCount ==> c.shares[p] == random[p - 1]
  {
    hide Xor;
    var shares: map<nat, Octets> := map[];
    var remaining: Octets := seq(shareSize, _ => 0);
    var p := 1;
    while p < partyCount
      invariant 1 <= p && (p <= partyCount || partyCount == 0)
      invariant |remaining| == shareSize
      invariant p - 1 <= |random| && forall q: nat :: q in shares <==> 1 <= q < p
      invariant forall q :: 1 <= q < p ==> shares[q] == random[q - 1]
      invariant forall i: nat :: At(remaining, i) == RowXor(Contribution(fromParty, shares), i, p - 1)
    {
      var share := random[p - 1];
      ghost var was := remaining;
      remaining := XorInto(remaining, share);
      RowGrows(fromParty, shares, p, share, was, remaining);
      shares := shares[p := share];
      p := p + 1;
    }
    ghost var before := shares;
    shares := shares[partyCount := remaining];
    c := Contribution(fromParty, shares);
    if partyCount > 0 {
      LastCancels(fromParty, before, partyCount, remaining);
    }
  }

  lemma RowGrows(from: nat, shares: map<nat, Octets>, p: nat, share: Octets, was: Octets, now: Octets)
    requires p > 0 && forall i: nat :: At(was, i) == RowXor(Contribution(from, shares), i, p - 1)
    requires forall i: nat :: At(now, i) == Xor(At(was, i), At(share, i))
    ensures forall i: nat :: At(now, i) == RowXor(Contribution(from, shares[p := share]), i, p)
  {
    hide Xor, At;
    var (c, d) := (Contribution(from, shares), Contribution(from, shares[p := share]));
    forall i: nat
      ensures At(now, i) == RowXor(d, i, p)
    {
      RowSame(c, d, i, p - 1);
      XorLaws(At(was, i), At(share, i), 0);
    }
  }

  lemma LastCancels(from: nat, shares: map<nat, Octets>, p: nat, remaining: Octets)
    requires p > 0 && forall i: nat :: At(remaining, i) == RowXor(Contribution(from, shares), i, p - 1)
    ensures Cancels(Contribution(from, shares[p := remaining]), p)
  {
    hide Xor, At;
    var (c, d) := (Contribution(from, shares), Contribution(from, shares[p := remaining]));
    forall i: nat
      ensures RowXor(d, i, p) == 0
    {
      RowSame(c, d, i, p - 1);
      XorLaws(At(remaining, i), 0, 0);
    }
  }

  /** Byte i of the exclusive or of the refreshes of parties 1 to m. */
  ghost function TotalXor(refresh: seq<Octets>, i: nat, m: nat): (x: bv8)
    requires m <= |refresh|
  {
    if m == 0 then 0 else Xor(At(refresh[m - 1], i), TotalXor(refresh, i, m - 1))
  }

  /** The double sum over recipients up to m and contributors of s up to n. */
  ghost function BothXor(cs: Contributions, i: nat, s: set<nat>, m: nat, n: nat): (x: bv8)
  {
    if m == 0 then 0 else Xor(XorIn(cs, m, i, s, n), BothXor(cs, i, s, m - 1, n))
  }

  lemma {:induction false} BothByRow(cs: Contributions, i: nat, s: set<nat>, m: nat, n: nat)
    requires n > 0 && n in s && n in cs
    ensures BothXor(cs, i, s, m, n) == Xor(RowXor(cs[n], i, m), BothXor(cs, i, s, m, n - 1))
  {
    hide Xor, SentAt;
    if m == 0 {
      XorLaws(0, 0, 0);
    } else {
      BothByRow(cs, i, s, m - 1, n);
      Exchange(SentAt(cs[n], m, i), XorIn(cs, m, i, s, n - 1), RowXor(cs[n], i, m - 1), BothXor(cs, i, s, m - 1, n - 1));
    }
  }

  lemma Exchange(a: bv8, b: bv8, c: bv8, d: bv8)
    ensures Xor(Xor(a, b), Xor(c, d)) == Xor(Xor(a, c), Xor(b, d))
  {
    hide Xor;
    XorLaws(a, b, Xor(c, d));
    XorLaws(b, c, d);
    XorLaws(c, b, d);
    XorLaws(a, c, Xor(b, d));
  }

  lemma {:induction false} BothCancel(cs: Contributions, i: nat, s: set<nat>, m: nat, n: nat)
    requires forall k :: 1 <= k <= n ==> k in s && k in cs && Cancels(cs[k], m)
    ensures BothXor(cs, i, s, m, n) == 0
    decreases n
  {
    hide Xor, XorIn;
    if n == 0 {
      NoContributors(cs, i, s, m);
    } else {
      BothCancel(cs, i, s, m, n - 1);
      BothByRow(cs, i, s, m, n);
      XorLaws(0, 0, 0);
    }
  }

  lemma {:induction false} NoContributors(cs: Contributions, i: nat, s: set<nat>, m: nat)
    ensures BothXor(cs, i, s, m, 0) == 0
  {
    if m > 0 {
      NoContributors(cs, i, s, m - 1);
      XorLaws(0, 0, 0);
    }
  }

  lemma {:induction false} TotalIsBoth(cs: Contributions, refresh: seq<Octets>, i: nat, m: nat, n: nat)
    requires m <= |refresh| && forall j :: 0 <= j < m ==> Combines(refresh[j], cs, j + 1, cs.Keys, n)
    ensures TotalXor(refresh, i, m) == BothXor(cs, i, cs.Keys, m, n)
  {
    hide Xor, At, XorIn;
    if m > 0 { TotalIsBoth(cs, refresh, i, m - 1, n); }
  }

  /** In a complete session of generated contributions the refreshes of all parties cancel
      in every byte, so the exclusive or of all parties' shares stays what it was. */
  lemma RefreshConserves(cs: Contributions, refresh: seq<Octets>, n: nat, i: nat)
    requires forall k :: 1 <= k <= n ==> k in cs && Cancels(cs[k], n)
    requires |refresh| == n && forall j :: 0 <= j < n ==> Combines(refresh[j], cs, j + 1, cs.Keys, n)
    ensures TotalXor(refresh, i, n) == 0
  {
    hide *;
    TotalIsBoth(cs, refresh, i, n, n);
    BothCancel(cs, i, cs.Keys, n, n);
  }
}
