/**
 Distributed key generation: a session collects one contribution per party;
 aggregate shares and the joint public key are sums over the contributions in
 whatever order the map yields them. Random coefficients are arguments.
 */
module Dkg {
  import opened Common
  import opened NumberTheory
  import opened Parties
  import opened Polynomials
  import opened PrimeGroup
  import opened Shamir
  import opened Vss

  /** Shares and commitment as decoded; None stands for undecodable text. */
  datatype Contribution<!P> = Contribution(partyIdx: nat, shares: map<nat, Option<nat>>, commitment: Option<P>)

  datatype DkgError = InvalidParty | DuplicateContribution | NotComplete | BadShare | BadCommitment

  type Contributions<!P> = map<nat, Contribution<P>>

  // ---------- the session ----------

  class DkgSession<P(!new)> {
    const threshold: nat
    const partyCount: nat
    var contributions: Contributions<P>

    ghost predicate Valid()
      reads this
    {
      && KeysInRange(contributions.Keys, partyCount)
      && forall k :: k in contributions ==> contributions[k].partyIdx == k
    }

    constructor (threshold: nat, partyCount: nat)
      ensures Valid() && contributions == map[]
      ensures this.threshold == threshold && this.partyCount == partyCount
    {
      this.threshold, this.partyCount := threshold, partyCount;
      contributions := map[];
    }

    method Submit(c: Contribution<P>) returns (r: Result<(), DkgError>)
      requires Valid()
      modifies this
      ensures Valid()
      ensures r == if c.partyIdx == 0 || c.partyIdx > partyCount then Err(InvalidParty)
                   else if c.partyIdx in old(contributions) then Err(DuplicateContribution)
                   else Ok(())
      ensures contributions == if r.Ok? then old(contributions)[c.partyIdx := c] else old(contributions)
    {
      if c.partyIdx == 0 || c.partyIdx > partyCount {
        return Err(InvalidParty);
      }
      if c.partyIdx in contributions {
        return Err(DuplicateContribution);
      }
      contributions := contributions[c.partyIdx := c];
      return Ok(());
    }

    /** A session counts as complete exactly when every party has contributed. */
    method IsComplete() returns (b: bool)
      requires Valid()
      ensures b <==> forall k :: 1 <= k <= partyCount ==> k in contributions
    {
      CompleteExactly(contributions.Keys, partyCount);
      b := |contributions| == partyCount;
    }
  }

  // ---------- sums over the contributors in a set ----------

  function ShareFor<P>(c: Contribution<P>, i: nat): (r: Option<nat>)
  {
    if i in c.shares then c.shares[i] else None
  }

  function ShareTerm<P>(cs: Contributions<P>, k: nat, i: nat): (v: nat)
  {
    if k in cs && ShareFor(cs[k], i).Some? then ShareFor(cs[k], i).value else 0
  }

  ghost function SharesIn<P>(cs: Contributions<P>, i: nat, s: set<nat>, n: nat): (v: nat)
  {
    if n == 0 then 0 else (if n in s then ShareTerm(cs, n, i) else 0) + SharesIn(cs, i, s, n - 1)
  }

  function PointTerm<P(!new)>(g: Group<P>, cs: Contributions<P>, k: nat): (p: P)
  {
    if k in cs then Term(g, cs[k].commitment) else g.zero
  }

  ghost function PointsIn<P(!new)>(g: Group<P>, cs: Contributions<P>, s: set<nat>, n: nat): (p: P)
  {
    if n == 0 then g.zero else g.add(if n in s then PointTerm(g, cs, n) else g.zero, PointsIn(g, cs, s, n - 1))
  }

  lemma {:induction false} SharesSame<P>(cs: Contributions<P>, i: nat, s: set<nat>, t: set<nat>, n: nat)
    requires forall k :: 1 <= k <= n ==> (k in s <==> k in t)
    ensures SharesIn(cs, i, s, n) == SharesIn(cs, i, t, n)
  {
    if n > 0 { SharesSame(cs, i, s, t, n - 1); }
  }

  lemma {:induction false} SharesPut<P>(cs: Contributions<P>, i: nat, s: set<nat>, k: nat, n: nat)
    requires k !in s && 1 <= k <= n
    ensures SharesIn(cs, i, s + {k}, n) == SharesIn(cs, i, s, n) + ShareTerm(cs, k, i)
  {
    if k == n {
      SharesSame(cs, i, s + {k}, s, n - 1);
    } else {
      SharesPut(cs, i, s, k, n - 1);
    }
  }

  lemma {:induction false} SharesNone<P>(cs: Contributions<P>, i: nat, n: nat)
    ensures SharesIn(cs, i, {}, n) == 0
  {
    if n > 0 { SharesNone(cs, i, n - 1); }
  }

  lemma {:induction false} PointsSame<P(!new)>(g: Group<P>, cs: Contributions<P>, s: set<nat>, t: set<nat>, n: nat)
    requires forall k :: 1 <= k <= n ==> (k in s <==> k in t)
    ensures PointsIn(g, cs, s, n) == PointsIn(g, cs, t, n)
  {
    if n > 0 { PointsSame(g, cs, s, t, n - 1); }
  }

  lemma {:induction false} PointsPut<P(!new)>(g: Group<P>, cs: Contributions<P>, s: set<nat>, k: nat, n: nat)
    requires GroupLaws(g) && k !in s && 1 <= k <= n
    ensures PointsIn(g, cs, s + {k}, n) == g.add(PointsIn(g, cs, s, n), PointTerm(g, cs, k))
  {
    hide GroupLaws, PointTerm;
    var p := PointTerm(g, cs, k);
    if k == n {
      PointsSame(g, cs, s + {k}, s, n - 1);
      Laws(g, PointsIn(g, cs, s, n - 1), p, p);
      Laws(g, p, p, p);
    } else {
      PointsPut(g, cs, s, k, n - 1);
      Laws(g, if n in s then PointTerm(g, cs, n) else g.zero, PointsIn(g, cs, s, n - 1), p);
    }
  }

  lemma {:induction false} PointsNone<P(!new)>(g: Group<P>, cs: Contributions<P>, n: nat)
    requires GroupLaws(g)
    ensures PointsIn(g, cs, {}, n) == g.zero
  {
    hide GroupLaws;
    if n > 0 {
      PointsNone(g, cs, n - 1);
      Laws(g, g.zero, g.zero, g.zero);
    }
  }

  function AddScalar(q: nat, a: nat, b: nat): (r: nat)
    requires q > 0
  {
    (a + b) % q
  }

  ghost predicate IsResidue(q: nat, a: nat, total: nat)
    requires q > 0
  {
    a == total % q
  }

  lemma ResidueIs(q: nat, a: nat, total: nat)
    requires q > 0 && IsResidue(q, a, total)
    ensures a == total % q
  {
  }

  lemma ResidueStep(q: nat, a: nat, total: nat, v: nat)
    requires q > 0 && IsResidue(q, a, total)
    ensures IsResidue(q, AddScalar(q, a, v), total + v)
  {
    ModCong(total, q);
    CongAdd(a, total, v, v, q);
  }

  /** Party i's aggregate: the sum of the shares addressed to it, whatever order
      the contributions come in; it exists unless a share is missing or bad. */
  method ComputeAggregateShare<P(!new)>(q: nat, cs: Contributions<P>, n: nat, i: nat) returns (r: Result<nat, DkgError>)
    requires q > 0 && KeysInRange(cs.Keys, n)
    ensures |cs| != n ==> r == Err(NotComplete)
    ensures |cs| == n ==> (r.Ok? <==> forall k :: k in cs ==> ShareFor(cs[k], i).Some?)
    ensures r.Ok? ==> r.value == SharesIn(cs, i, cs.Keys, n) % q
  {
    hide *;
    if |cs| != n {
      return Err(NotComplete);
    }
    var aggregate: nat := 0;
    var todo := cs.Keys;
    ghost var done: set<nat> := {};
    SharesNone(cs, i, n);
    ResidueZero(q);
    SplitStart(cs.Keys);
    while todo != {}
      invariant IsSplit(cs.Keys, done, todo)
      invariant IsResidue(q, aggregate, SharesIn(cs, i, done, n))
      invariant forall k :: k in done ==> k in cs && ShareFor(cs[k], i).Some?
      decreases |todo|
    {
      var k :| k in todo;
      SplitStep(cs.Keys, done, todo, k);
      var share := ShareFor(cs[k], i);
      if share.None? {
        return Err(BadShare);
      }
      KeyBounds(cs.Keys, n, k);
      ShareTermIs(cs, k, i);
      SharesPut(cs, i, done, k, n);
      ResidueStep(q, aggregate, SharesIn(cs, i, done, n), share.value);
      aggregate := AddScalar(q, aggregate, share.value);
      todo := todo - {k};
      done := done + {k};
    }
    SplitEnd(cs.Keys, done, todo);
    ResidueIs(q, aggregate, SharesIn(cs, i, cs.Keys, n));
    return Ok(aggregate);
  }

  lemma ShareTermIs<P>(cs: Contributions<P>, k: nat, i: nat)
    requires k in cs && ShareFor(cs[k], i).Some?
    ensures ShareTerm(cs, k, i) == ShareFor(cs[k], i).value
  {
  }

  lemma ResidueZero(q: nat)
    requires q > 0
    ensures IsResidue(q, 0, 0)
  {
    ModUnique(0, q, 0, 0);
  }

  /** The joint public key: the sum of the commitments, in any order. */
  method ComputeJointPublicKey<P(!new)>(g: Group<P>, cs: Contributions<P>, n: nat) returns (r: Result<P, DkgError>)
    requires GroupLaws(g) && KeysInRange(cs.Keys, n)
    ensures |cs| != n ==> r == Err(NotComplete)
    ensures |cs| == n ==> (r.Ok? <==> forall k :: k in cs ==> cs[k].commitment.Some?)
    ensures r.Ok? ==> r.value == PointsIn(g, cs, cs.Keys, n)
  {
    if |cs| != n {
      return Err(NotComplete);
    }
    hide GroupLaws;
    var sum := g.zero;
    var todo := cs.Keys;
    ghost var done: set<nat> := {};
    PointsNone(g, cs, n);
    while todo != {}
      invariant done !! todo && done + todo == cs.Keys
      invariant sum == PointsIn(g, cs, done, n)
      invariant forall k :: k in done ==> cs[k].commitment.Some?
      decreases |todo|
    {
      var k :| k in todo;
      if cs[k].commitment.None? {
        return Err(BadCommitment);
      }
      PointsPut(g, cs, done, k, n);
      sum := g.add(sum, cs[k].commitment.value);
      todo := todo - {k};
      done := done + {k};
    }
    assert done == cs.Keys;
    return Ok(sum);
  }

  // ---------- generated contributions ----------

  /** The contribution of a party whose polynomial has the given coefficients. */
  ghost predicate IsGenerated<P(!new)>(g: Group<P>, c: Contribution<P>, idx: nat, coeffs: seq<nat>, n: nat)
    requires g.q > 0 && coeffs != []
  {
    && c.partyIdx == idx
    && (forall i :: 1 <= i <= n ==> ShareFor(c, i) == Some(Eval(coeffs, i) % g.q))
    && c.commitment == Some(Mul(g, coeffs[0], g.gen))
  }

  method GenerateContribution<P(!new)>(g: Group<P>, idx: nat, coeffs: seq<nat>, n: nat)
    returns (c: Contribution<P>, secret: nat)
    requires g.q > 0 && coeffs != []
    ensures IsGenerated(g, c, idx, coeffs, n) && secret == coeffs[0]
    ensures forall i :: i in c.shares <==> 1 <= i <= n
  {
    secret := coeffs[0];
    var shares: map<nat, Option<nat>> := map[];
    var i := 1;
    while i <= n
      invariant 1 <= i <= n + 1
      invariant forall k :: k in shares <==> 1 <= k < i
      invariant forall k :: 1 <= k < i ==> shares[k] == Some(Eval(coeffs, k) % g.q)
    {
      var v := EvalByPowers(g.q, coeffs, i);
      shares := shares[i := Some(v)];
      i := i + 1;
    }
    c := Contribution(idx, shares, Some(Mul(g, secret, g.gen)));
  }

  // ---------- agreement ----------

  /** The polynomials behind a session of generated contributions. */
  ghost predicate GeneratedFrom<P(!new)>(g: Group<P>, cs: Contributions<P>, polys: map<nat, seq<nat>>, t: nat, n: nat)
  {
    && g.q > 0 && t > 0
    && forall k :: 1 <= k <= n ==> k in cs && k in polys && |polys[k]| == t && IsGenerated(g, cs[k], k, polys[k], n)
  }

  /** The sum of the first n polynomials. */
  ghost function JointPolynomial(polys: map<nat, seq<nat>>, t: nat, n: nat): (f: seq<nat>)
    requires forall k :: 1 <= k <= n ==> k in polys && |polys[k]| == t
    ensures |f| == t
  {
    if n == 0 then seq(t, _ => 0)
    else
      var rest := JointPolynomial(polys, t, n - 1);
      seq(t, i requires 0 <= i < t => polys[n][i] + rest[i])
  }

  lemma {:induction false} EvalZeros(t: nat, x: int)
    ensures Eval(seq(t, _ => 0), x) == 0
  {
    if t > 0 {
      var z: seq<int> := seq(t, _ => 0);
      assert z[1..] == seq(t - 1, _ => 0);
      EvalZeros(t - 1, x);
    }
  }

  lemma JointStep(polys: map<nat, seq<nat>>, t: nat, n: nat, x: int)
    requires n > 0 && forall k :: 1 <= k <= n ==> k in polys && |polys[k]| == t
    ensures Eval(JointPolynomial(polys, t, n), x) == Eval(polys[n], x) + Eval(JointPolynomial(polys, t, n - 1), x)
    ensures t > 0 ==> JointPolynomial(polys, t, n)[0] == polys[n][0] + JointPolynomial(polys, t, n - 1)[0]
  {
    var rest := JointPolynomial(polys, t, n - 1);
    assert JointPolynomial(polys, t, n) == AddPoly(polys[n], rest);
    EvalAdd(polys[n], rest, x);
  }

  /** Aggregate shares are values of the joint polynomial. */
  lemma {:induction false} SharesAreValues<P(!new)>(
    g: Group<P>, cs: Contributions<P>, polys: map<nat, seq<nat>>, t: nat, n: nat, m: nat, i: nat, s: set<nat>)
    requires GeneratedFrom(g, cs, polys, t, n) && m <= n && 1 <= i <= n
    requires forall k :: 1 <= k <= n ==> k in s
    ensures Cong(SharesIn(cs, i, s, m), Eval(JointPolynomial(polys, t, m), i), g.q)
    decreases m
  {
    if m == 0 {
      EvalZeros(t, i);
    } else {
      SharesAreValues(g, cs, polys, t, n, m - 1, i, s);
      JointStep(polys, t, m, i);
      assert IsGenerated(g, cs[m], m, polys[m], n);
      var e := Eval(polys[m], i);
      assert ShareTerm(cs, m, i) == e % g.q;
      hide Cong, Eval;
      ModCong(e, g.q);
      CongAdd(e % g.q, e, SharesIn(cs, i, s, m - 1), Eval(JointPolynomial(polys, t, m - 1), i), g.q);
    }
  }

  /** The joint public key commits to the constant term. */
  lemma {:induction false} PointsAreConstant<P(!new)>(
    g: Group<P>, cs: Contributions<P>, polys: map<nat, seq<nat>>, t: nat, n: nat, m: nat, s: set<nat>)
    requires GroupLaws(g) && GeneratedFrom(g, cs, polys, t, n) && m <= n
    requires forall k :: 1 <= k <= n ==> k in s
    ensures PointsIn(g, cs, s, m) == Mul(g, JointPolynomial(polys, t, m)[0], g.gen)
    decreases m
  {
    hide GroupLaws, Mul, Eval;
    if m == 0 {
      MulNone(g, g.gen);
    } else {
      PointsAreConstant(g, cs, polys, t, n, m - 1, s);
      JointStep(polys, t, m, 0);
      assert IsGenerated(g, cs[m], m, polys[m], n);
      MulAdd(g, polys[m][0], JointPolynomial(polys, t, m - 1)[0], g.gen);
    }
  }

  /** A complete session of generated contributions gives every party the value,
      at its index, of one polynomial with `threshold` coefficients, whose
      constant term is the discrete logarithm of the joint public key. */
  lemma DkgAgreement<P(!new)>(g: Group<P>, cs: Contributions<P>, polys: map<nat, seq<nat>>, t: nat, n: nat)
    requires GroupLaws(g) && GeneratedFrom(g, cs, polys, t, n) && KeysInRange(cs.Keys, n)
    ensures var f := JointPolynomial(polys, t, n);
            && |f| == t
            && (forall i :: 1 <= i <= n ==> SharesIn(cs, i, cs.Keys, n) % g.q == Eval(f, i) % g.q)
            && PointsIn(g, cs, cs.Keys, n) == Mul(g, f[0], g.gen)
  {
    PointsAreConstant(g, cs, polys, t, n, n, cs.Keys);
    forall i | 1 <= i <= n
      ensures SharesIn(cs, i, cs.Keys, n) % g.q == Eval(JointPolynomial(polys, t, n), i) % g.q
    {
      SharesAreValues(g, cs, polys, t, n, n, i, cs.Keys);
    }
  }

  /** Any threshold many distinct parties recover the secret key that belongs to
      the joint public key, by Lagrange interpolation of their aggregates. */
  lemma AnyQuorumRecovers<P(!new)>(
    g: Group<P>, cs: Contributions<P>, polys: map<nat, seq<nat>>, t: nat, n: nat, shares: seq<Share>)
    requires IsGroup(g) && GeneratedFrom(g, cs, polys, t, n) && KeysInRange(cs.Keys, n) && n < g.q
    requires t <= |shares| && DistinctX(shares)
    requires forall j :: 0 <= j < |shares| ==>
               1 <= shares[j].x <= n && shares[j].y == SharesIn(cs, shares[j].x, cs.Keys, n) % g.q
    ensures var r := Recovered(g.q, shares);
            r.Ok? && Mul(g, r.value, g.gen) == PointsIn(g, cs, cs.Keys, n)
  {
    hide IsGroup, Mul, Eval;
    GroupFacts(g, g.gen);
    hide GroupLaws;
    DkgAgreement(g, cs, polys, t, n);
    var f := JointPolynomial(polys, t, n);
    assert OnPolynomial(g.q, f, shares);
    SharesRecoverConstant(g.q, f, shares);
    EvalAtZero(f);
    MulMod(g, f[0], g.gen);
  }
}
