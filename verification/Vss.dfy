/**
 Verifiable secret sharing: Feldman commitments to the coefficients of a
 polynomial and Pedersen commitments to two polynomials, with the loops that
 check a share against them.
 */
module Vss {
  import opened Common
  import opened NumberTheory
  import opened Polynomials
  import opened Lagrange
  import opened PrimeGroup

  // ---------- combining commitments ----------

  /** A commitment that failed to decode contributes nothing. */
  function Term<P(!new)>(g: Group<P>, c: Option<P>): (p: P)
  {
    if c.Some? then c.value else g.zero
  }

  /** The commitment to the value at x: the polynomial in x with the commitments
      as coefficients. */
  function Combine<P(!new)>(g: Group<P>, cs: seq<Option<P>>, x: nat): (p: P)
  {
    if cs == [] then g.zero else g.add(Term(g, cs[0]), Mul(g, x, Combine(g, cs[1..], x)))
  }

  lemma CombineStep<P(!new)>(g: Group<P>, rhs: P, w: nat, c: P, x: nat, rest: P)
    requires IsGroup(g) && g.q > 0
    ensures w * x >= 0
    ensures g.add(rhs, Mul(g, w, g.add(c, Mul(g, x, rest))))
            == g.add(g.add(rhs, Mul(g, w, c)), Mul(g, (w * x) % g.q, rest))
  {
    hide *;
    GroupFacts(g, c);
    MulMul(g, w, x, rest);
    MulMod(g, w * x, rest);
    MulSum(g, w, c, Mul(g, x, rest));
    Laws(g, rhs, Mul(g, w, c), Mul(g, (w * x) % g.q, rest));
  }

  lemma CombineSkip<P(!new)>(g: Group<P>, rhs: P, w: nat)
    requires IsGroup(g)
    ensures g.add(rhs, Mul(g, w, g.zero)) == rhs
  {
    hide *;
    GroupFacts(g, rhs);
    MulZero(g, w);
    Laws(g, rhs, rhs, rhs);
  }

  /** The accumulation loop shared by both verifiers: powers of x times the
      commitments, skipping those that do not decode. */
  method CombineLoop<P(!new)>(g: Group<P>, cs: seq<Option<P>>, x: nat) returns (rhs: P)
    requires IsGroup(g) && g.q > 0
    ensures rhs == Combine(g, cs, x)
  {
    hide IsGroup, Mul;
    rhs := g.zero;
    var xPow: nat := 1 % g.q;
    var i := 0;
    CombineStart(g, Combine(g, cs, x));
    assert cs[0..] == cs;
    while i < |cs|
      invariant 0 <= i <= |cs|
      invariant g.add(rhs, Mul(g, xPow, Combine(g, cs[i..], x))) == Combine(g, cs, x)
    {
      assert cs[i..][1..] == cs[i + 1..];
      CombineStep(g, rhs, xPow, Term(g, cs[i]), x, Combine(g, cs[i + 1..], x));
      if cs[i].Some? {
        rhs := g.add(rhs, Mul(g, xPow, cs[i].value));
      } else {
        CombineSkip(g, rhs, xPow);
      }
      xPow := (xPow * x) % g.q;
      i := i + 1;
    }
    CombineSkip(g, rhs, xPow);
  }

  lemma CombineStart<P(!new)>(g: Group<P>, p: P)
    requires IsGroup(g) && g.q > 0
    ensures g.add(g.zero, Mul(g, 1 % g.q, p)) == p
  {
    hide *;
    GroupFacts(g, p);
    ModUnique(1, g.q, 0, 1);
    MulOne(g, p);
    Laws(g, p, p, p);
  }

  lemma {:induction false} EvalNat(c: seq<nat>, x: nat)
    ensures Eval(c, x) >= 0
  {
    if c != [] { EvalNat(c[1..], x); }
  }

  // ---------- Feldman ----------

  function Decoded<P(!new)>(ps: seq<P>): (cs: seq<Option<P>>)
    ensures |cs| == |ps|
    ensures forall i :: 0 <= i < |cs| ==> cs[i] == Some(ps[i])
  {
    seq(|ps|, i requires 0 <= i < |ps| => Some(ps[i]))
  }

  method FeldmanVerify<P(==, !new)>(g: Group<P>, commitments: seq<P>, party: nat, share: nat) returns (ok: bool)
    requires IsGroup(g) && g.q > 0
    ensures ok <==> Mul(g, share, g.gen) == Combine(g, Decoded(commitments), party)
  {
    var rhs := CombineLoop(g, Decoded(commitments), party);
    ok := Mul(g, share, g.gen) == rhs;
  }

  /** The commitments publish g times each coefficient. */
  ghost predicate CommitsTo<P(!new)>(g: Group<P>, commitments: seq<P>, a: seq<nat>)
  {
    |commitments| == |a| && forall i :: 0 <= i < |a| ==> commitments[i] == Mul(g, a[i], g.gen)
  }

  lemma {:induction false} CombineIsValue<P(!new)>(g: Group<P>, commitments: seq<P>, a: seq<nat>, x: nat)
    requires IsGroup(g) && CommitsTo(g, commitments, a)
    ensures Eval(a, x) >= 0 && Combine(g, Decoded(commitments), x) == Mul(g, Eval(a, x), g.gen)
    decreases |a|
  {
    EvalNat(a, x);
    hide IsGroup, Mul, Combine;
    CombineUnfold(g, Decoded(commitments), x);
    if a != [] {
      assert Decoded(commitments)[1..] == Decoded(commitments[1..]);
      CombineIsValue(g, commitments[1..], a[1..], x);
      ValueStep(g, a[0], x, Eval(a[1..], x));
    } else {
      MulNone(g, g.gen);
    }
  }

  lemma CombineUnfold<P(!new)>(g: Group<P>, cs: seq<Option<P>>, x: nat)
    ensures cs == [] ==> Combine(g, cs, x) == g.zero
    ensures cs != [] ==> Combine(g, cs, x) == g.add(Term(g, cs[0]), Mul(g, x, Combine(g, cs[1..], x)))
  {
  }

  lemma ValueStep<P(!new)>(g: Group<P>, a: nat, x: nat, e: nat)
    requires IsGroup(g)
    ensures a + x * e >= 0
    ensures g.add(Mul(g, a, g.gen), Mul(g, x, Mul(g, e, g.gen))) == Mul(g, a + x * e, g.gen)
  {
    hide *;
    GroupFacts(g, g.gen);
    MulMul(g, x, e, g.gen);
    MulAdd(g, a, x * e, g.gen);
  }

  lemma MulNone<P(!new)>(g: Group<P>, p: P)
    ensures Mul(g, 0, p) == g.zero
  {
  }

  /** A share is accepted if and only if it is the value of the committed
      polynomial at the party's index. */
  lemma FeldmanExact<P(!new)>(g: Group<P>, commitments: seq<P>, a: seq<nat>, party: nat, share: nat)
    requires IsGroup(g) && g.q > 0 && CommitsTo(g, commitments, a)
    ensures Mul(g, share, g.gen) == Combine(g, Decoded(commitments), party) <==> Cong(share, Eval(a, party), g.q)
  {
    hide *;
    CombineIsValue(g, commitments, a, party);
    MulInjective(g, share, Eval(a, party));
  }

  // ---------- Pedersen ----------

  datatype PedersenShare = PedersenShare(party: nat, value: nat, randomness: nat)

  datatype PedersenCommitment<P> = PedersenCommitment(cPoints: seq<Option<P>>, dPoints: seq<Option<P>>)

  function Opening<P(!new)>(g: Group<P>, h: P, value: nat, randomness: nat): (p: P)
  {
    g.add(Mul(g, value, g.gen), Mul(g, randomness, h))
  }

  /** What the dealer publishes for coefficients f and r. */
  ghost predicate Deals<P(!new)>(g: Group<P>, h: P, f: seq<nat>, r: seq<nat>, com: PedersenCommitment<P>)
  {
    && |f| == |r| == |com.cPoints| == |com.dPoints|
    && (forall i :: 0 <= i < |f| ==> com.cPoints[i] == Some(Opening(g, h, f[i], r[i])))
    && (forall i :: 0 <= i < |f| ==> com.dPoints[i] == Some(Mul(g, r[i], h)))
  }

  method Deal<P(!new)>(g: Group<P>, h: P, f: seq<nat>, r: seq<nat>, n: nat)
    returns (com: PedersenCommitment<P>, shares: seq<PedersenShare>)
    requires g.q > 0 && |f| == |r|
    ensures Deals(g, h, f, r, com)
    ensures |shares| == n
    ensures forall j :: 0 <= j < n ==> shares[j] == PedersenShare(j + 1, Eval(f, j + 1) % g.q, Eval(r, j + 1) % g.q)
  {
    var cs: seq<Option<P>>, ds: seq<Option<P>> := [], [];
    var i := 0;
    while i < |f|
      invariant 0 <= i <= |f| && |cs| == |ds| == i
      invariant forall k :: 0 <= k < i ==> cs[k] == Some(Opening(g, h, f[k], r[k])) && ds[k] == Some(Mul(g, r[k], h))
    {
      var hri := Mul(g, r[i], h);
      cs := cs + [Some(g.add(Mul(g, f[i], g.gen), hri))];
      ds := ds + [Some(hri)];
      i := i + 1;
    }
    com := PedersenCommitment(cs, ds);
    shares := [];
    while |shares| < n
      invariant |shares| <= n
      invariant forall j :: 0 <= j < |shares| ==>
                  shares[j] == PedersenShare(j + 1, Eval(f, j + 1) % g.q, Eval(r, j + 1) % g.q)
    {
      var v := EvalByPowers(g.q, f, |shares| + 1);
      var w := EvalByPowers(g.q, r, |shares| + 1);
      shares := shares + [PedersenShare(|shares| + 1, v, w)];
    }
  }

  ghost predicate PedersenAccepts<P(!new)>(g: Group<P>, h: P, com: PedersenCommitment<P>, s: PedersenShare)
  {
    Opening(g, h, s.value, s.randomness) == Combine(g, com.cPoints, s.party)
  }

  method PedersenVerify<P(==, !new)>(g: Group<P>, h: P, com: PedersenCommitment<P>, s: PedersenShare) returns (ok: bool)
    requires IsGroup(g) && g.q > 0
    ensures ok <==> PedersenAccepts(g, h, com, s)
  {
    var lhs := Opening(g, h, s.value, s.randomness);
    var rhs := CombineLoop(g, com.cPoints, s.party);
    ok := lhs == rhs;
  }

  lemma OpeningStep<P(!new)>(g: Group<P>, h: P, f: nat, r: nat, x: nat, e: nat, d: nat)
    requires GroupLaws(g)
    ensures x * e >= 0 && x * d >= 0
    ensures g.add(Opening(g, h, f, r), Mul(g, x, Opening(g, h, e, d))) == Opening(g, h, f + x * e, r + x * d)
  {
    hide GroupLaws, Mul;
    MulSum(g, x, Mul(g, e, g.gen), Mul(g, d, h));
    MulMul(g, x, e, g.gen);
    MulMul(g, x, d, h);
    Interchange(g, Mul(g, f, g.gen), Mul(g, r, h), Mul(g, x * e, g.gen), Mul(g, x * d, h));
    MulAdd(g, f, x * e, g.gen);
    MulAdd(g, r, x * d, h);
  }

  lemma OpeningZero<P(!new)>(g: Group<P>, h: P)
    requires GroupLaws(g)
    ensures Opening(g, h, 0, 0) == g.zero
  {
    Laws(g, g.zero, g.zero, g.zero);
  }

  lemma {:induction false} CombineIsOpening<P(!new)>(g: Group<P>, h: P, f: seq<nat>, r: seq<nat>, cs: seq<Option<P>>, x: nat)
    requires GroupLaws(g) && |f| == |r| == |cs|
    requires forall i :: 0 <= i < |f| ==> cs[i] == Some(Opening(g, h, f[i], r[i]))
    ensures Eval(f, x) >= 0 && Eval(r, x) >= 0
    ensures Combine(g, cs, x) == Opening(g, h, Eval(f, x), Eval(r, x))
    decreases |f|
  {
    EvalNat(f, x);
    EvalNat(r, x);
    hide GroupLaws, Mul, Opening;
    if f == [] {
      OpeningZero(g, h);
    } else {
      CombineIsOpening(g, h, f[1..], r[1..], cs[1..], x);
      OpeningStep(g, h, f[0], r[0], x, Eval(f[1..], x), Eval(r[1..], x));
    }
  }

  /** Every dealt share passes verification. */
  lemma DealtSharesVerify<P(!new)>(g: Group<P>, h: P, f: seq<nat>, r: seq<nat>, com: PedersenCommitment<P>, x: nat)
    requires IsGroup(g) && g.q > 0 && Deals(g, h, f, r, com)
    ensures PedersenAccepts(g, h, com, PedersenShare(x, Eval(f, x) % g.q, Eval(r, x) % g.q))
  {
    GroupFacts(g, h);
    hide IsGroup, GroupLaws, Mul, Eval;
    CombineIsOpening(g, h, f, r, com.cPoints, x);
    MulMod(g, Eval(f, x), g.gen);
    MulMod(g, Eval(r, x), h);
  }

  function PedersenPublicKey<P(!new)>(g: Group<P>, com: PedersenCommitment<P>): (r: Option<P>)
  {
    if com.cPoints == [] || com.dPoints == [] then None
    else if com.cPoints[0].None? || com.dPoints[0].None? then None
    else Some(g.add(com.cPoints[0].value, g.neg(com.dPoints[0].value)))
  }

  /** The key extracted from a dealt commitment is g times the secret. */
  lemma DealtPublicKey<P(!new)>(g: Group<P>, h: P, f: seq<nat>, r: seq<nat>, com: PedersenCommitment<P>)
    requires GroupLaws(g) && Deals(g, h, f, r, com) && f != []
    ensures PedersenPublicKey(g, com) == Some(Mul(g, f[0], g.gen))
  {
    hide GroupLaws, Mul;
    var a, b := Mul(g, f[0], g.gen), Mul(g, r[0], h);
    Laws(g, a, b, g.neg(b));
    Laws(g, b, b, b);
  }

  lemma MoveTerms(q: nat, alpha: int, v: int, w: int, v': int, w': int)
    requires q > 0 && Cong(v + w * alpha, v' + w' * alpha, q)
    ensures Cong(v - v', (w' - w) * alpha, q)
  {
    hide Cong;
    var t := v' + w * alpha;
    CongRefl(t, q);
    CongAdd(v + w * alpha, v' + w' * alpha, t, t, q);
    assert v' + w' * alpha - t == (w' - w) * alpha;
  }

  lemma DivideByUnit(q: nat, a: int, d: int, alpha: int)
    requires Prime(q) && Unit(q, d) && Cong(a, d * alpha, q)
    ensures Cong(alpha, a * Invert(q, d), q)
  {
    hide Cong, Invert, Unit;
    InvertUnit(q, d);
    var i := Invert(q, d);
    CongRefl(i, q);
    CongMul(a, d * alpha, i, i, q);
    CongRefl(alpha, q);
    CongMul(d * i, 1, alpha, alpha, q);
    Rotate(d, alpha, i);
    CongTrans(a * i, (d * i) * alpha, 1 * alpha, q);
    CongSym(a * i, alpha, q);
  }

  lemma SolveForLog(q: nat, alpha: int, v: int, w: int, v': int, w': int)
    requires Prime(q) && Cong(v + w * alpha, v' + w' * alpha, q) && !(Cong(v, v', q) && Cong(w, w', q))
    ensures !Cong(w, w', q) && Cong(alpha, (v - v') * Invert(q, w' - w), q)
  {
    hide Cong, Invert;
    MoveTerms(q, alpha, v, w, v', w');
    if Cong(w, w', q) {
      CongRefl(w, q);
      CongSym(w, w', q);
      CongAdd(w', w, w, w, q);
      CongRefl(alpha, q);
      CongMul(w' - w, 0, alpha, alpha, q);
      CongTrans(v - v', (w' - w) * alpha, 0, q);
      CongRefl(v', q);
      CongAdd(v - v', 0, v', v', q);
    }
    DifferenceUnit(q, w, w');
    DivideByUnit(q, v - v', w' - w, alpha);
  }

  lemma DifferenceUnit(q: nat, w: int, w': int)
    requires q > 0 && !Cong(w, w', q)
    ensures Unit(q, w' - w)
  {
    if Cong(w' - w, 0, q) { CongAdd(w' - w, 0, w, w, q); }
  }

  lemma AcceptedAgree<P(!new)>(g: Group<P>, h: P, com: PedersenCommitment<P>, s: PedersenShare, t: PedersenShare)
    requires PedersenAccepts(g, h, com, s) && PedersenAccepts(g, h, com, t) && s.party == t.party
    ensures Opening(g, h, s.value, s.randomness) == Opening(g, h, t.value, t.randomness)
  {
  }

  /** Two different openings accepted at one index determine the discrete
      logarithm of h: the commitment binds whoever does not know it. */
  lemma TwoOpeningsRevealLog<P(!new)>(
    g: Group<P>, alpha: nat, com: PedersenCommitment<P>, s: PedersenShare, t: PedersenShare)
    requires IsGroup(g) && g.q > 0 && s.party == t.party
    requires PedersenAccepts(g, Mul(g, alpha, g.gen), com, s) && PedersenAccepts(g, Mul(g, alpha, g.gen), com, t)
    requires !(Cong(s.value, t.value, g.q) && Cong(s.randomness, t.randomness, g.q))
    ensures !Cong(s.randomness, t.randomness, g.q)
    ensures Cong(alpha, (s.value - t.value) * Invert(g.q, t.randomness - s.randomness), g.q)
  {
    hide *;
    AcceptedAgree(g, Mul(g, alpha, g.gen), com, s, t);
    GroupFacts(g, g.gen);
    OpeningAsMultiple(g, alpha, s.value, s.randomness);
    OpeningAsMultiple(g, alpha, t.value, t.randomness);
    MulInjective(g, s.value + s.randomness * alpha, t.value + t.randomness * alpha);
    SolveForLog(g.q, alpha, s.value, s.randomness, t.value, t.randomness);
  }

  lemma OpeningAsMultiple<P(!new)>(g: Group<P>, alpha: nat, v: nat, w: nat)
    requires GroupLaws(g)
    ensures v + w * alpha >= 0
    ensures Opening(g, Mul(g, alpha, g.gen), v, w) == Mul(g, v + w * alpha, g.gen)
  {
    hide GroupLaws, Mul;
    MulMul(g, w, alpha, g.gen);
    MulAdd(g, v, w * alpha, g.gen);
  }
}
