/**
 Commutative groups in which q times every element is zero, q prime, written
 additively with a generator: scalar multiples and their laws.
 */
module PrimeGroup {
  import opened NumberTheory

  datatype Group<!P(!new)> = Group(q: nat, add: (P, P) -> P, zero: P, neg: P -> P, gen: P)

  ghost predicate GroupLaws<P(!new)>(g: Group<P>)
  {
    && (forall a, b, c :: g.add(g.add(a, b), c) == g.add(a, g.add(b, c)))
    && (forall a, b :: g.add(a, b) == g.add(b, a))
    && (forall a :: g.add(a, g.zero) == a)
    && (forall a :: g.add(a, g.neg(a)) == g.zero)
  }

  /** k times p. */
  function Mul<P(!new)>(g: Group<P>, k: nat, p: P): (r: P)
  {
    if k == 0 then g.zero else g.add(p, Mul(g, k - 1, p))
  }

  ghost predicate IsGroup<P(!new)>(g: Group<P>)
  {
    GroupLaws(g) && Prime(g.q) && (forall p :: Mul(g, g.q, p) == g.zero) && g.gen != g.zero
  }

  lemma Laws<P(!new)>(g: Group<P>, a: P, b: P, c: P)
    requires GroupLaws(g)
    ensures g.add(g.add(a, b), c) == g.add(a, g.add(b, c))
    ensures g.add(a, b) == g.add(b, a)
    ensures g.add(a, g.zero) == a && g.add(g.zero, a) == a
    ensures g.add(a, g.neg(a)) == g.zero
  {
  }

  lemma Cancel<P(!new)>(g: Group<P>, a: P, b: P, c: P)
    requires GroupLaws(g) && g.add(a, b) == g.add(a, c)
    ensures b == c
  {
    hide GroupLaws;
    Laws(g, g.neg(a), a, b);
    Laws(g, g.neg(a), a, c);
    Laws(g, a, g.neg(a), b);
    Laws(g, b, b, b);
    Laws(g, c, c, c);
  }

  /** (a + b) + (c + d) = (a + c) + (b + d) */
  lemma Interchange<P(!new)>(g: Group<P>, a: P, b: P, c: P, d: P)
    requires GroupLaws(g)
    ensures g.add(g.add(a, b), g.add(c, d)) == g.add(g.add(a, c), g.add(b, d))
  {
    hide GroupLaws;
    Laws(g, a, b, g.add(c, d));
    Laws(g, b, c, d);
    Laws(g, c, b, d);
    Laws(g, a, c, g.add(b, d));
  }

  lemma {:induction false} MulAdd<P(!new)>(g: Group<P>, j: nat, k: nat, p: P)
    requires GroupLaws(g)
    ensures Mul(g, j + k, p) == g.add(Mul(g, j, p), Mul(g, k, p))
    decreases j
  {
    hide GroupLaws;
    if j == 0 {
      Laws(g, Mul(g, k, p), p, p);
    } else {
      MulAdd(g, j - 1, k, p);
      Laws(g, p, Mul(g, j - 1, p), Mul(g, k, p));
    }
  }

  lemma {:induction false} MulZero<P(!new)>(g: Group<P>, k: nat)
    requires GroupLaws(g)
    ensures Mul(g, k, g.zero) == g.zero
  {
    if k > 0 { MulZero(g, k - 1); }
  }

  lemma {:induction false} MulMul<P(!new)>(g: Group<P>, j: nat, k: nat, p: P)
    requires GroupLaws(g)
    ensures j * k >= 0 && Mul(g, j * k, p) == Mul(g, j, Mul(g, k, p))
    decreases j
  {
    hide GroupLaws;
    if j == 0 {
      assert j * k == 0;
    } else {
      MulMul(g, j - 1, k, p);
      assert j * k == k + (j - 1) * k;
      MulAdd(g, k, (j - 1) * k, p);
    }
  }

  lemma {:induction false} MulSum<P(!new)>(g: Group<P>, k: nat, a: P, b: P)
    requires GroupLaws(g)
    ensures Mul(g, k, g.add(a, b)) == g.add(Mul(g, k, a), Mul(g, k, b))
  {
    hide GroupLaws;
    if k == 0 {
      Laws(g, g.zero, g.zero, g.zero);
    } else {
      MulSum(g, k - 1, a, b);
      Interchange(g, a, b, Mul(g, k - 1, a), Mul(g, k - 1, b));
    }
  }

  lemma GroupFacts<P(!new)>(g: Group<P>, p: P)
    requires IsGroup(g)
    ensures g.q > 1 && Prime(g.q) && GroupLaws(g) && Mul(g, g.q, p) == g.zero && g.gen != g.zero
  {
    hide GroupLaws, Mul;
  }

  lemma MulOne<P(!new)>(g: Group<P>, p: P)
    requires GroupLaws(g)
    ensures Mul(g, 1, p) == p
  {
    hide GroupLaws;
    Laws(g, p, p, p);
  }

  lemma DivNat(k: nat, q: nat) returns (m: nat, r: nat)
    requires q > 0
    ensures r == k % q && k == m * q + r && m * q >= 0
  {
    m, r := k / q, k % q;
  }

  /** Only the residue of the factor matters. */
  lemma MulMod<P(!new)>(g: Group<P>, k: nat, p: P)
    requires IsGroup(g) && g.q > 0
    ensures Mul(g, k % g.q, p) == Mul(g, k, p)
  {
    hide *;
    GroupFacts(g, p);
    var m, r := DivNat(k, g.q);
    MulMul(g, m, g.q, p);
    MulZero(g, m);
    MulAdd(g, m * g.q, r, p);
    Laws(g, Mul(g, r, p), p, p);
  }

  lemma MulCong<P(!new)>(g: Group<P>, j: nat, k: nat, p: P)
    requires IsGroup(g) && g.q > 0 && Cong(j, k, g.q)
    ensures Mul(g, j, p) == Mul(g, k, p)
  {
    hide *;
    MulMod(g, j, p);
    MulMod(g, k, p);
    CongToMod(j, k, g.q);
  }

  lemma PrimeInverse(q: nat, k: nat) returns (v: nat)
    requires Prime(q) && !Divides(q, k)
    ensures Cong(k * v, 1, q)
  {
    PrimeCoprime(q, k);
    v := ModInv(k, q).value;
  }

  /** A multiple of the generator vanishes only for multiples of q. */
  lemma GeneratorOrder<P(!new)>(g: Group<P>, k: nat)
    requires IsGroup(g) && g.q > 0 && Mul(g, k, g.gen) == g.zero
    ensures Divides(g.q, k)
  {
    hide *;
    GroupFacts(g, g.gen);
    if !Divides(g.q, k) {
      var v := PrimeInverse(g.q, k);
      MulOne(g, g.gen);
      MulMul(g, v, k, g.gen);
      MulZero(g, v);
      assert v * k == k * v;
      MulCong(g, k * v, 1, g.gen);
    }
  }

  lemma LogsAgree<P(!new)>(g: Group<P>, j: nat, k: nat)
    requires IsGroup(g) && g.q > 0 && j <= k && Mul(g, j, g.gen) == Mul(g, k, g.gen)
    ensures Cong(k, j, g.q)
  {
    hide *;
    GroupFacts(g, g.gen);
    MulAdd(g, j, k - j, g.gen);
    Laws(g, Mul(g, j, g.gen), g.gen, g.gen);
    Cancel(g, Mul(g, j, g.gen), Mul(g, k - j, g.gen), g.zero);
    GeneratorOrder(g, k - j);
    CongIffDivides(k, j, g.q);
  }

  /** The discrete logarithm to the generator is unique modulo q. */
  lemma MulInjective<P(!new)>(g: Group<P>, j: nat, k: nat)
    requires IsGroup(g) && g.q > 0
    ensures Mul(g, j, g.gen) == Mul(g, k, g.gen) <==> Cong(j, k, g.q)
  {
    hide *;
    if Mul(g, j, g.gen) == Mul(g, k, g.gen) {
      if j <= k {
        LogsAgree(g, j, k);
        CongSym(k, j, g.q);
      } else {
        LogsAgree(g, k, j);
      }
    }
    if Cong(j, k, g.q) { MulCong(g, j, k, g.gen); }
  }

  /** Groups of this kind exist: the booleans under exclusive or, of order 2. */
  lemma BooleansFormGroup()
    ensures IsGroup(Group(2, (a: bool, b: bool) => a != b, false, (a: bool) => a, true))
  {
    var g := Group(2, (a: bool, b: bool) => a != b, false, (a: bool) => a, true);
    forall p: bool
      ensures Mul(g, 2, p) == false
    {
      assert Mul(g, 1, p) == p;
    }
  }
}
