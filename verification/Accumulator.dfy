/**
 The RSA-style accumulator: the state is 2 raised to the exponents of the added
 elements. The map from elements to odd exponents is a parameter; maps are
 iterated in any order. The laws are about whole runs of additions and removals.
 */
module Accumulator {
  import opened Common
  import opened Hashing
  import opened NumberTheory
  import opened PowersOfTwo

  // ----- products of exponents -----

  /** The product of the exponents of a set of elements. */
  ghost function Prod(h: Bytes -> nat, s: set<Bytes>): (p: nat)
  {
    if s == {} then 1
    else
      var k :| k in s;
      h(k) * Prod(h, s - {k})
  }

  lemma ProdOfNone(h: Bytes -> nat)
    ensures Prod(h, {}) == 1
  {
  }

  /** Whichever element is taken first, the product is the same. */
  lemma {:induction false} ProdTake(h: Bytes -> nat, s: set<Bytes>, k: Bytes)
    requires k in s
    ensures Prod(h, s) == h(k) * Prod(h, s - {k})
  {
    var x :| x in s && Prod(h, s) == h(x) * Prod(h, s - {x});
    if x != k {
      ProdTake(h, s - {x}, k);
      ProdTake(h, s - {k}, x);
      assert s - {x} - {k} == s - {k} - {x};
      Swap(h(x), h(k), Prod(h, s - {x} - {k}));
    }
  }

  lemma Commute(a: nat, b: nat)
    ensures a * b == b * a
  {
  }

  lemma ProdPut(h: Bytes -> nat, s: set<Bytes>, k: Bytes)
    requires k !in s
    ensures Prod(h, s + {k}) == Prod(h, s) * h(k)
  {
    hide Prod;
    Commute(Prod(h, s), h(k));
    ProdTake(h, s + {k}, k);
    assert s + {k} - {k} == s;
  }

  /** Every exponent is odd, as the code makes it; so none is zero. */
  ghost predicate OddExponents(h: Bytes -> nat)
  {
    forall e: Bytes :: h(e) % 2 == 1
  }

  lemma {:induction false} ProdMonotone(h: Bytes -> nat, a: set<Bytes>, b: set<Bytes>)
    requires a <= b && OddExponents(h)
    ensures 1 <= Prod(h, a) <= Prod(h, b)
    decreases b
  {
    hide Prod;
    if b == {} {
      assert a == {};
      ProdOfNone(h);
    } else {
      var k :| k in b;
      ProdTake(h, b, k);
      ProdMonotone(h, a - {k}, b - {k});
      assert h(k) % 2 == 1;
      ScaleUp(Prod(h, a - {k}), Prod(h, b - {k}), h(k));
      if k in a {
        ProdTake(h, a, k);
      } else {
        assert a - {k} == a;
      }
    }
  }

  lemma ScaleUp(x: nat, y: nat, c: nat)
    requires c >= 1 && 1 <= x <= y
    ensures 1 <= c * x <= c * y && y <= c * y
  {
    assert c * (y - x) >= 0 && (c - 1) * y >= 0;
  }

  /** The elements whose exponent is not t. */
  ghost function Others(h: Bytes -> nat, s: set<Bytes>, t: nat): (r: set<Bytes>)
  {
    set k | k in s && h(k) != t
  }

  lemma OthersOfNone(h: Bytes -> nat, t: nat)
    ensures Prod(h, Others(h, {}, t)) == 1
  {
    assert Others(h, {}, t) == {};
  }

  lemma OthersPut(h: Bytes -> nat, s: set<Bytes>, k: Bytes, t: nat)
    requires k !in s
    ensures Prod(h, Others(h, s + {k}, t)) == Prod(h, Others(h, s, t)) * (if h(k) == t then 1 else h(k))
  {
    hide Prod;
    if h(k) == t {
      assert Others(h, s + {k}, t) == Others(h, s, t);
    } else {
      ProdPut(h, Others(h, s, t), k);
      assert Others(h, s + {k}, t) == Others(h, s, t) + {k};
    }
  }

  /** Leaving out exponents of 1 changes no product. */
  lemma {:induction false} OnesDoNotCount(h: Bytes -> nat, s: set<Bytes>)
    ensures Prod(h, Others(h, s, 1)) == Prod(h, s)
  {
    hide Prod, Others;
    if s == {} {
      OthersOfNone(h, 1);
      ProdOfNone(h);
    } else {
      var k :| k in s;
      OnesDoNotCount(h, s - {k});
      OthersPut(h, s - {k}, k, 1);
      ProdPut(h, s - {k}, k);
      assert s - {k} + {k} == s;
    }
  }

  // ----- runs -----

  datatype Op = Add(element: Bytes) | Remove(element: Bytes)

  /** The elements stored after a run. */
  function Stored(ops: seq<Op>): (s: set<Bytes>)
  {
    if ops == [] then {}
    else
      var (s, op) := (Stored(ops[..|ops| - 1]), ops[|ops| - 1]);
      if op.Add? then s + {op.element} else s - {op.element}
  }

  /** What 2 has been raised to: each addition multiplies, a removal that takes effect
      starts again from the elements left. */
  ghost function Exponent(h: Bytes -> nat, ops: seq<Op>): (x: nat)
  {
    if ops == [] then 1
    else
      var (before, op) := (ops[..|ops| - 1], ops[|ops| - 1]);
      if op.Add? then Exponent(h, before) * h(op.element)
      else if op.element in Stored(before) then Prod(h, Stored(ops))
      else Exponent(h, before)
  }

  /** Since the last removal that took effect, no element was added that was there already,
      unless its exponent is 1. */
  predicate NoRepeats(h: Bytes -> nat, ops: seq<Op>)
  {
    if ops == [] then true
    else
      var (before, op) := (ops[..|ops| - 1], ops[|ops| - 1]);
      if op.Add? then NoRepeats(h, before) && (op.element in Stored(before) ==> h(op.element) == 1)
      else op.element in Stored(before) || NoRepeats(h, before)
  }

  /** The exponents of the repeated additions since then. */
  ghost function Surplus(h: Bytes -> nat, ops: seq<Op>): (x: nat)
  {
    if ops == [] then 1
    else
      var (before, op) := (ops[..|ops| - 1], ops[|ops| - 1]);
      if op.Add? then (if op.element in Stored(before) then Surplus(h, before) * h(op.element) else Surplus(h, before))
      else if op.element in Stored(before) then 1
      else Surplus(h, before)
  }

  lemma {:induction false} ExponentIsProduct(h: Bytes -> nat, ops: seq<Op>)
    ensures Exponent(h, ops) == Prod(h, Stored(ops)) * Surplus(h, ops)
  {
    hide Prod;
    if ops == [] {
      ProdOfNone(h);
    } else {
      var (before, op) := (ops[..|ops| - 1], ops[|ops| - 1]);
      ExponentIsProduct(h, before);
      var (p, x) := (Prod(h, Stored(before)), Surplus(h, before));
      if op.Add? && op.element in Stored(before) {
        assert Stored(ops) == Stored(before);
        Regroup3(p, x, h(op.element));
      } else if op.Add? {
        ProdPut(h, Stored(before), op.element);
        Regroup3(p, x, h(op.element));
      } else if op.element !in Stored(before) {
        assert Stored(ops) == Stored(before);
      }
    }
  }

  lemma Regroup3(a: nat, b: nat, c: nat)
    ensures (a * b) * c == a * (b * c) == (a * c) * b
  {
  }

  lemma {:induction false} SurplusIsOne(h: Bytes -> nat, ops: seq<Op>)
    requires OddExponents(h)
    ensures Surplus(h, ops) >= 1 && (Surplus(h, ops) == 1 <==> NoRepeats(h, ops))
  {
    if ops != [] {
      var (before, op) := (ops[..|ops| - 1], ops[|ops| - 1]);
      SurplusIsOne(h, before);
      assert h(op.element) % 2 == 1;
      UnitProduct(Surplus(h, before), h(op.element));
    }
  }

  lemma UnitProduct(x: nat, y: nat)
    requires x >= 1 && y >= 1
    ensures x * y >= 1 && (x * y == 1 <==> x == 1 && y == 1)
  {
    if x >= 2 { assert x * y >= 2 * y; }
    if y >= 2 { assert x * y >= x * 2; }
  }

  /** After any run the exponent is the product of the stored exponents if and only if no
      stored element was added again since the last removal that took effect. */
  lemma ConsistentExactly(h: Bytes -> nat, ops: seq<Op>)
    requires OddExponents(h)
    ensures Exponent(h, ops) == Prod(h, Stored(ops)) <==> NoRepeats(h, ops)
  {
    hide Prod, Stored, Exponent, Surplus, NoRepeats;
    ExponentIsProduct(h, ops);
    SurplusIsOne(h, ops);
    ProdMonotone(h, {}, Stored(ops));
    MoreThanOnce(Prod(h, Stored(ops)), Surplus(h, ops));
  }

  lemma MoreThanOnce(p: nat, x: nat)
    requires p >= 1 && x >= 1
    ensures p * x >= p && (p * x == p <==> x == 1)
  {
    if x >= 2 { assert p * x >= p * 2; }
  }

  // ----- witnesses -----

  /** The witness exponent times the element's is what 2 has been raised to. */
  ghost predicate Opens(h: Bytes -> nat, ops: seq<Op>, element: Bytes)
  {
    Prod(h, Others(h, Stored(ops), h(element))) * h(element) == Exponent(h, ops)
  }

  /** No other element has the same exponent, unless that is 1. */
  ghost predicate OwnExponent(h: Bytes -> nat, s: set<Bytes>, element: Bytes)
  {
    h(element) == 1 || forall k :: k in s && h(k) == h(element) ==> k == element
  }

  lemma WitnessOfSet(h: Bytes -> nat, s: set<Bytes>, element: Bytes)
    requires element in s && OddExponents(h)
    ensures
      var w := Prod(h, Others(h, s, h(element))) * h(element);
      w <= Prod(h, s) && (w == Prod(h, s) <==> OwnExponent(h, s, element))
  {
    hide Prod;
    var (t, rest) := (h(element), s - {element});
    assert t % 2 == 1;
    var others := Others(h, s, t);
    ProdTake(h, s, element);
    Commute(Prod(h, others), t);
    ProdMonotone(h, others, rest);
    ScaleUp(Prod(h, others), Prod(h, rest), t);
    if t == 1 {
      OnesDoNotCount(h, s);
    } else if k :| k in s && h(k) == t && k != element {
      ProdTake(h, rest, k);
      ProdMonotone(h, others, rest - {k});
      StrictlyMore(t, Prod(h, others), Prod(h, rest - {k}));
    } else {
      assert others == rest;
    }
  }

  lemma StrictlyMore(t: nat, x: nat, y: nat)
    requires t > 1 && 1 <= x <= y
    ensures t * x != t * (t * y)
  {
    assert t * y > y;
    assert t * (t * y - x) > 0;
  }

  /** After any run the witness of a stored element opens if and only if nothing was added
      twice since the last removal that took effect and the element's exponent is its own. */
  lemma WitnessExactly(h: Bytes -> nat, ops: seq<Op>, element: Bytes)
    requires element in Stored(ops) && OddExponents(h)
    ensures Opens(h, ops, element) <==> NoRepeats(h, ops) && OwnExponent(h, Stored(ops), element)
  {
    hide Prod, Stored, Exponent, Surplus, NoRepeats, OwnExponent, Others;
    var s := Stored(ops);
    WitnessOfSet(h, s, element);
    ExponentIsProduct(h, ops);
    SurplusIsOne(h, ops);
    ProdMonotone(h, {}, s);
    MoreThanOnce(Prod(h, s), Surplus(h, ops));
  }

  // ----- what the residues say -----

  /** Verification of the witness of a stored element, under a modulus. */
  ghost predicate Accepted(h: Bytes -> nat, ops: seq<Op>, element: Bytes, m: nat)
    requires m > 0
  {
    var proof := ModPow(2, Prod(h, Others(h, Stored(ops), h(element))), m);
    ModPow(proof, h(element), m) == ModPow(2, Exponent(h, ops), m)
  }

  ghost predicate AlwaysAccepted(h: Bytes -> nat, ops: seq<Op>, element: Bytes)
  {
    forall p: nat, q: nat :: Usable(p, q) ==> p * q > 0 && Accepted(h, ops, element, p * q)
  }

  lemma AcceptedByExponents(h: Bytes -> nat, ops: seq<Op>, element: Bytes, m: nat)
    requires m > 0
    ensures
      var w := Prod(h, Others(h, Stored(ops), h(element))) * h(element);
      w >= 0 && (Accepted(h, ops, element, m) <==> ModPow(2, w, m) == ModPow(2, Exponent(h, ops), m))
  {
    hide Prod, ModPow, Others, Stored, Exponent;
    ModPowTwice(2, Prod(h, Others(h, Stored(ops), h(element))), h(element), m);
  }

  /** Under one odd modulus the witness is accepted exactly when the order of 2 divides the
      difference between the two exponents. */
  lemma AcceptedUnderModulus(h: Bytes -> nat, ops: seq<Op>, element: Bytes, d: nat, m: nat)
    requires element in Stored(ops) && OddExponents(h) && m > 1 && m % 2 == 1 && IsOrder(d, m)
    ensures
      var w := Prod(h, Others(h, Stored(ops), h(element))) * h(element);
      0 <= w <= Exponent(h, ops) && (Accepted(h, ops, element, m) <==> Divides(d, Exponent(h, ops) - w))
  {
    hide Prod, ModPow, Others, Stored, Exponent, Surplus, NoRepeats, OwnExponent, Divides, IsOrder, Accepted;
    var (s, w) := (Stored(ops), Prod(h, Others(h, Stored(ops), h(element))) * h(element));
    WitnessOfSet(h, s, element);
    ExponentIsProduct(h, ops);
    SurplusIsOne(h, ops);
    ProdMonotone(h, {}, s);
    MoreThanOnce(Prod(h, s), Surplus(h, ops));
    AcceptedByExponents(h, ops, element, m);
    PowersAgreeExactly(Exponent(h, ops), w, d, m);
  }

  /** After any run the state is 2 to the product of the stored exponents under every modulus
      if and only if nothing was repeated. */
  lemma StateExactly(h: Bytes -> nat, ops: seq<Op>)
    requires OddExponents(h)
    ensures SameResidues(Exponent(h, ops), Prod(h, Stored(ops))) <==> NoRepeats(h, ops)
  {
    hide *;
    ResiduesDetermine(Exponent(h, ops), Prod(h, Stored(ops)));
    ConsistentExactly(h, ops);
  }

  /** After any run the witness of a stored element is accepted under every modulus if and only
      if nothing was repeated and the element's exponent is its own. */
  lemma AcceptedExactly(h: Bytes -> nat, ops: seq<Op>, element: Bytes)
    requires element in Stored(ops) && OddExponents(h)
    ensures AlwaysAccepted(h, ops, element) <==> NoRepeats(h, ops) && OwnExponent(h, Stored(ops), element)
  {
    hide Prod, ModPow, Others, Stored, Exponent, NoRepeats, OwnExponent, OddExponents, Usable, Accepted;
    var w := Prod(h, Others(h, Stored(ops), h(element))) * h(element);
    forall p: nat, q: nat | Usable(p, q)
      ensures p * q > 0 && w >= 0
      ensures Accepted(h, ops, element, p * q) <==> ModPow(2, w, p * q) == ModPow(2, Exponent(h, ops), p * q)
    {
      FactorsArePositive(p, q);
      AcceptedByExponents(h, ops, element, p * q);
    }
    ResiduesDetermine(w, Exponent(h, ops));
    WitnessExactly(h, ops, element);
  }

  /** All stored elements' witnesses are accepted under every modulus if and only if nothing is
      stored, or nothing was repeated and no two stored elements share an exponent above 1. */
  lemma AllAcceptedExactly(h: Bytes -> nat, ops: seq<Op>)
    requires OddExponents(h)
    ensures (forall e :: e in Stored(ops) ==> AlwaysAccepted(h, ops, e)) <==>
      Stored(ops) == {} || (NoRepeats(h, ops) && forall e :: e in Stored(ops) ==> OwnExponent(h, Stored(ops), e))
  {
    hide *;
    forall e | e in Stored(ops)
      ensures AlwaysAccepted(h, ops, e) <==> NoRepeats(h, ops) && OwnExponent(h, Stored(ops), e)
    {
      AcceptedExactly(h, ops, e);
    }
    if e :| e in Stored(ops) {
      assert AlwaysAccepted(h, ops, e) <==> NoRepeats(h, ops) && OwnExponent(h, Stored(ops), e);
    }
  }

  // ----- the accumulator -----

  class Accumulator {
    const hashToPrime: Bytes -> nat
    const modulus: nat
    var state: nat
    var elements: map<Bytes, nat>
    ghost var history: seq<Op>

    ghost predicate Valid()
      reads this
    {
      && modulus > 2 && OddExponents(hashToPrime)
      && elements.Keys == Stored(history)
      && (forall k :: k in elements ==> elements[k] == hashToPrime(k))
      && state == ModPow(2, Exponent(hashToPrime, history), modulus)
    }

    constructor (hashToPrime: Bytes -> nat, p: nat, q: nat)
      requires p > 3 && q > 3 && OddExponents(hashToPrime)
      ensures Valid() && history == []
      ensures this.hashToPrime == hashToPrime && modulus == p * q
    {
      hide ModPow, Prod, OddExponents;
      LargeModulus(p, q);
      TwoToOne(p * q);
      this.hashToPrime := hashToPrime;
      modulus := p * q;
      state := 2;
      elements := map[];
      history := [];
    }

    /** While nothing is repeated the state is 2 to the product of the stored exponents. */
    method Add(element: Bytes) returns (prime: nat)
      requires Valid()
      modifies this
      ensures Valid() && history == old(history) + [Op.Add(element)] && prime == hashToPrime(element)
      ensures elements == old(elements)[element := prime] && state == ModPow(old(state), prime, modulus)
      ensures Exponent(hashToPrime, history) == Prod(hashToPrime, elements.Keys) <==> NoRepeats(hashToPrime, history)
      ensures NoRepeats(hashToPrime, history) ==> state == ModPow(2, Prod(hashToPrime, elements.Keys), modulus)
    {
      hide Prod, ModPow, Stored, Exponent, NoRepeats, OddExponents;
      prime := hashToPrime(element);
      ModPowTwice(2, Exponent(hashToPrime, history), prime, modulus);
      AddStep(hashToPrime, history, element);
      state := ModPow(state, prime, modulus);
      elements := elements[element := prime];
      history := history + [Op.Add(element)];
      ConsistentExactly(hashToPrime, history);
    }

    /** Exists exactly for stored elements; it verifies when nothing is repeated and the
        element's exponent is its own. */
    method Witness(element: Bytes) returns (r: Option<nat>)
      requires Valid()
      ensures r.Some? <==> element in elements
      ensures r.Some? ==>
        r.value == ModPow(2, Prod(hashToPrime, Others(hashToPrime, elements.Keys, hashToPrime(element))), modulus)
      ensures r.Some? && NoRepeats(hashToPrime, history) && OwnExponent(hashToPrime, elements.Keys, element) ==>
        ModPow(r.value, hashToPrime(element), modulus) == state
    {
      hide Prod, ModPow, Others, Stored, Exponent, NoRepeats, OwnExponent, OddExponents;
      if element !in elements {
        return None;
      }
      var target := elements[element];
      var product: nat := 1;
      var todo := elements.Keys;
      ghost var done: set<Bytes> := {};
      OthersOfNone(hashToPrime, target);
      while todo != {}
        invariant todo <= elements.Keys && done == elements.Keys - todo
        invariant product == Prod(hashToPrime, Others(hashToPrime, done, target))
        decreases |todo|
      {
        var k :| k in todo;
        OthersPut(hashToPrime, done, k, target);
        if elements[k] != target {
          product := product * elements[k];
        }
        todo := todo - {k};
        done := done + {k};
      }
      assert done == elements.Keys;
      WitnessExactly(hashToPrime, history, element);
      AcceptedByExponents(hashToPrime, history, element, modulus);
      return Some(ModPow(2, product, modulus));
    }

    method Verify(proof: nat, element: Bytes) returns (ok: bool)
      requires Valid()
      ensures ok <==> ModPow(proof, hashToPrime(element), modulus) == state
      ensures element in elements && NoRepeats(hashToPrime, history) && OwnExponent(hashToPrime, elements.Keys, element) ==>
        var product := Prod(hashToPrime, Others(hashToPrime, elements.Keys, hashToPrime(element)));
        proof == ModPow(2, product, modulus) ==> ok
    {
      hide ModPow, Prod, Others, Stored, Exponent, NoRepeats, OwnExponent, OddExponents;
      if element in elements {
        WitnessExactly(hashToPrime, history, element);
        AcceptedByExponents(hashToPrime, history, element, modulus);
      }
      ok := ModPow(proof, hashToPrime(element), modulus) == state;
    }

    /** A removal that takes effect makes the state 2 to the product of the stored exponents. */
    method Remove(element: Bytes) returns (removed: bool)
      requires Valid()
      modifies this
      ensures Valid() && history == old(history) + [Op.Remove(element)] && removed == (element in old(elements))
      ensures removed ==> NoRepeats(hashToPrime, history) && state == ModPow(2, Prod(hashToPrime, elements.Keys), modulus)
      ensures !removed ==> state == old(state) && elements == old(elements)
    {
      hide Prod, ModPow, Stored, Exponent, NoRepeats, OddExponents;
      RemoveStep(hashToPrime, history, element);
      history := history + [Op.Remove(element)];
      if element !in elements {
        return false;
      }
      elements := elements - {element};
      state := Recompute(hashToPrime, elements, modulus);
      return true;
    }
  }

  lemma AddStep(h: Bytes -> nat, ops: seq<Op>, element: Bytes)
    ensures
      var after := ops + [Op.Add(element)];
      Stored(after) == Stored(ops) + {element} && Exponent(h, after) == Exponent(h, ops) * h(element)
  {
    assert (ops + [Op.Add(element)])[..|ops|] == ops;
  }

  lemma RemoveStep(h: Bytes -> nat, ops: seq<Op>, element: Bytes)
    ensures
      var after := ops + [Op.Remove(element)];
      && Stored(after) == Stored(ops) - {element}
      && (element !in Stored(ops) ==> Exponent(h, after) == Exponent(h, ops) && Stored(after) == Stored(ops))
      && (element in Stored(ops) ==> Exponent(h, after) == Prod(h, Stored(after)) && NoRepeats(h, after))
  {
    hide Prod;
    assert (ops + [Op.Remove(element)])[..|ops|] == ops;
  }

  method Recompute(h: Bytes -> nat, elements: map<Bytes, nat>, m: nat) returns (s: nat)
    requires m > 2 && forall k :: k in elements ==> elements[k] == h(k)
    ensures s == ModPow(2, Prod(h, elements.Keys), m)
  {
    hide Prod, ModPow;
    s := 2;
    var todo := elements.Keys;
    ghost var done: set<Bytes> := {};
    TwoToOne(m);
    ProdOfNone(h);
    while todo != {}
      invariant todo <= elements.Keys && done == elements.Keys - todo
      invariant s == ModPow(2, Prod(h, done), m)
      decreases |todo|
    {
      var k :| k in todo;
      RaiseOnce(h, done, k, m);
      s := ModPow(s, elements[k], m);
      todo := todo - {k};
      done := done + {k};
    }
    assert done == elements.Keys;
  }

  lemma RaiseOnce(h: Bytes -> nat, s: set<Bytes>, k: Bytes, m: nat)
    requires m > 0 && k !in s
    ensures ModPow(ModPow(2, Prod(h, s), m), h(k), m) == ModPow(2, Prod(h, s + {k}), m)
  {
    hide Prod, ModPow;
    ProdPut(h, s, k);
    ModPowTwice(2, Prod(h, s), h(k), m);
  }

  lemma LargeModulus(p: nat, q: nat)
    requires p > 3 && q > 3
    ensures p * q > 2
  {
  }

  // ----- runs where the witness is rejected, with exponent 3 and modulus 35 -----

  /** The state 2^9 is 22, the witness is 2, and 2^3 is 8. */
  lemma SmallPowers()
    ensures ModPow(2, 1, 35) == 2 && ModPow(2, 3, 35) == 8 && ModPow(2, 9, 35) == 22
  {
    assert Pow(2, 3) == 8;
    PowAdd(2, 3, 3);
    PowAdd(2, 6, 3);
    assert Pow(2, 9) == 512;
  }

  lemma TwoAdditions(h: Bytes -> nat, a: Bytes, b: Bytes)
    ensures Stored([Op.Add(a), Op.Add(b)]) == {a, b} && Exponent(h, [Op.Add(a), Op.Add(b)]) == h(a) * h(b)
  {
    var one := [Op.Add(a)];
    assert one[..0] == [] && [Op.Add(a), Op.Add(b)][..1] == one;
    assert Stored(one) == {a} && Exponent(h, one) == h(a);
  }

  /** One element added twice. */
  lemma RepeatedAddFails()
    ensures
      var (h, a) := ((_: Bytes) => 3, [1 as Byte]);
      !Accepted(h, [Op.Add(a), Op.Add(a)], a, 35)
  {
    var (h, a) := ((_: Bytes) => 3, [1 as Byte]);
    BothRejected(h, a, a);
  }

  /** Two elements with the same exponent. */
  lemma SharedExponentFails()
    ensures
      var (h, a, b) := ((_: Bytes) => 3, [1 as Byte], [2 as Byte]);
      !Accepted(h, [Op.Add(a), Op.Add(b)], a, 35)
  {
    var (h, a, b) := ((_: Bytes) => 3, [1 as Byte], [2 as Byte]);
    BothRejected(h, a, b);
  }

  lemma BothRejected(h: Bytes -> nat, a: Bytes, b: Bytes)
    requires forall e: Bytes :: h(e) == 3
    ensures !Accepted(h, [Op.Add(a), Op.Add(b)], a, 35)
  {
    hide ModPow, Prod, Stored, Exponent;
    TwoAdditions(h, a, b);
    assert Others(h, {a, b}, 3) == {};
    ProdOfNone(h);
    SmallPowers();
  }

  /** Under one modulus a repetition may go unnoticed: with exponent 13 and modulus 35 the state
      is that of a single addition, and the witness is accepted. */
  lemma OneModulusMayCoincide()
    ensures
      var (h, a) := ((_: Bytes) => 13, [1 as Byte]);
      var ops := [Op.Add(a), Op.Add(a)];
      && !NoRepeats(h, ops) && Usable(5, 7)
      && ModPow(2, Exponent(h, ops), 35) == ModPow(2, Prod(h, Stored(ops)), 35) && Accepted(h, ops, a, 35)
  {
    var (h, a) := ((_: Bytes) => 13, [1 as Byte]);
    Thirteens(h, a);
  }

  lemma Thirteens(h: Bytes -> nat, a: Bytes)
    requires forall e: Bytes :: h(e) == 13
    ensures
      var ops := [Op.Add(a), Op.Add(a)];
      && !NoRepeats(h, ops)
      && ModPow(2, Exponent(h, ops), 35) == ModPow(2, Prod(h, Stored(ops)), 35) && Accepted(h, ops, a, 35)
  {
    hide ModPow, Prod, Stored, Exponent;
    var ops := [Op.Add(a), Op.Add(a)];
    TwoAdditions(h, a, a);
    RepeatSeen(h, a);
    assert Stored(ops) == {a} == {} + {a};
    ProdPut(h, {}, a);
    ProdOfNone(h);
    assert Others(h, {a}, 13) == {};
    TwoToThirteen();
    ModPowTwice(2, 13, 13, 35);
  }

  lemma RepeatSeen(h: Bytes -> nat, a: Bytes)
    requires h(a) == 13
    ensures !NoRepeats(h, [Op.Add(a), Op.Add(a)])
  {
    var one := [Op.Add(a)];
    assert one[..0] == [] && [Op.Add(a), Op.Add(a)][..1] == one;
    assert Stored(one) == {a};
  }

  lemma TwoToThirteen()
    ensures ModPow(2, 13, 35) == 2 && ModPow(2, 1, 35) == 2
  {
    assert Pow(2, 3) == 8 && Pow(2, 4) == 16;
    PowAdd(2, 3, 3);
    PowAdd(2, 6, 3);
    PowAdd(2, 9, 4);
    assert Pow(2, 13) == 8192;
  }
}
