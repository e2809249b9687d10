/**
 The Miller-Rabin loop. The random bases are an argument, one per round; a
 base outside [2, n-1) is skipped as the code skips it.
 */
module MillerRabin {
  import opened NumberTheory

  // ---------- what the loop decides ----------

  function OddPart(m: nat): (d: nat)
    requires m > 0
    ensures d % 2 == 1
  {
    if m % 2 == 1 then m else OddPart(m / 2)
  }

  function TwoPower(m: nat): (r: nat)
    requires m > 0
  {
    if m % 2 == 1 then 0 else 1 + TwoPower(m / 2)
  }

  lemma {:induction false} SplitProduct(m: nat)
    requires m > 0
    ensures m == OddPart(m) * Pow(2, TwoPower(m))
  {
    if m % 2 == 0 {
      SplitProduct(m / 2);
      Swap(OddPart(m / 2), 2, Pow(2, TwoPower(m / 2)));
    }
  }

  function Square(x: nat, n: nat): (y: nat)
    requires n > 0
  {
    (x * x) % n
  }

  /** The i-th value of the squaring chain that starts at a^d. */
  function Chain(a: nat, d: nat, n: nat, i: nat): (x: nat)
    requires n > 0
    ensures x < n
  {
    if i == 0 then
      PowNat(a, d);
      Pow(a, d) % n
    else
      Square(Chain(a, d, n, i - 1), n)
  }

  ghost predicate HitsMinusOne(a: nat, d: nat, n: nat, r: nat)
    requires n > 0
  {
    exists i :: 0 <= i < r && Chain(a, d, n, i) == n - 1
  }

  /** Base a gives no evidence that n is composite. */
  ghost predicate Passes(a: nat, n: nat)
    requires n > 1
  {
    var d, r := OddPart(n - 1), TwoPower(n - 1);
    Chain(a, d, n, 0) == 1 || HitsMinusOne(a, d, n, r)
  }

  ghost predicate Accepts(n: nat, bases: seq<nat>)
  {
    || n == 2
    || n == 3
    || (n > 3 && n % 2 == 1 && forall k :: 0 <= k < |bases| && 2 <= bases[k] < n - 1 ==> Passes(bases[k], n))
  }

  // ---------- the loops ----------

  method SplitTwos(m: nat) returns (d: nat, r: nat)
    requires m > 0
    ensures d == OddPart(m) && r == TwoPower(m)
  {
    d, r := m, 0;
    while d % 2 == 0
      invariant d > 0 && OddPart(d) == OddPart(m) && TwoPower(d) + r == TwoPower(m)
      decreases d
    {
      d := d / 2;
      r := r + 1;
    }
  }

  method OneRound(n: nat, a: nat, d: nat, r: nat) returns (pass: bool)
    requires n > 3 && n % 2 == 1 && d == OddPart(n - 1) && r == TwoPower(n - 1)
    ensures pass <==> Passes(a, n)
  {
    hide Pow, OddPart, Square;
    PowNat(a, d);
    var x := Pow(a, d) % n;
    assert x == Chain(a, d, n, 0);
    assert r >= 1;
    if x == 1 || x == n - 1 {
      return true;
    }
    var i := 0;
    while i < r - 1
      invariant 0 <= i <= r - 1 && x == Chain(a, d, n, i)
      invariant forall j :: 0 <= j <= i ==> Chain(a, d, n, j) != n - 1
    {
      i := i + 1;
      x := Square(x, n);
      assert x == Chain(a, d, n, i);
      if x == n - 1 {
        return true;
      }
    }
    return false;
  }

  method IsProbablePrime(n: nat, bases: seq<nat>) returns (prime: bool)
    ensures prime <==> Accepts(n, bases)
  {
    if n == 2 || n == 3 {
      return true;
    }
    if n % 2 == 0 || n < 3 {
      return false;
    }
    var d, r := SplitTwos(n - 1);
    var k := 0;
    while k < |bases|
      invariant 0 <= k <= |bases|
      invariant forall j :: 0 <= j < k && 2 <= bases[j] < n - 1 ==> Passes(bases[j], n)
    {
      var a := bases[k];
      if 2 <= a < n - 1 {
        var pass := OneRound(n, a, d, r);
        if !pass {
          return false;
        }
      }
      k := k + 1;
    }
    return true;
  }

  // ---------- primes are never rejected ----------

  /** The chain consists of the powers a^(d * 2^i). */
  lemma {:induction false} ChainIsPower(a: nat, d: nat, n: nat, i: nat)
    requires n > 0
    ensures Pow(2, i) >= 0 && d * Pow(2, i) >= 0
    ensures Chain(a, d, n, i) == Pow(a, d * Pow(2, i)) % n
  {
    PowNat(2, i);
    if i == 0 {
      assert d * Pow(2, 0) == d;
    } else {
      ChainIsPower(a, d, n, i - 1);
      var e := d * Pow(2, i - 1);
      assert d * Pow(2, i) == e + e;
      PowAdd(a, e, e);
      ModProduct(Pow(a, e), Pow(a, e), n);
    }
  }

  lemma RootOfOne(n: nat, x: nat)
    requires Prime(n) && x < n && Square(x, n) == 1
    ensures x == 1 || x == n - 1
  {
    if x == 0 { ModUnique(0 * 0, n, 0, 0); }
    SquareRootsOfOne(n, x);
  }

  /** Walking down from a chain value 1: either the chain starts at 1 or it
      passes through -1. */
  lemma {:induction false} ChainReachesMinusOne(a: nat, d: nat, n: nat, r: nat)
    requires Prime(n) && Chain(a, d, n, r) == 1
    ensures Chain(a, d, n, 0) == 1 || HitsMinusOne(a, d, n, r)
  {
    hide Divides, Pow;
    if r > 0 {
      var x := Chain(a, d, n, r - 1);
      RootOfOne(n, x);
      if x == 1 {
        ChainReachesMinusOne(a, d, n, r - 1);
        if HitsMinusOne(a, d, n, r - 1) {
          var i :| 0 <= i < r - 1 && Chain(a, d, n, i) == n - 1;
        }
      }
    }
  }

  lemma PrimePasses(n: nat, a: nat)
    requires Prime(n) && n > 3 && 2 <= a < n - 1
    ensures Passes(a, n)
  {
    var d, r := OddPart(n - 1), TwoPower(n - 1);
    ChainIsPower(a, d, n, r);
    SplitProduct(n - 1);
    if Divides(n, a) { DividesLe(n, a); }
    Fermat(n, a);
    ModUnique(1, n, 0, 1);
    ChainReachesMinusOne(a, d, n, r);
  }

  /** A prime is accepted whatever bases are drawn. */
  lemma PrimesAccepted(n: nat, bases: seq<nat>)
    requires Prime(n)
    ensures Accepts(n, bases)
  {
    if n > 3 {
      assert !Divides(2, n);
      forall k | 0 <= k < |bases| && 2 <= bases[k] < n - 1
        ensures Passes(bases[k], n)
      {
        PrimePasses(n, bases[k]);
      }
    }
  }

  // ---------- what passing means ----------

  lemma {:induction false} SplitUnique(m: nat, d: nat, r: nat)
    requires m > 0 && d % 2 == 1 && Pow(2, r) >= 0 && m == d * Pow(2, r)
    ensures OddPart(m) == d && TwoPower(m) == r
    decreases r
  {
    if r > 0 {
      PowNat(2, r - 1);
      assert m == 2 * (d * Pow(2, r - 1)) by { Swap(d, 2, Pow(2, r - 1)); }
      SplitUnique(m / 2, d, r - 1);
    } else {
      assert Pow(2, 0) == 1;
    }
  }

  lemma {:induction false} OnesStay(a: nat, d: nat, n: nat, i: nat, j: nat)
    requires n > 1 && i <= j && Chain(a, d, n, i) == 1
    ensures Chain(a, d, n, j) == 1
    decreases j
  {
    if i < j {
      OnesStay(a, d, n, i, j - 1);
      ModUnique(1, n, 0, 1);
    }
  }

  lemma MinusOneSquared(n: nat)
    requires n > 1
    ensures Square(n - 1, n) == 1
  {
    assert (n - 1) * (n - 1) == n * (n - 2) + 1;
    ModUnique((n - 1) * (n - 1), n, n - 2, 1);
  }

  /** No value of the chain below r, except 1 and -1, squares to 1. */
  ghost predicate OnlyPlainRoots(a: nat, d: nat, n: nat, r: nat)
    requires n > 0
  {
    forall i: nat :: i < r && Chain(a, d, n, i + 1) == 1 ==> Chain(a, d, n, i) == 1 || Chain(a, d, n, i) == n - 1
  }

  lemma {:induction false} RootsLeadDown(a: nat, d: nat, n: nat, r: nat)
    requires n > 1 && Chain(a, d, n, r) == 1 && OnlyPlainRoots(a, d, n, r)
    ensures Chain(a, d, n, 0) == 1 || HitsMinusOne(a, d, n, r)
    decreases r
  {
    hide Chain;
    if r > 0 {
      assert Chain(a, d, n, r - 1 + 1) == 1;
      if Chain(a, d, n, r - 1) == 1 {
        RootsLeadDown(a, d, n, r - 1);
        if i :| 0 <= i < r - 1 && Chain(a, d, n, i) == n - 1 {
          assert HitsMinusOne(a, d, n, r);
        }
      } else {
        assert HitsMinusOne(a, d, n, r);
      }
    }
  }

  lemma PassingChain(a: nat, d: nat, n: nat, r: nat)
    requires n > 2 && (Chain(a, d, n, 0) == 1 || HitsMinusOne(a, d, n, r))
    ensures Chain(a, d, n, r) == 1 && OnlyPlainRoots(a, d, n, r)
  {
    if Chain(a, d, n, 0) == 1 {
      forall j: nat | j <= r
        ensures Chain(a, d, n, j) == 1
      {
        OnesStay(a, d, n, 0, j);
      }
    } else {
      var i: nat :| i < r && Chain(a, d, n, i) == n - 1;
      MinusOneSquared(n);
      assert Chain(a, d, n, i + 1) == 1;
      hide Chain;
      forall j: nat | i < j <= r
        ensures Chain(a, d, n, j) == 1
      {
        OnesStay(a, d, n, i + 1, j);
      }
      forall j: nat | j <= i
        ensures Chain(a, d, n, j) != 1
      {
        if Chain(a, d, n, j) == 1 { OnesStay(a, d, n, j, i); }
      }
    }
  }

  /** a^(d 2^i) is -1 modulo n. */
  ghost predicate IsMinusOne(a: nat, d: nat, n: nat, i: nat)
    requires n > 0
  {
    d * Pow(2, i) >= 0 && Pow(a, d * Pow(2, i)) % n == n - 1
  }

  /** A base passes if and only if a^d is 1 or some a^(d 2^i) with i < r is -1, where
      n - 1 = d 2^r and d is odd. */
  lemma PassesExactly(a: nat, n: nat, d: nat, r: nat)
    requires n > 1 && d % 2 == 1 && Pow(2, r) >= 0 && n - 1 == d * Pow(2, r)
    ensures Passes(a, n) <==>
      Pow(a, d) % n == 1 || exists i: nat :: i < r && IsMinusOne(a, d, n, i)
  {
    hide Pow, Chain, IsMinusOne, OddPart, TwoPower;
    SplitUnique(n - 1, d, r);
    ChainStarts(a, d, n);
    forall i: nat
      ensures IsMinusOne(a, d, n, i) <==> Chain(a, d, n, i) == n - 1
    {
      ChainIsMinusOne(a, d, n, i);
    }
  }

  lemma ChainStarts(a: nat, d: nat, n: nat)
    requires n > 0
    ensures Chain(a, d, n, 0) == Pow(a, d) % n
  {
  }

  lemma ChainIsMinusOne(a: nat, d: nat, n: nat, i: nat)
    requires n > 0
    ensures IsMinusOne(a, d, n, i) <==> Chain(a, d, n, i) == n - 1
  {
    hide Pow;
    ChainIsPower(a, d, n, i);
  }

  /** A base passes if and only if it passes Fermat's test and the squarings on the way show no
      square root of 1 other than 1 and -1. */
  lemma PassesMeans(a: nat, n: nat, d: nat, r: nat)
    requires n > 2 && d % 2 == 1 && Pow(2, r) >= 0 && n - 1 == d * Pow(2, r)
    ensures Passes(a, n) <==> Pow(a, n - 1) % n == 1 && OnlyPlainRoots(a, d, n, r)
  {
    hide Pow, Chain, OnlyPlainRoots;
    SplitUnique(n - 1, d, r);
    ChainIsPower(a, d, n, r);
    if Chain(a, d, n, 0) == 1 || HitsMinusOne(a, d, n, r) {
      PassingChain(a, d, n, r);
    } else if Chain(a, d, n, r) == 1 && OnlyPlainRoots(a, d, n, r) {
      RootsLeadDown(a, d, n, r);
    }
  }
}
