/**
 Powers of 2 modulo a number: repeated powers, when two powers agree under every
 modulus, and when they agree under one odd modulus.
 */
module PowersOfTwo {
  import opened Common
  import opened NumberTheory

  /** Raising to one exponent after another raises to their product. */
  lemma ModPowTwice(a: nat, x: nat, y: nat, m: nat)
    requires m > 0
    ensures x * y >= 0 && ModPow(ModPow(a, x, m), y, m) == ModPow(a, x * y, m)
  {
    hide Pow, Cong;
    PowPow(a, x, y);
    ModCong(Pow(a, x), m);
    CongPow(Pow(a, x) % m, Pow(a, x), y, m);
    CongToMod(Pow(Pow(a, x) % m, y), Pow(Pow(a, x), y), m);
  }

  lemma TwoToOne(m: nat)
    requires m > 2
    ensures ModPow(2, 1, m) == 2
  {
    assert Pow(2, 1) == 2;
    ModUnique(2, m, 0, 2);
  }

  // ----- all moduli -----

  /** Factors of a modulus as the code draws them: odd and above 3. */
  predicate Usable(p: nat, q: nat)
  {
    p > 3 && q > 3 && p % 2 == 1 && q % 2 == 1
  }

  /** The same power of 2 under every modulus. */
  ghost predicate SameResidues(x: nat, y: nat)
  {
    forall p: nat, q: nat :: Usable(p, q) ==> p * q > 0 && ModPow(2, x, p * q) == ModPow(2, y, p * q)
  }

  lemma {:induction false} PowersApart(x: nat, y: nat)
    requires x < y
    ensures 0 < Pow(2, x) < Pow(2, y)
    decreases y
  {
    if x == y - 1 {
      PowNat(2, x);
    } else {
      PowersApart(x, y - 1);
    }
  }

  lemma LargeFactor(b: nat)
    ensures Usable(5, 2 * b + 5) && b < 5 * (2 * b + 5)
  {
  }

  lemma FactorsArePositive(p: nat, q: nat)
    requires Usable(p, q)
    ensures p * q > 0
  {
  }

  /** Powers of 2 agree under every modulus only if the exponents are equal. */
  lemma ResiduesDetermine(x: nat, y: nat)
    ensures SameResidues(x, y) <==> x == y
  {
    hide Pow, Usable;
    if x == y {
      forall p: nat, q: nat | Usable(p, q)
        ensures p * q > 0 && ModPow(2, x, p * q) == ModPow(2, y, p * q)
      {
        FactorsArePositive(p, q);
      }
    } else {
      var (lo, hi) := if x < y then (x, y) else (y, x);
      PowersApart(lo, hi);
      var b: nat := Pow(2, hi);
      var q := 2 * b + 5;
      LargeFactor(b);
      ModUnique(Pow(2, lo), 5 * q, 0, Pow(2, lo));
      ModUnique(Pow(2, hi), 5 * q, 0, Pow(2, hi));
      assert ModPow(2, lo, 5 * q) != ModPow(2, hi, 5 * q);
    }
  }

  // ----- one odd modulus -----

  /** The least positive exponent that takes 2 to 1 modulo m. */
  ghost predicate IsOrder(d: nat, m: nat)
    requires m > 0
  {
    d > 0 && ModPow(2, d, m) == 1 && forall k: nat :: 0 < k < d ==> ModPow(2, k, m) != 1
  }

  lemma HalfCong(a: int, b: int, m: nat)
    requires m % 2 == 1 && Cong(2 * a, 2 * b, m)
    ensures Cong(a, b, m)
  {
    hide Cong;
    var k := CongElim(2 * a, 2 * b, m);
    OddFactor(m, k, a - b);
    assert m * k == 2 * (m * (k / 2)) by { assert m * (2 * (k / 2)) == 2 * (m * (k / 2)); }
    CongIntro(a, b, m, k / 2);
  }

  lemma OddFactor(m: nat, k: int, c: int)
    requires m % 2 == 1 && m * k == 2 * c
    ensures k == 2 * (k / 2)
  {
    var j := m / 2;
    assert m == 2 * j + 1;
    assert (2 * j + 1) * k == 2 * (j * k) + k;
  }

  /** A factor 2^y can be cancelled modulo an odd number. */
  lemma {:induction false} CancelPower(y: nat, a: int, m: nat)
    requires m % 2 == 1 && Cong(Pow(2, y) * a, Pow(2, y), m)
    ensures Cong(a, 1, m)
  {
    hide Cong;
    if y > 0 {
      var p := Pow(2, y - 1);
      assert Pow(2, y) * a == 2 * (p * a) by { assert (2 * p) * a == 2 * (p * a); }
      HalfCong(p * a, p, m);
      CancelPower(y - 1, a, m);
    }
  }

  lemma PowerOfOrder(d: nat, k: nat, r: nat, m: nat)
    requires m > 1 && ModPow(2, d, m) == 1
    ensures d * k + r >= 0 && Cong(Pow(2, d * k + r), Pow(2, r), m)
  {
    hide Cong, Pow;
    PowPow(2, d, k);
    PowAdd(2, d * k, r);
    ModCong(Pow(2, d), m);
    CongSym(1, Pow(2, d), m);
    CongPow(Pow(2, d), 1, k, m);
    PowOne(k);
    CongRefl(Pow(2, r), m);
    CongMul(Pow(2, d * k), 1, Pow(2, r), Pow(2, r), m);
  }

  lemma AgreeIfOne(x: nat, y: nat, m: nat)
    requires m > 1 && m % 2 == 1 && y <= x
    ensures Cong(Pow(2, x), Pow(2, y), m) <==> Cong(Pow(2, x - y), 1, m)
  {
    hide Cong, Pow;
    PowAdd(2, y, x - y);
    var (a, p) := (Pow(2, x - y), Pow(2, y));
    if Cong(a, 1, m) {
      CongRefl(p, m);
      CongMul(p, p, a, 1, m);
    }
    if Cong(Pow(2, x), p, m) { CancelPower(y, a, m); }
  }

  lemma OneIfDivided(n: nat, d: nat, m: nat)
    requires m > 1 && IsOrder(d, m)
    ensures Cong(Pow(2, n), 1, m) <==> Divides(d, n)
  {
    hide Cong, Pow, ModPow;
    var (k, r) := (n / d, n % d);
    assert n == d * k + r;
    PowerOfOrder(d, k, r, m);
    PowZero();
    if r != 0 && Cong(Pow(2, n), 1, m) {
      CongSym(Pow(2, n), Pow(2, r), m);
      CongTrans(Pow(2, r), Pow(2, n), 1, m);
      OneResidue(r, m);
    }
  }

  lemma OneResidue(r: nat, m: nat)
    requires m > 1 && Cong(Pow(2, r), 1, m)
    ensures ModPow(2, r, m) == 1
  {
    hide Pow, Cong;
    CongToMod(Pow(2, r), 1, m);
    ModUnique(1, m, 0, 1);
  }

  /** Modulo an odd number two powers of 2 agree exactly when the order of 2 divides the
      difference of the exponents. */
  lemma PowersAgreeExactly(x: nat, y: nat, d: nat, m: nat)
    requires m > 1 && m % 2 == 1 && IsOrder(d, m) && y <= x
    ensures ModPow(2, x, m) == ModPow(2, y, m) <==> Divides(d, x - y)
  {
    hide Pow, IsOrder, Divides;
    AgreeIfOne(x, y, m);
    OneIfDivided(x - y, d, m);
  }

  lemma PowZero()
    ensures Pow(2, 0) == 1
  {
  }

  ghost function Residues(n: nat, m: nat): (s: set<nat>)
    requires m > 0
    ensures forall r :: r in s <==> exists k: nat :: k < n && r == ModPow(2, k, m)
  {
    if n == 0 then {} else Residues(n - 1, m) + {ModPow(2, n - 1, m)}
  }

  ghost predicate NoOneBelow(n: nat, m: nat)
    requires m > 0
  {
    forall k: nat :: 0 < k < n ==> ModPow(2, k, m) != 1
  }

  lemma NewResidue(n: nat, m: nat)
    requires m > 1 && m % 2 == 1 && n > 0 && NoOneBelow(n, m)
    ensures ModPow(2, n - 1, m) !in Residues(n - 1, m)
  {
    hide ModPow, Residues;
    if ModPow(2, n - 1, m) in Residues(n - 1, m) {
      var k: nat :| k < n - 1 && ModPow(2, n - 1, m) == ModPow(2, k, m);
      SameResidueGivesOne(n - 1, k, m);
    }
  }

  lemma {:induction false} ResiduesDistinct(n: nat, m: nat)
    requires m > 1 && m % 2 == 1 && NoOneBelow(n, m)
    ensures |Residues(n, m)| == n
  {
    hide ModPow;
    if n > 0 {
      ResiduesDistinct(n - 1, m);
      hide NoOneBelow;
      NewResidue(n, m);
    }
  }

  lemma SameResidueGivesOne(x: nat, y: nat, m: nat)
    requires m > 1 && m % 2 == 1 && y < x && ModPow(2, x, m) == ModPow(2, y, m)
    ensures ModPow(2, x - y, m) == 1
  {
    hide Pow;
    AgreeIfOne(x, y, m);
    OneResidue(x - y, m);
  }

  lemma TooManyResidues(m: nat)
    requires m > 1 && m % 2 == 1
    ensures exists k: nat :: 0 < k < m + 1 && ModPow(2, k, m) == 1
  {
    hide ModPow;
    if forall k: nat :: 0 < k < m + 1 ==> ModPow(2, k, m) != 1 {
      ResiduesDistinct(m + 1, m);
      var below := RangeBelow(m);
      SubsetSize(Residues(m + 1, m), below + {0});
    }
  }

  /** 2 has an order modulo every odd number above 1. */
  lemma OrderExists(m: nat) returns (d: nat)
    requires m > 1 && m % 2 == 1
    ensures IsOrder(d, m)
  {
    hide ModPow;
    TooManyResidues(m);
    var bound: nat :| 0 < bound < m + 1 && ModPow(2, bound, m) == 1;
    d := 1;
    while ModPow(2, d, m) != 1
      invariant 0 < d <= bound && forall k: nat :: 0 < k < d ==> ModPow(2, k, m) != 1
      decreases bound - d
    {
      d := d + 1;
    }
  }
}
