/**
 Arithmetic modulo m: congruences, powers, primes, Euclid's lemma and
 Fermat's little theorem. The greatest common divisor is the one computed by
 the extended Euclidean recursion.
 */
module NumberTheory {
  import opened Common

  ghost predicate Cong(a: int, b: int, m: int)
    requires m > 0
  {
    a % m == b % m
  }

  predicate Divides(d: int, x: int)
    requires d > 0
  {
    x % d == 0
  }

  function Pow(b: int, e: nat): (r: int)
    decreases e
  {
    if e == 0 then 1 else b * Pow(b, e - 1)
  }

  // ---------- quotients and congruences ----------

  lemma ModUnique(x: int, m: int, k: int, r: int)
    requires m > 0 && 0 <= r < m && x == m * k + r
    ensures x % m == r && x / m == k
  {
    var d := x / m - k;
    assert m * d == r - x % m;
    assert d >= 1 ==> m * d >= m;
    assert d <= -1 ==> m * d <= -m;
  }

  lemma CongIntro(a: int, b: int, m: int, k: int)
    requires m > 0 && a == b + m * k
    ensures Cong(a, b, m)
  {
    var q := b / m;
    assert a == m * (q + k) + b % m;
    ModUnique(a, m, q + k, b % m);
  }

  lemma CongElim(a: int, b: int, m: int) returns (k: int)
    requires m > 0 && Cong(a, b, m)
    ensures a == b + m * k
  {
    k := a / m - b / m;
    assert a == m * (a / m) + a % m;
    assert b == m * (b / m) + b % m;
  }

  lemma DividesIntro(d: int, x: int, k: int)
    requires d > 0 && x == d * k
    ensures Divides(d, x)
  {
    ModUnique(x, d, k, 0);
  }

  lemma DividesElim(d: int, x: int) returns (k: int)
    requires d > 0 && Divides(d, x)
    ensures x == d * k
  {
    k := x / d;
  }

  lemma CongIffDivides(a: int, b: int, m: int)
    requires m > 0
    ensures Cong(a, b, m) <==> Divides(m, a - b)
  {
    if Cong(a, b, m) {
      var k := CongElim(a, b, m);
      DividesIntro(m, a - b, k);
    }
    if Divides(m, a - b) {
      var k := DividesElim(m, a - b);
      CongIntro(a, b, m, k);
    }
  }

  lemma CongRefl(a: int, m: int)
    requires m > 0
    ensures Cong(a, a, m)
  {
  }

  lemma CongTrans(a: int, b: int, c: int, m: int)
    requires m > 0 && Cong(a, b, m) && Cong(b, c, m)
    ensures Cong(a, c, m)
  {
  }

  lemma CongSym(a: int, b: int, m: int)
    requires m > 0 && Cong(a, b, m)
    ensures Cong(b, a, m)
  {
  }

  lemma CongToMod(a: int, b: int, m: int)
    requires m > 0 && Cong(a, b, m)
    ensures a % m == b % m
  {
  }

  lemma DivMod(x: int, m: int) returns (q: int, r: int)
    requires m > 0
    ensures x == m * q + r && r == x % m && 0 <= r < m
  {
    q, r := x / m, x % m;
  }

  lemma CongAdd(a: int, b: int, c: int, d: int, m: int)
    requires m > 0 && Cong(a, b, m) && Cong(c, d, m)
    ensures Cong(a + c, b + d, m) && Cong(a - c, b - d, m)
  {
    var j := CongElim(a, b, m);
    var k := CongElim(c, d, m);
    assert a + c == b + d + m * (j + k);
    CongIntro(a + c, b + d, m, j + k);
    assert a - c == b - d + m * (j - k);
    CongIntro(a - c, b - d, m, j - k);
  }

  lemma CongMul(a: int, b: int, c: int, d: int, m: int)
    requires m > 0 && Cong(a, b, m) && Cong(c, d, m)
    ensures Cong(a * c, b * d, m)
  {
    var j := CongElim(a, b, m);
    var k := CongElim(c, d, m);
    calc {
      a * c;
      (b + m * j) * (d + m * k);
      b * d + m * (b * k + j * d + m * j * k);
    }
    CongIntro(a * c, b * d, m, b * k + j * d + m * j * k);
  }

  lemma ModCong(a: int, m: int)
    requires m > 0
    ensures Cong(a % m, a, m)
  {
    assert a == m * (a / m) + a % m;
    CongIntro(a, a % m, m, a / m);
  }

  lemma ModProduct(a: int, b: int, m: int)
    requires m > 0
    ensures ((a % m) * (b % m)) % m == (a * b) % m
  {
    ModCong(a, m);
    ModCong(b, m);
    CongMul(a % m, a, b % m, b, m);
  }

  lemma CongSmall(a: int, b: int, m: int)
    requires 0 <= a < m && 0 <= b < m && Cong(a, b, m)
    ensures a == b
  {
    ModUnique(a, m, 0, a);
    ModUnique(b, m, 0, b);
  }

  lemma {:induction false} CongPow(a: int, b: int, e: nat, m: int)
    requires m > 0 && Cong(a, b, m)
    ensures Cong(Pow(a, e), Pow(b, e), m)
  {
    if e > 0 {
      CongPow(a, b, e - 1, m);
      CongMul(a, b, Pow(a, e - 1), Pow(b, e - 1), m);
    }
  }

  // ---------- powers ----------

  lemma {:induction false} PowAdd(b: int, d: nat, e: nat)
    ensures Pow(b, d + e) == Pow(b, d) * Pow(b, e)
    decreases d
  {
    if d > 0 {
      PowAdd(b, d - 1, e);
      assert Pow(b, d + e) == b * Pow(b, d - 1 + e);
      assert b * (Pow(b, d - 1) * Pow(b, e)) == (b * Pow(b, d - 1)) * Pow(b, e);
    }
  }

  lemma {:induction false} PowMulBase(a: int, b: int, e: nat)
    ensures Pow(a * b, e) == Pow(a, e) * Pow(b, e)
  {
    if e > 0 {
      PowMulBase(a, b, e - 1);
      calc {
        Pow(a * b, e);
        (a * b) * (Pow(a, e - 1) * Pow(b, e - 1));
        (a * Pow(a, e - 1)) * (b * Pow(b, e - 1));
      }
    }
  }

  lemma {:induction false} PowPow(b: int, d: nat, e: nat)
    ensures d * e >= 0 && Pow(b, d * e) == Pow(Pow(b, d), e)
    decreases e
  {
    if e > 0 {
      PowPow(b, d, e - 1);
      assert d * e == d + d * (e - 1);
      PowAdd(b, d, d * (e - 1));
    } else {
      assert d * e == 0;
    }
  }

  lemma PowSwap(b: int, d: nat, e: nat)
    ensures Pow(Pow(b, d), e) == Pow(Pow(b, e), d)
  {
    PowPow(b, d, e);
    PowPow(b, e, d);
    assert d * e == e * d;
  }

  lemma {:induction false} PowOne(e: nat)
    ensures Pow(1, e) == 1
  {
    if e > 0 { PowOne(e - 1); }
  }

  lemma {:induction false} PowNat(b: int, e: nat)
    requires b >= 0
    ensures Pow(b, e) >= 0
    ensures b > 0 ==> Pow(b, e) > 0
  {
    if e > 0 { PowNat(b, e - 1); }
  }

  function ModPow(b: nat, e: nat, m: nat): (r: nat)
    requires m > 0
    ensures r < m
  {
    Pow(b, e) % m
  }

  // ---------- greatest common divisor ----------

  /** The recursion of `extended_gcd` on non-negative arguments: the last two
      components are Bezout coefficients of the first. */
  function ExtendedGcd(a: nat, b: nat): (r: (nat, int, int))
    ensures a * r.1 + b * r.2 == r.0
    ensures r.0 > 0 ==> Divides(r.0, a) && Divides(r.0, b)
    ensures r.0 == 0 <==> a == 0 && b == 0
    decreases b
  {
    if b == 0 then
      assert a > 0 ==> Divides(a, a) by { if a > 0 { DividesIntro(a, a, 1); } }
      (a, 1, 0)
    else
      var (g, x, y) := ExtendedGcd(b, a % b);
      assert a * y + b * (x - (a / b) * y) == g && Divides(g, a) by { GcdStep(a, b, g, x, y); }
      (g, y, x - (a / b) * y)
  }

  lemma GcdStep(a: nat, b: nat, g: nat, x: int, y: int)
    requires b > 0 && g > 0 && Divides(g, b) && Divides(g, a % b)
    requires b * x + (a % b) * y == g
    ensures a * y + b * (x - (a / b) * y) == g
    ensures Divides(g, a)
  {
    var q := a / b;
    var r := a % b;
    assert a == b * q + r;
    assert a * y == b * (q * y) + r * y by {
      assert (b * q + r) * y == (b * q) * y + r * y;
      assert (b * q) * y == b * (q * y);
    }
    assert b * (x - q * y) == b * x - b * (q * y);
    var j := DividesElim(g, b);
    var k := DividesElim(g, r);
    assert g * (j * q + k) == (g * j) * q + g * k;
    DividesIntro(g, a, j * q + k);
  }

  function Gcd(a: nat, b: nat): (g: nat)
    ensures g == 0 <==> a == 0 && b == 0
    ensures g > 0 ==> Divides(g, a) && Divides(g, b)
  {
    ExtendedGcd(a, b).0
  }

  /** No number above one divides both. */
  ghost predicate Coprime(a: int, b: int)
  {
    forall d: int :: d > 1 ==> !(Divides(d, a) && Divides(d, b))
  }

  lemma DividesSum(d: int, a: int, b: int, x: int, y: int)
    requires d > 0 && Divides(d, a) && Divides(d, b)
    ensures Divides(d, a * x + b * y)
  {
    var j := DividesElim(d, a);
    var k := DividesElim(d, b);
    assert d * (j * x + k * y) == (d * j) * x + (d * k) * y;
    DividesIntro(d, a * x + b * y, j * x + k * y);
  }

  lemma DividesTrans(a: int, b: int, c: int)
    requires a > 0 && b > 0 && Divides(a, b) && Divides(b, c)
    ensures Divides(a, c)
  {
    var j := DividesElim(a, b);
    var k := DividesElim(b, c);
    assert (a * j) * k == a * (j * k);
    DividesIntro(a, c, j * k);
  }

  /** Every common divisor divides the computed one. */
  lemma GcdGreatest(a: nat, b: nat, d: int)
    requires d > 0 && Divides(d, a) && Divides(d, b)
    ensures Divides(d, Gcd(a, b))
  {
    var (g, x, y) := ExtendedGcd(a, b);
    DividesSum(d, a, b, x, y);
  }

  lemma DividesLe(d: int, x: int)
    requires d > 0 && x > 0 && Divides(d, x)
    ensures d <= x
  {
    var k := DividesElim(d, x);
    assert k <= 0 ==> d * k <= 0;
    assert k >= 1 ==> d * k >= d;
  }

  lemma GcdOneIffCoprime(a: nat, b: nat)
    ensures Gcd(a, b) == 1 <==> Coprime(a, b)
  {
    var g := Gcd(a, b);
    if g == 1 {
      forall d: int | d > 1
        ensures !(Divides(d, a) && Divides(d, b))
      {
        if Divides(d, a) && Divides(d, b) {
          GcdGreatest(a, b, d);
          DividesLe(d, 1);
        }
      }
    } else if g == 0 {
      assert Divides(2, a) && Divides(2, b);
    } else {
      assert Divides(g, a) && Divides(g, b);
    }
  }

  // ---------- modular inverse ----------

  /** Remainder with the sign of the dividend, as on `BigInt`. */
  function TruncRem(x: int, m: nat): (r: int)
    requires m > 0
    ensures -(m as int) < r < m && Cong(r, x, m)
    ensures (r < 0 ==> x < 0) && (r > 0 ==> x > 0)
  {
    if x >= 0 then
      ModCong(x, m);
      ZeroRem(m);
      x % m
    else
      NegatedRem(x, m);
      -((-x) % m)
  }

  lemma ZeroRem(m: nat)
    requires m > 0
    ensures 0 % m == 0
  {
    ModUnique(0, m, 0, 0);
  }

  lemma NegatedRem(x: int, m: nat)
    requires m > 0
    ensures 0 <= (-x) % m < m && Cong(-((-x) % m), x, m)
  {
    ModCong(-x, m);
    CongAdd(0, 0, (-x) % m, -x, m);
  }

  /** The inverse of a modulo m, reduced into [0, m), exactly when there is one. */
  function ModInv(a: nat, m: nat): (r: Option<nat>)
    requires m > 0
    ensures r.Some? <==> Coprime(a, m)
    ensures r.Some? ==> r.value < m && Cong(a * r.value, 1, m)
  {
    var (g, x, y) := ExtendedGcd(a, m);
    assert g == 1 <==> Coprime(a, m) by { GcdOneIffCoprime(a, m); }
    if g != 1 then
      None
    else
      var r := TruncRem(x, m);
      var s := if r < 0 then r + m else r;
      assert Cong(a * s, 1, m) by {
        CongIntro(r + m, r, m, 1);
        CongMul(a, a, s, x, m);
        assert 1 == a * x + m * y;
        CongIntro(1, a * x, m, y);
      }
      Some(s)
  }

  // ---------- primes ----------

  ghost predicate Prime(p: int)
  {
    p >= 2 && forall d: int :: 1 < d < p ==> !Divides(d, p)
  }

  lemma PrimeCoprime(p: nat, a: nat)
    requires Prime(p)
    ensures Divides(p, a) <==> !Coprime(a, p)
  {
    if Divides(p, a) {
      DividesIntro(p, p, 1);
    } else {
      forall d: int | d > 1
        ensures !(Divides(d, a) && Divides(d, p))
      {
        if Divides(d, a) && Divides(d, p) {
          DividesLe(d, p);
        }
      }
    }
  }

  /** Euclid's lemma. */
  lemma EuclidLemma(p: nat, a: nat, b: int)
    requires Prime(p) && Divides(p, a * b) && !Divides(p, a)
    ensures Divides(p, b)
  {
    PrimeCoprime(p, a);
    GcdOneIffCoprime(a, p);
    var (g, x, y) := ExtendedGcd(a, p);
    var k := DividesElim(p, a * b);
    calc {
      b;
      b * (a * x + p * y);
      (a * b) * x + p * (y * b);
      p * k * x + p * (y * b);
      p * (k * x + y * b);
    }
    DividesIntro(p, b, k * x + y * b);
  }

  /** A factor prime to p can be cancelled from a congruence. */
  lemma CancelFactor(p: nat, a: nat, b: int, c: int)
    requires Prime(p) && !Divides(p, a) && Cong(a * b, a * c, p)
    ensures Cong(b, c, p)
  {
    CongIffDivides(a * b, a * c, p);
    assert a * b - a * c == a * (b - c);
    EuclidLemma(p, a, b - c);
    CongIffDivides(b, c, p);
  }

  /** Two distinct primes dividing x: so does their product. */
  lemma DistinctPrimesDivide(p: nat, q: nat, x: int)
    requires Prime(p) && Prime(q) && p != q && Divides(p, x) && Divides(q, x)
    ensures p * q > 0 && Divides(p * q, x)
  {
    var k := DividesElim(p, x);
    assert !Divides(q, p) by {
      if Divides(q, p) { DividesLe(q, p); }
    }
    EuclidLemma(q, p, k);
    var j := DividesElim(q, k);
    assert p * (q * j) == (p * q) * j;
    DividesIntro(p * q, x, j);
  }

  // ---------- Fermat ----------

  /** The product of the members of s that lie below n. */
  ghost function Product(s: set<nat>, n: nat): (r: nat)
  {
    if n == 0 then 1 else (if n - 1 in s then n - 1 else 1) * Product(s, n - 1)
  }

  lemma {:induction false} ProductUnchanged(s: set<nat>, t: set<nat>, n: nat)
    requires forall i :: 0 <= i < n ==> (i in s <==> i in t)
    ensures Product(s, n) == Product(t, n)
  {
    if n > 0 { ProductUnchanged(s, t, n - 1); }
  }

  lemma Swap(a: int, b: int, c: int)
    ensures a * (b * c) == b * (a * c)
  {
    assert a * (b * c) == (a * b) * c == (b * a) * c;
  }

  lemma {:induction false} ProductTake(s: set<nat>, y: nat, n: nat)
    requires y in s && y < n
    ensures Product(s, n) == y * Product(s - {y}, n)
  {
    if y == n - 1 {
      ProductUnchanged(s, s - {y}, n - 1);
    } else {
      ProductTake(s, y, n - 1);
      Swap(if n - 1 in s then n - 1 else 1, y, Product(s - {y}, n - 1));
    }
  }

  ghost predicate Within(s: set<nat>, p: nat)
  {
    forall i :: i in s ==> 1 <= i < p
  }

  lemma {:induction false} RangeBelow(p: nat) returns (s: set<nat>)
    requires p >= 1
    ensures |s| == p - 1 && forall i: nat :: i in s <==> 1 <= i < p
  {
    if p == 1 {
      s := {};
    } else {
      s := RangeBelow(p - 1);
      s := s + {p - 1};
    }
  }

  ghost function Multiples(a: nat, p: nat, s: set<nat>): set<nat>
    requires p > 0
  {
    set i | i in s :: (a * i) % p
  }

  lemma MultipleInjective(p: nat, a: nat, i: nat, j: nat)
    requires Prime(p) && !Divides(p, a) && i < p && j < p
    requires (a * i) % p == (a * j) % p
    ensures i == j
  {
    CancelFactor(p, a, i, j);
    CongSmall(i, j, p);
  }

  lemma MultiplesStep(p: nat, a: nat, s: set<nat>, x: nat)
    requires Prime(p) && !Divides(p, a) && Within(s, p) && x in s
    ensures var image := Multiples(a, p, s - {x});
            (a * x) % p !in image && Multiples(a, p, s) == image + {(a * x) % p}
  {
    var y := (a * x) % p;
    var image := Multiples(a, p, s - {x});
    if y in image {
      var i :| i in s - {x} && y == (a * i) % p;
      MultipleInjective(p, a, x, i);
    }
    forall z | z in Multiples(a, p, s)
      ensures z in image + {y}
    {
      var i :| i in s && z == (a * i) % p;
      assert i != x ==> i in s - {x};
    }
  }

  lemma {:induction false} MultiplesProduct(p: nat, a: nat, s: set<nat>)
    requires Prime(p) && !Divides(p, a) && Within(s, p)
    ensures |Multiples(a, p, s)| == |s|
    ensures Cong(Product(Multiples(a, p, s), p), Pow(a, |s|) * Product(s, p), p)
    decreases s
  {
    if s == {} {
      assert Multiples(a, p, s) == s;
      assert Pow(a, 0) * Product(s, p) == Product(s, p);
    } else {
      var x :| x in s;
      var rest := s - {x};
      MultiplesProduct(p, a, rest);
      MultiplesStep(p, a, s, x);
      var y := (a * x) % p;
      var image := Multiples(a, p, rest);
      ProductTake(image + {y}, y, p);
      assert image + {y} - {y} == image;
      ProductTake(s, x, p);
      ModCong(a * x, p);
      CongMul(y, a * x, Product(image, p), Pow(a, |rest|) * Product(rest, p), p);
      Regroup(a, x, Pow(a, |rest|), Product(rest, p));
    }
  }

  lemma Regroup(a: int, b: int, c: int, d: int)
    ensures (a * b) * (c * d) == (a * c) * (b * d)
  {
    assert (a * b) * (c * d) == a * (b * c) * d == a * (c * b) * d;
  }

  lemma {:induction false} ProductPrimeTo(p: nat, s: set<nat>, n: nat)
    requires Prime(p) && n <= p && 0 !in s
    ensures !Divides(p, Product(s, n))
  {
    if n == 0 {
      if Divides(p, 1) { DividesLe(p, 1); }
    } else {
      ProductPrimeTo(p, s, n - 1);
      var c := if n - 1 in s then n - 1 else 1;
      if Divides(p, c) { DividesLe(p, c); }
      if Divides(p, c * Product(s, n - 1)) {
        EuclidLemma(p, c, Product(s, n - 1));
      }
    }
  }

  lemma MultiplesPermute(p: nat, a: nat, all: set<nat>)
    requires Prime(p) && !Divides(p, a) && forall i: nat :: i in all <==> 1 <= i < p
    ensures Multiples(a, p, all) == all
  {
    forall i | i in all
      ensures (a * i) % p in all
    {
      if (a * i) % p == 0 {
        EuclidLemma(p, a, i);
        DividesLe(p, i);
      }
    }
    MultiplesProduct(p, a, all);
    SubsetOfSameSize(Multiples(a, p, all), all);
  }

  lemma CancelToOne(p: nat, f: nat, x: int)
    requires Prime(p) && !Divides(p, f) && Cong(f, x * f, p)
    ensures Cong(x, 1, p)
  {
    assert f * x == x * f && f * 1 == f;
    CancelFactor(p, f, x, 1);
  }

  lemma PermutedProduct(p: nat, a: nat, s: set<nat>)
    requires Prime(p) && !Divides(p, a) && Within(s, p) && Multiples(a, p, s) == s
    ensures !Divides(p, Product(s, p)) && Cong(Product(s, p), Pow(a, |s|) * Product(s, p), p)
  {
    ProductPrimeTo(p, s, p);
    MultiplesProduct(p, a, s);
  }

  /** Fermat's little theorem: multiplication by a permutes 1 .. p-1. */
  lemma Fermat(p: nat, a: nat)
    requires Prime(p) && !Divides(p, a)
    ensures Cong(Pow(a, p - 1), 1, p)
  {
    var all := RangeBelow(p);
    MultiplesPermute(p, a, all);
    PermutedProduct(p, a, all);
    CancelToOne(p, Product(all, p), Pow(a, |all|));
  }

  /** Any exponent that is a multiple of p-1 works as well. */
  lemma FermatMultiple(p: nat, a: nat, e: nat)
    requires Prime(p) && !Divides(p, a) && Divides(p - 1, e)
    ensures Cong(Pow(a, e), 1, p)
  {
    var k := DividesElim(p - 1, e);
    assert k < 0 ==> (p - 1) * k < 0;
    PowPow(a, p - 1, k);
    Fermat(p, a);
    CongPow(Pow(a, p - 1), 1, k, p);
    PowOne(k);
  }

  /** Modulo a prime, 1 has only the square roots 1 and -1. */
  lemma SquareRootsOfOne(p: nat, x: nat)
    requires Prime(p) && 0 < x < p && (x * x) % p == 1
    ensures x == 1 || x == p - 1
  {
    ModUnique(1, p, 0, 1);
    CongIffDivides(x * x, 1, p);
    assert x * x - 1 == (x - 1) * (x + 1);
    if x != 1 {
      if Divides(p, x - 1) { DividesLe(p, x - 1); }
      EuclidLemma(p, x - 1, x + 1);
      DividesLe(p, x + 1);
    }
  }

  lemma FiveIsPrime()
    ensures Prime(5)
  {
    assert 5 % 2 == 1 && 5 % 3 == 2 && 5 % 4 == 1;
  }

  lemma SevenIsPrime()
    ensures Prime(7)
  {
    assert 7 % 2 == 1 && 7 % 3 == 1 && 7 % 4 == 3 && 7 % 5 == 2 && 7 % 6 == 1;
  }
}
