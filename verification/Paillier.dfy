/**
 Paillier encryption over unbounded naturals: key derivation from two primes,
 encryption, decryption and the two homomorphic operations. Random values are
 arguments.
 */
module Paillier {
  import opened Common
  import opened NumberTheory

  datatype PublicKey = PublicKey(n: nat, nSquared: nat, g: nat)

  datatype PrivateKey = PrivateKey(lambda: nat, mu: nat)

  datatype Keypair = Keypair(pub: PublicKey, priv: PrivateKey)

  datatype PaillierError = Encryption | Decryption

  // ---------- keys ----------

  function Lambda(p: nat, q: nat): (l: nat)
    requires p >= 2 && q >= 2
    ensures l > 0 && Divides(p - 1, l) && Divides(q - 1, l) && Divides(l, (p - 1) * (q - 1))
  {
    LambdaIsCommonMultiple(p - 1, q - 1);
    ((p - 1) * (q - 1)) / Gcd(p - 1, q - 1)
  }

  /** One attempt of key generation from two drawn primes; None means the
      attempt is discarded. */
  function KeyFromPrimes(p: nat, q: nat): (kp: Option<Keypair>)
    requires p >= 2 && q >= 2
  {
    if p == q then None else
    var n := p * q;
    assert n > 0 && n * n > 0;
    var lambda := Lambda(p, q);
    var g := n + 1;
    if ModPow(g, lambda, n * n) < 1 then None else
    match ModInv(lambda, n)
    case None => None
    case Some(mu) => Some(Keypair(PublicKey(n, n * n, g), PrivateKey(lambda, mu)))
  }

  /** What a generated key guarantees. */
  ghost predicate KeyOf(kp: Keypair, p: nat, q: nat)
  {
    && Prime(p) && Prime(q) && p != q
    && kp.pub.n == p * q && kp.pub.nSquared == kp.pub.n * kp.pub.n && kp.pub.g == kp.pub.n + 1
    && kp.pub.n > 1 && kp.pub.nSquared > 0
    && kp.priv.lambda > 0 && Divides(p - 1, kp.priv.lambda) && Divides(q - 1, kp.priv.lambda)
    && kp.priv.mu < kp.pub.n && Cong(kp.priv.lambda * kp.priv.mu, 1, kp.pub.n)
  }

  lemma LambdaIsCommonMultiple(a: nat, b: nat)
    requires a > 0 && b > 0
    ensures var l := (a * b) / Gcd(a, b);
            l > 0 && Divides(a, l) && Divides(b, l) && Divides(l, a * b)
  {
    var g := Gcd(a, b);
    var j := DividesElim(g, a);
    var k := DividesElim(g, b);
    assert a * b == g * (a * k) by { assert a * (g * k) == g * (a * k); }
    ModUnique(a * b, g, a * k, 0);
    assert k <= 0 ==> g * k <= 0;
    assert a * k > 0;
    DividesIntro(a, a * k, k);
    assert a * b == g * (b * j) by { assert (g * j) * b == g * (b * j); }
    ModUnique(a * b, g, b * j, 0);
    DividesIntro(b, b * j, j);
    DividesIntro(a * k, a * b, g);
  }

  /** A number above one dividing p*q is a multiple of p or equals q. */
  lemma FactorOfProduct(p: nat, q: nat, g: nat)
    requires Prime(p) && Prime(q) && g > 1 && Divides(g, p * q) && !Divides(p, g)
    ensures g == q
  {
    hide Divides;
    var k := DividesElim(g, p * q);
    DividesIntro(p, g * k, q);
    EuclidLemma(p, g, k);
    var j := DividesElim(p, k);
    assert p * q == p * (g * j) by { assert g * (p * j) == p * (g * j); }
    assert q == g * j;
    DividesIntro(g, q, j);
    DividesLe(g, q);
  }

  /** Coprimality to p*q is tested at the two primes. */
  lemma SharesPrimeFactor(p: nat, q: nat, x: nat)
    requires Prime(p) && Prime(q)
    ensures p * q > 0
    ensures Coprime(x, p * q) <==> !Divides(p, x) && !Divides(q, x)
  {
    hide Divides;
    DividesIntro(p, p * q, q);
    assert p * q == q * p;
    DividesIntro(q, p * q, p);
    var g := Gcd(x, p * q);
    GcdOneIffCoprime(x, p * q);
    if g > 1 {
      if Divides(p, g) {
        DividesTrans(p, g, x);
      } else {
        FactorOfProduct(p, q, g);
      }
    }
  }

  lemma PrimeDividesLambda(p: nat, q: nat, lambda: nat)
    requires Prime(p) && q > 1 && Divides(q - 1, lambda)
    requires lambda > 0 && Divides(lambda, (p - 1) * (q - 1))
    ensures Divides(p, lambda) <==> Divides(p, q - 1)
  {
    if Divides(p, q - 1) { DividesTrans(p, q - 1, lambda); }
    if Divides(p, lambda) {
      DividesTrans(p, lambda, (p - 1) * (q - 1));
      if Divides(p, p - 1) { DividesLe(p, p - 1); }
      EuclidLemma(p, p - 1, q - 1);
    }
  }

  /** Raising g to lambda modulo n squared never underflows. */
  lemma GeneratorPower(n: nat, lambda: nat)
    requires n > 1
    ensures n * n > 0 && ModPow(n + 1, lambda, n * n) >= 1
  {
    BinomialMod(n, 1, lambda);
    assert 1 + n * 1 == n + 1;
    var k := CongElim(Pow(n + 1, lambda), 1 + n * lambda, n * n);
    if ModPow(n + 1, lambda, n * n) == 0 {
      var j := DividesElim(n * n, Pow(n + 1, lambda));
      assert 1 == n * (n * (j - k) - lambda) by {
        assert (n * n) * j - (n * n) * k == n * (n * (j - k));
      }
      DividesIntro(n, 1, n * (j - k) - lambda);
      DividesLe(n, 1);
    }
  }

  /** The pairs key generation accepts. */
  ghost predicate Acceptable(p: nat, q: nat)
  {
    p > 1 && q > 1 && p != q && !Divides(p, q - 1) && !Divides(q, p - 1)
  }

  lemma LambdaInvertible(p: nat, q: nat)
    requires Prime(p) && Prime(q) && p != q
    ensures Coprime(Lambda(p, q), p * q) <==> Acceptable(p, q)
  {
    hide Divides, Lambda;
    var lambda := Lambda(p, q);
    PrimeDividesLambda(p, q, lambda);
    assert (p - 1) * (q - 1) == (q - 1) * (p - 1);
    PrimeDividesLambda(q, p, lambda);
    SharesPrimeFactor(p, q, lambda);
  }

  /** Two primes yield a key exactly when they differ and neither divides the
      other minus one; the key then has the properties decryption rests on. */
  lemma KeyGeneration(p: nat, q: nat)
    requires Prime(p) && Prime(q)
    ensures KeyFromPrimes(p, q).Some? <==> Acceptable(p, q)
    ensures KeyFromPrimes(p, q).Some? ==> KeyOf(KeyFromPrimes(p, q).value, p, q)
  {
    hide Divides, Cong, Pow, Lambda, ModPow, ModInv, Coprime;
    if p != q {
      ProductGrows(p, q);
      LambdaInvertible(p, q);
      GeneratorPower(p * q, Lambda(p, q));
    }
  }

  /** Key pairs exist: 5 and 7 make one. */
  lemma KeysExist()
    ensures KeyFromPrimes(5, 7).Some? && KeyOf(KeyFromPrimes(5, 7).value, 5, 7)
  {
    hide KeyFromPrimes, KeyOf, Prime;
    FiveIsPrime();
    SevenIsPrime();
    KeyGeneration(5, 7);
  }

  /** The retry loop: it returns the key of the first acceptable pair drawn. */
  method GenerateKeypair(draws: seq<(nat, nat)>) returns (kp: Option<Keypair>, used: nat)
    requires forall i :: 0 <= i < |draws| ==> Prime(draws[i].0) && Prime(draws[i].1)
    ensures used <= |draws|
    ensures forall i :: 0 <= i < used ==> !Acceptable(draws[i].0, draws[i].1)
    ensures kp.Some? ==>
      && used < |draws| && Acceptable(draws[used].0, draws[used].1)
      && kp == KeyFromPrimes(draws[used].0, draws[used].1)
      && KeyOf(kp.value, draws[used].0, draws[used].1)
    ensures kp.None? ==> used == |draws|
  {
    kp, used := None, 0;
    while used < |draws|
      invariant used <= |draws|
      invariant forall i :: 0 <= i < used ==> !Acceptable(draws[i].0, draws[i].1)
      invariant kp.None?
    {
      var (p, q) := draws[used];
      KeyGeneration(p, q);
      kp := KeyFromPrimes(p, q);
      if kp.Some? {
        return;
      }
      used := used + 1;
    }
  }

  // ---------- encryption ----------

  function Encrypt(pub: PublicKey, message: nat, randomness: nat): (r: Result<nat, PaillierError>)
    requires pub.nSquared > 0
  {
    if message >= pub.n then Err(Encryption) else
    var gm := ModPow(pub.g, message, pub.nSquared);
    var rn := ModPow(randomness, pub.n, pub.nSquared);
    Ok((gm * rn) % pub.nSquared)
  }

  function Decrypt(priv: PrivateKey, pub: PublicKey, ciphertext: nat): (r: Result<nat, PaillierError>)
    requires pub.nSquared > 0 && pub.n > 0
  {
    var c := ModPow(ciphertext, priv.lambda, pub.nSquared);
    if c < 1 then Err(Decryption) else
    var l := (c - 1) / pub.n;
    Ok((l * priv.mu) % pub.n)
  }

  function Add(pub: PublicKey, ca: nat, cb: nat): (c: nat)
    requires pub.nSquared > 0
  {
    (ca * cb) % pub.nSquared
  }

  function ScalarMul(pub: PublicKey, c: nat, k: nat): (r: nat)
    requires pub.nSquared > 0
  {
    ModPow(c, k, pub.nSquared)
  }

  // ---------- why decryption works ----------

  /** (1 + nt)^k is 1 + ntk modulo n squared: the binomial expansion stops. */
  lemma {:induction false} BinomialMod(n: nat, t: int, k: nat)
    requires n > 0
    ensures n * n > 0 && Cong(Pow(1 + n * t, k), 1 + n * (t * k), n * n)
  {
    if k == 0 {
      assert t * k == 0;
      assert n * 0 == 0;
    } else {
      BinomialMod(n, t, k - 1);
      var b := 1 + n * t;
      CongMul(b, b, Pow(b, k - 1), 1 + n * (t * (k - 1)), n * n);
      BinomialStep(n, t, k);
      CongIntro(b * (1 + n * (t * (k - 1))), 1 + n * (t * k), n * n, t * (t * (k - 1)));
    }
  }

  lemma BinomialStep(n: int, t: int, k: int)
    ensures (1 + n * t) * (1 + n * (t * (k - 1))) == 1 + n * (t * k) + (n * n) * (t * (t * (k - 1)))
  {
    var u := t * (k - 1);
    assert t * k == t + u;
    assert n * (t * k) == n * t + n * u;
    assert (n * t) * (n * u) == (n * n) * (t * u);
    assert (1 + n * t) * (1 + n * u) == 1 + n * t + n * u + (n * t) * (n * u);
  }

  /** Every unit modulo n has lambda as an exponent (Fermat in both primes). */
  lemma UnitPower(p: nat, q: nat, lambda: nat, r: nat)
    requires Prime(p) && Prime(q) && p != q
    requires Divides(p - 1, lambda) && Divides(q - 1, lambda)
    requires !Divides(p, r) && !Divides(q, r)
    ensures p * q > 0 && Cong(Pow(r, lambda), 1, p * q)
  {
    FermatMultiple(p, r, lambda);
    FermatMultiple(q, r, lambda);
    CongIffDivides(Pow(r, lambda), 1, p);
    CongIffDivides(Pow(r, lambda), 1, q);
    DistinctPrimesDivide(p, q, Pow(r, lambda) - 1);
    CongIffDivides(Pow(r, lambda), 1, p * q);
  }

  /** The blinding factor r^n disappears once raised to lambda. */
  lemma BlindingVanishes(n: nat, lambda: nat, r: nat)
    requires n > 0 && Cong(Pow(r, lambda), 1, n)
    ensures n * n > 0 && Cong(Pow(Pow(r, n), lambda), 1, n * n)
  {
    hide Cong, Pow;
    PowSwap(r, n, lambda);
    var t := CongElim(Pow(r, lambda), 1, n);
    BinomialMod(n, t, n);
    assert n * (t * n) == (n * n) * t;
    CongIntro(1 + n * (t * n), 1, n * n, t);
    CongTrans(Pow(1 + n * t, n), 1 + n * (t * n), 1, n * n);
  }

  /** c opens to m: its lambda-th power is 1 + m*lambda*n. */
  ghost predicate OpensTo(kp: Keypair, c: nat, m: int)
    requires kp.pub.nSquared > 0
  {
    Cong(Pow(c, kp.priv.lambda), 1 + kp.pub.n * (m * kp.priv.lambda), kp.pub.nSquared)
  }

  lemma EncryptOpens(kp: Keypair, p: nat, q: nat, m: nat, r: nat)
    requires KeyOf(kp, p, q) && m < kp.pub.n && Coprime(r, kp.pub.n)
    ensures Encrypt(kp.pub, m, r).Ok? && OpensTo(kp, Encrypt(kp.pub, m, r).value, m)
  {
    var n, N, l := kp.pub.n, kp.pub.nSquared, kp.priv.lambda;
    hide Cong, Pow, Prime, Divides;
    SharesPrimeFactor(p, q, r);
    UnitPower(p, q, l, r);
    BlindingVanishes(n, l, r);
    PowNat(n + 1, m);
    PowNat(r, n);
    var a, b := Pow(n + 1, m), Pow(r, n);
    var c := Encrypt(kp.pub, m, r).value;
    ModProduct(a, b, N);
    ModCong(a * b, N);
    CongPow(c, a * b, l, N);
    PowMulBase(a, b, l);
    PowPow(n + 1, m, l);
    BinomialMod(n, 1, m * l);
    assert 1 + n * 1 == n + 1;
    assert 1 * (m * l) == m * l;
    CongMul(Pow(a, l), 1 + n * (m * l), Pow(b, l), 1, N);
    CongTrans(Pow(c, l), Pow(a, l) * Pow(b, l), 1 + n * (m * l), N);
  }

  lemma OpeningProduct(n: int, x: int, y: int)
    requires n > 0
    ensures n * n > 0 && Cong((1 + n * x) * (1 + n * y), 1 + n * (x + y), n * n)
  {
    hide Cong;
    assert (n * x) * (n * y) == (n * n) * (x * y) by { Regroup(n, x, n, y); }
    assert (1 + n * x) * (1 + n * y) == 1 + n * (x + y) + (n * n) * (x * y);
    CongIntro((1 + n * x) * (1 + n * y), 1 + n * (x + y), n * n, x * y);
  }

  lemma AddOpens(kp: Keypair, ca: nat, cb: nat, a: int, b: int)
    requires kp.pub.n > 0 && kp.pub.nSquared == kp.pub.n * kp.pub.n && kp.pub.nSquared > 0
    requires OpensTo(kp, ca, a) && OpensTo(kp, cb, b)
    ensures OpensTo(kp, Add(kp.pub, ca, cb), a + b)
  {
    var n, N, l := kp.pub.n, kp.pub.nSquared, kp.priv.lambda;
    hide Cong, Pow;
    var c := Add(kp.pub, ca, cb);
    ModCong(ca * cb, N);
    CongPow(c, ca * cb, l, N);
    PowMulBase(ca, cb, l);
    var x, y := a * l, b * l;
    CongMul(Pow(ca, l), 1 + n * x, Pow(cb, l), 1 + n * y, N);
    OpeningProduct(n, x, y);
    CongTrans(Pow(c, l), Pow(ca, l) * Pow(cb, l), (1 + n * x) * (1 + n * y), N);
    CongTrans(Pow(c, l), (1 + n * x) * (1 + n * y), 1 + n * (x + y), N);
    assert (a + b) * l == x + y;
  }

  lemma ScaleOpens(kp: Keypair, c: nat, m: int, k: nat)
    requires kp.pub.n > 0 && kp.pub.nSquared == kp.pub.n * kp.pub.n && kp.pub.nSquared > 0
    requires OpensTo(kp, c, m)
    ensures OpensTo(kp, ScalarMul(kp.pub, c, k), m * k)
  {
    var n, N, l := kp.pub.n, kp.pub.nSquared, kp.priv.lambda;
    hide Cong, Pow;
    PowNat(c, k);
    var d := ScalarMul(kp.pub, c, k);
    ModCong(Pow(c, k), N);
    CongPow(d, Pow(c, k), l, N);
    PowSwap(c, k, l);
    CongPow(Pow(c, l), 1 + n * (m * l), k, N);
    BinomialMod(n, m * l, k);
    CongTrans(Pow(d, l), Pow(Pow(c, l), k), Pow(1 + n * (m * l), k), N);
    CongTrans(Pow(d, l), Pow(1 + n * (m * l), k), 1 + n * ((m * l) * k), N);
    assert (m * l) * k == (m * k) * l;
  }

  lemma Rescale(n: int, j: int, x: int)
    ensures n * (n * j + x) == (n * n) * j + n * x
  {
    assert n * (n * j + x) == n * (n * j) + n * x;
    Rebracket(n, j);
  }

  lemma Rebracket(n: int, j: int)
    ensures n * (n * j) == (n * n) * j
  {
  }

  lemma ResidueBound(n: int, x: int)
    requires n > 1 && 0 <= x < n
    ensures 0 <= 1 + n * x < n * n
  {
    assert n * n == n * x + n * (n - x);
    ProductAtLeast(n, n - x);
    ProductAtLeast(n, x);
  }

  lemma ProductAtLeast(n: int, k: int)
    requires n > 0 && k >= 0
    ensures n * k >= 0 && (k > 0 ==> n * k >= n)
  {
    if k > 0 { assert n * k == n + n * (k - 1); }
  }

  lemma ReducedOpening(n: nat, e: int)
    requires n > 1
    ensures n * n > 0 && (1 + n * e) % (n * n) == 1 + n * (e % n)
  {
    var j, x := DivMod(e, n);
    Rescale(n, j, x);
    ResidueBound(n, x);
    ModUnique(1 + n * e, n * n, j, 1 + n * x);
  }

  lemma InverseCancels(n: nat, m: int, l: int, mu: int)
    requires n > 0 && Cong(l * mu, 1, n)
    ensures (((m * l) % n) * mu) % n == m % n
  {
    ModCong(m * l, n);
    CongMul((m * l) % n, m * l, mu, mu, n);
    assert (m * l) * mu == m * (l * mu);
    CongMul(m, m, l * mu, 1, n);
  }

  /** Decryption returns exactly what a ciphertext opens to, modulo n. */
  lemma DecryptOpens(kp: Keypair, p: nat, q: nat, c: nat, m: int)
    requires KeyOf(kp, p, q) && OpensTo(kp, c, m)
    ensures Decrypt(kp.priv, kp.pub, c) == Ok(m % kp.pub.n)
  {
    hide Pow, Prime, Divides;
    var n, l := kp.pub.n, kp.priv.lambda;
    PowNat(c, l);
    ReducedOpening(n, m * l);
    var x := (m * l) % n;
    ModUnique(n * x, n, x, 0);
    InverseCancels(n, m, l, kp.priv.mu);
  }

  // ---------- round trip ----------

  function RoundTrip(kp: Keypair, m: nat, r: nat): (res: Result<nat, PaillierError>)
    requires kp.pub.nSquared > 0 && kp.pub.n > 0
  {
    match Encrypt(kp.pub, m, r)
    case Ok(c) => Decrypt(kp.priv, kp.pub, c)
    case Err(e) => Err(e)
  }

  lemma RoundTripOfUnit(kp: Keypair, p: nat, q: nat, m: nat, r: nat)
    requires KeyOf(kp, p, q) && m < kp.pub.n && Coprime(r, kp.pub.n)
    ensures RoundTrip(kp, m, r) == Ok(m)
  {
    EncryptOpens(kp, p, q, m, r);
    DecryptOpens(kp, p, q, Encrypt(kp.pub, m, r).value, m);
    ModUnique(m, kp.pub.n, 0, m);
  }

  lemma EncryptValue(pub: PublicKey, m: nat, r: nat)
    requires pub.nSquared > 0 && m < pub.n
    ensures Encrypt(pub, m, r) == Ok((Pow(pub.g, m) * Pow(r, pub.n)) % pub.nSquared)
  {
    hide Pow;
    PowNat(pub.g, m);
    PowNat(r, pub.n);
    ModProduct(Pow(pub.g, m), Pow(r, pub.n), pub.nSquared);
  }

  lemma BlindedProduct(n: nat, p: nat, q: nat, b: int)
    requires n == p * q > 0 && p > 0 && Divides(p, b)
    ensures n * n > 0 && Cong((1 + n * q) * b, b, n * n)
  {
    hide Cong, Divides;
    var v := DividesElim(p, b);
    assert (n * q) * (p * v) == (n * n) * v by { Regroup(n, q, p, v); Regroup(n, p, q, v); }
    CongIntro((1 + n * q) * b, b, n * n, v);
  }

  lemma DividesPow(p: nat, r: nat, e: nat)
    requires p > 0 && e > 0 && Divides(p, r)
    ensures Divides(p, Pow(r, e))
  {
    hide Divides;
    var w := DividesElim(p, r);
    assert (p * w) * Pow(r, e - 1) == p * (w * Pow(r, e - 1));
    DividesIntro(p, Pow(r, e), w * Pow(r, e - 1));
  }

  lemma ProductGrows(p: nat, q: nat)
    requires p > 1 && q > 0
    ensures q < p * q
  {
    assert p * q == q + (p - 1) * q;
  }

  /** With a blinding factor divisible by p, the messages 0 and q have the same
      ciphertext. */
  lemma EncryptCollision(pub: PublicKey, p: nat, q: nat, r: nat)
    requires p > 1 && q > 0 && pub.n == p * q && pub.nSquared == pub.n * pub.n && pub.nSquared > 0
    requires pub.g == pub.n + 1 && Divides(p, r)
    ensures q < pub.n && Encrypt(pub, 0, r) == Encrypt(pub, q, r)
  {
    var n, N := pub.n, pub.nSquared;
    ProductGrows(p, q);
    assert Pow(n + 1, 0) == 1;
    hide Cong, Divides, Pow, Encrypt;
    EncryptValue(pub, 0, r);
    EncryptValue(pub, q, r);
    var a, b := Pow(n + 1, q), Pow(r, n);
    BinomialMod(n, 1, q);
    assert 1 + n * 1 == n + 1 && n * (1 * q) == n * q;
    CongRefl(b, N);
    CongMul(a, 1 + n * q, b, b, N);
    DividesPow(p, r, n);
    BlindedProduct(n, p, q, b);
    CongTrans(a * b, (1 + n * q) * b, b, N);
    CongToMod(a * b, b, N);
  }

  /** For a generated key, a random value decrypts every message correctly if
      and only if it is coprime to n. */
  lemma RoundTripExactly(kp: Keypair, p: nat, q: nat, r: nat)
    requires KeyOf(kp, p, q)
    ensures (forall m: nat :: m < kp.pub.n ==> RoundTrip(kp, m, r) == Ok(m)) <==> Coprime(r, kp.pub.n)
  {
    if Coprime(r, kp.pub.n) {
      forall m: nat | m < kp.pub.n
        ensures RoundTrip(kp, m, r) == Ok(m)
      {
        RoundTripOfUnit(kp, p, q, m, r);
      }
    } else {
      SharesPrimeFactor(p, q, r);
      assert p * q == q * p;
      if Divides(p, r) {
        EncryptCollision(kp.pub, p, q, r);
        assert RoundTrip(kp, 0, r) == RoundTrip(kp, q, r);
      } else {
        EncryptCollision(kp.pub, q, p, r);
        assert RoundTrip(kp, 0, r) == RoundTrip(kp, p, r);
      }
    }
  }

  /** Exactly the numbers from n on are refused, and exactly the others come back. */
  lemma MessageExactly(kp: Keypair, p: nat, q: nat, m: nat, r: nat)
    requires KeyOf(kp, p, q) && Coprime(r, kp.pub.n)
    ensures RoundTrip(kp, m, r) == Ok(m) <==> m < kp.pub.n
    ensures Encrypt(kp.pub, m, r) == Err(Encryption) <==> m >= kp.pub.n
  {
    hide KeyOf, Coprime, Decrypt, ModPow;
    if m < kp.pub.n { RoundTripOfUnit(kp, p, q, m, r); }
  }

  // ---------- when decryption fails ----------

  lemma {:induction false} PrimeDividesBase(p: nat, c: nat, e: nat)
    requires Prime(p) && Divides(p, Pow(c, e))
    ensures Divides(p, c)
  {
    hide Divides, Prime;
    PrimeAboveOne(p);
    if e == 0 {
      DividesLe(p, 1);
    } else if !Divides(p, c) {
      EuclidLemma(p, c, Pow(c, e - 1));
      PrimeDividesBase(p, c, e - 1);
    }
  }

  lemma PrimeAboveOne(p: nat)
    requires Prime(p)
    ensures p > 1
  {
  }

  lemma ProductOfDividing(n: nat, c: nat, e: nat)
    requires n > 0 && e >= 2 && Divides(n, c)
    ensures n * n > 0 && Divides(n * n, Pow(c, e))
  {
    hide Divides;
    var w := DividesElim(n, c);
    var x := Pow(c, e - 2);
    assert Pow(c, e) == c * (c * x);
    assert (n * w) * ((n * w) * x) == (n * n) * (w * (w * x)) by { FourFactors(n, w, x); }
    DividesIntro(n * n, Pow(c, e), w * (w * x));
  }

  lemma FourFactors(n: int, w: int, x: int)
    ensures (n * w) * ((n * w) * x) == (n * n) * (w * (w * x))
  {
    assert (n * w) * x == n * (w * x);
    Regroup(n, w, n, w * x);
  }

  lemma LambdaAboveOne(kp: Keypair, p: nat, q: nat)
    requires KeyOf(kp, p, q)
    ensures kp.priv.lambda >= 2
  {
    hide Divides, Cong;
    if p > 2 { DividesLe(p - 1, kp.priv.lambda); } else { DividesLe(q - 1, kp.priv.lambda); }
  }

  /** Decryption fails on exactly the multiples of n. */
  lemma DecryptFailsExactly(kp: Keypair, p: nat, q: nat, c: nat)
    requires KeyOf(kp, p, q)
    ensures Decrypt(kp.priv, kp.pub, c) == Err(Decryption) <==> Divides(kp.pub.n, c)
  {
    LambdaAboveOne(kp, p, q);
    var (n, l) := (kp.pub.n, kp.priv.lambda);
    PowNat(c, l);
    hide Pow, Prime, Cong;
    if Divides(n, c) {
      ProductOfDividing(n, c, l);
    }
    if Pow(c, l) % (n * n) == 0 {
      FactorsDivide(p, q, Pow(c, l));
      PrimeDividesBase(p, c, l);
      PrimeDividesBase(q, c, l);
      DistinctPrimesDivide(p, q, c);
    }
  }

  lemma FactorsDivide(p: nat, q: nat, x: int)
    requires p > 0 && q > 0 && (p * q) * (p * q) > 0 && Divides((p * q) * (p * q), x)
    ensures Divides(p, x) && Divides(q, x)
  {
    hide Divides;
    var k := DividesElim((p * q) * (p * q), x);
    assert ((p * q) * (p * q)) * k == p * (q * ((p * q) * k)) by { Unnest(p, q, (p * q) * k); }
    assert ((p * q) * (p * q)) * k == q * (p * ((p * q) * k)) by { Unnest(q, p, (p * q) * k); }
    DividesIntro(p, x, q * ((p * q) * k));
    DividesIntro(q, x, p * ((p * q) * k));
  }

  lemma Unnest(p: int, q: int, z: int)
    ensures (p * q) * z == p * (q * z)
  {
  }

  // ---------- homomorphism ----------

  /** A computation on ciphertexts. */
  datatype Expr =
    | Fresh(message: nat, randomness: nat)
    | Sum(left: Expr, right: Expr)
    | Scaled(arg: Expr, factor: nat)

  ghost predicate WellFormed(e: Expr, n: nat)
  {
    match e
    case Fresh(m, r) => m < n && Coprime(r, n)
    case Sum(l, r) => WellFormed(l, n) && WellFormed(r, n)
    case Scaled(a, _) => WellFormed(a, n)
  }

  /** The expression carried out on ciphertexts. */
  function CipherValue(pub: PublicKey, e: Expr): (r: Result<nat, PaillierError>)
    requires pub.nSquared > 0
  {
    match e
    case Fresh(m, r) => Encrypt(pub, m, r)
    case Sum(a, b) =>
      var ca := CipherValue(pub, a);
      var cb := CipherValue(pub, b);
      if ca.Err? then ca else if cb.Err? then cb else Ok(Add(pub, ca.value, cb.value))
    case Scaled(a, k) =>
      var ca := CipherValue(pub, a);
      if ca.Err? then ca else Ok(ScalarMul(pub, ca.value, k))
  }

  /** The same expression on the plaintexts, over the integers. */
  function PlainValue(e: Expr): (v: nat)
  {
    match e
    case Fresh(m, _) => m
    case Sum(a, b) => PlainValue(a) + PlainValue(b)
    case Scaled(a, k) => PlainValue(a) * k
  }

  lemma {:induction false} CipherOpens(kp: Keypair, p: nat, q: nat, e: Expr)
    requires KeyOf(kp, p, q) && WellFormed(e, kp.pub.n)
    ensures CipherValue(kp.pub, e).Ok? && OpensTo(kp, CipherValue(kp.pub, e).value, PlainValue(e))
    decreases e
  {
    match e
    case Fresh(m, r) =>
      EncryptOpens(kp, p, q, m, r);
    case Sum(a, b) =>
      CipherOpens(kp, p, q, a);
      CipherOpens(kp, p, q, b);
      AddOpens(kp, CipherValue(kp.pub, a).value, CipherValue(kp.pub, b).value, PlainValue(a), PlainValue(b));
    case Scaled(a, k) =>
      CipherOpens(kp, p, q, a);
      ScaleOpens(kp, CipherValue(kp.pub, a).value, PlainValue(a), k);
  }

  /** Decrypting any combination of ciphertexts gives the same combination of
      the plaintexts modulo n. */
  lemma Homomorphism(kp: Keypair, p: nat, q: nat, e: Expr)
    requires KeyOf(kp, p, q) && WellFormed(e, kp.pub.n)
    ensures CipherValue(kp.pub, e).Ok?
    ensures Decrypt(kp.priv, kp.pub, CipherValue(kp.pub, e).value) == Ok(PlainValue(e) % kp.pub.n)
  {
    CipherOpens(kp, p, q, e);
    DecryptOpens(kp, p, q, CipherValue(kp.pub, e).value, PlainValue(e));
  }
}
