/**
 Shamir sharing over Z_q: splitting by polynomial evaluation and recovery by
 Lagrange interpolation at zero. Random coefficients are arguments.
 */
module Shamir {
  import opened Common
  import opened NumberTheory
  import opened Polynomials
  import opened Lagrange
  import opened Interpolation

  datatype Share = Share(x: nat, y: nat)

  datatype ShamirError = InsufficientShares | DuplicateX

  function Coordinates(shares: seq<Share>): (xs: seq<int>)
    ensures |xs| == |shares|
    ensures forall i :: 0 <= i < |xs| ==> xs[i] == shares[i].x
  {
    seq(|shares|, i requires 0 <= i < |shares| => shares[i].x)
  }

  ghost predicate DistinctX(shares: seq<Share>)
  {
    forall i, j :: 0 <= i < j < |shares| ==> shares[i].x != shares[j].x
  }

  /** Sum of the share values times the Lagrange weights of their coordinates. */
  function ShareSum(q: nat, xs: seq<int>, shares: seq<Share>): (r: int)
    requires q > 0
  {
    if shares == [] then 0 else
    ShareSum(q, xs, shares[..|shares| - 1]) + shares[|shares| - 1].y * Weight(q, xs, shares[|shares| - 1].x)
  }

  ghost function Recovered(q: nat, shares: seq<Share>): (r: Result<nat, ShamirError>)
    requires q > 0
  {
    if shares == [] then Err(InsufficientShares)
    else if !DistinctX(shares) then Err(DuplicateX)
    else Ok(ShareSum(q, Coordinates(shares), shares) % q)
  }

  // ---------- the loops ----------

  method HasDuplicate(shares: seq<Share>) returns (dup: bool)
    ensures dup <==> !DistinctX(shares)
  {
    var seen: set<nat> := {};
    var i := 0;
    while i < |shares|
      invariant 0 <= i <= |shares|
      invariant forall x :: x in seen <==> exists j :: 0 <= j < i && shares[j].x == x
      invariant forall j, k :: 0 <= j < k < i ==> shares[j].x != shares[k].x
    {
      if shares[i].x in seen {
        return true;
      }
      seen := seen + {shares[i].x};
      i := i + 1;
    }
    return false;
  }

  lemma ReducedStep(q: nat, a: int, b: int, f: int)
    requires q > 0 && a == b % q
    ensures (a * (f % q)) % q == (b * f) % q
  {
    ModProduct(b, f, q);
  }

  /** The product loop of one Lagrange coefficient: w - x_j over the other points. */
  method OthersLoop(q: nat, xs: seq<int>, x: int, w: int) returns (r: nat)
    requires q > 0
    ensures r == OthersProduct(xs, x, w) % q
  {
    r := 1 % q;
    var j := 0;
    assert xs[..0] == [];
    while j < |xs|
      invariant 0 <= j <= |xs| && 0 <= r < q
      invariant r == OthersProduct(xs[..j], x, w) % q
    {
      assert xs[..j + 1] == xs[..j] + [xs[j]];
      OthersConcat(xs[..j], [xs[j]], x, w);
      if xs[j] != x {
        OthersOne(xs[j], x, w);
        ReducedStep(q, r, OthersProduct(xs[..j], x, w), w - xs[j]);
        r := (r * ((w - xs[j]) % q)) % q;
      } else {
        OthersNone(x, w);
      }
      j := j + 1;
    }
    assert xs[..|xs|] == xs;
  }

  lemma TermStep(q: nat, sum: int, total: int, y: int, num: int, n: int, inv: int)
    requires q > 0 && sum == total % q && num == n % q
    ensures (sum + (y * ((num * inv) % q)) % q) % q == (total + y * (n * inv)) % q
  {
    hide Cong;
    ModCong(total, q);
    ModCong(n, q);
    CongRefl(inv, q);
    CongRefl(y, q);
    CongMul(num, n, inv, inv, q);
    ModCong(num * inv, q);
    CongTrans((num * inv) % q, num * inv, n * inv, q);
    CongMul(y, y, (num * inv) % q, n * inv, q);
    ModCong(y * ((num * inv) % q), q);
    CongTrans((y * ((num * inv) % q)) % q, y * ((num * inv) % q), y * (n * inv), q);
    CongAdd(sum, total, (y * ((num * inv) % q)) % q, y * (n * inv), q);
    CongToMod(sum + (y * ((num * inv) % q)) % q, total + y * (n * inv), q);
  }

  lemma InvertReduced(q: nat, a: int)
    requires q > 0
    ensures Invert(q, a % q) == Invert(q, a)
  {
    ModUnique(a % q, q, 0, a % q);
  }

  method RecoverSecret(q: nat, shares: seq<Share>) returns (r: Result<nat, ShamirError>)
    requires q > 0
    ensures r == Recovered(q, shares)
  {
    if shares == [] {
      return Err(InsufficientShares);
    }
    var dup := HasDuplicate(shares);
    if dup {
      return Err(DuplicateX);
    }
    hide DistinctX;
    var xs := Coordinates(shares);
    var sum := 0;
    var i := 0;
    ModUnique(0, q, 0, 0);
    assert shares[..0] == [];
    while i < |shares|
      invariant 0 <= i <= |shares| && 0 <= sum < q
      invariant sum == ShareSum(q, xs, shares[..i]) % q
    {
      var s := shares[i];
      var numerator := OthersLoop(q, xs, s.x, 0);
      var denominator := OthersLoop(q, xs, s.x, s.x);
      InvertReduced(q, Denominator(xs, s.x));
      var inv := Invert(q, denominator);
      var coeff := (numerator * inv) % q;
      var term := (s.y * coeff) % q;
      TermStep(q, sum, ShareSum(q, xs, shares[..i]), s.y, numerator, Numerator(xs, s.x), inv);
      assert shares[..i + 1][..i] == shares[..i];
      assert shares[..i + 1][i] == s;
      sum := (sum + term) % q;
      i := i + 1;
    }
    assert shares[..|shares|] == shares;
    return Ok(sum);
  }

  // ---------- recovery ----------

  /** The shares lie on the polynomial c. */
  ghost predicate OnPolynomial(q: nat, c: seq<int>, shares: seq<Share>)
    requires q > 0
  {
    forall i :: 0 <= i < |shares| ==> shares[i].x < q && shares[i].y == Eval(c, shares[i].x) % q
  }

  lemma {:induction false} ShareSumIsWeighted(q: nat, all: seq<int>, c: seq<int>, shares: seq<Share>)
    requires q > 0 && OnPolynomial(q, c, shares)
    ensures Cong(ShareSum(q, all, shares), Weighted(q, all, Coordinates(shares), c), q)
    decreases |shares|
  {
    hide Weight, Cong;
    if shares == [] {
      CongRefl(0, q);
    } else {
      var n := |shares| - 1;
      var s := shares[n];
      ShareSumIsWeighted(q, all, c, shares[..n]);
      var xs := Coordinates(shares[..n]);
      assert Coordinates(shares) == xs + [s.x];
      WeightedConcat(q, all, xs, [s.x], c);
      assert [s.x][1..] == [];
      assert Weighted(q, all, [s.x], c) == Eval(c, s.x) * Weight(q, all, s.x);
      var w := Weight(q, all, s.x);
      hide Weighted, Eval;
      ModCong(Eval(c, s.x), q);
      CongRefl(w, q);
      CongMul(s.y, Eval(c, s.x), w, w, q);
      CongAdd(ShareSum(q, all, shares[..n]), Weighted(q, all, xs, c), s.y * w, Eval(c, s.x) * w, q);
    }
  }

  /** At least as many shares with distinct coordinates as the polynomial has
      coefficients recover its constant term. */
  lemma SharesRecoverConstant(q: nat, c: seq<int>, shares: seq<Share>)
    requires Prime(q) && OnPolynomial(q, c, shares) && DistinctX(shares)
    requires shares != [] && |c| <= |shares|
    ensures Recovered(q, shares) == Ok(Eval(c, 0) % q)
  {
    var xs := Coordinates(shares);
    ShareSumIsWeighted(q, xs, c, shares);
    assert Points(q, xs);
    InterpolatesConstant(q, xs, c);
    hide ShareSum, Weighted, Eval;
    CongTrans(ShareSum(q, xs, shares), Weighted(q, xs, xs, c), Eval(c, 0), q);
    CongToMod(ShareSum(q, xs, shares), Eval(c, 0), q);
  }

  /** The share of party i is the value at i. */
  method SplitSecret(q: nat, secret: nat, others: seq<nat>, n: nat) returns (shares: seq<Share>)
    requires q > 0 && |others| + 1 <= n
    ensures |shares| == n
    ensures forall i :: 0 <= i < n ==> shares[i] == Share(i + 1, Eval([secret] + others, i + 1) % q)
  {
    var coeffs: seq<int> := [secret] + others;
    shares := [];
    while |shares| < n
      invariant |shares| <= n
      invariant forall i :: 0 <= i < |shares| ==> shares[i] == Share(i + 1, Eval(coeffs, i + 1) % q)
    {
      var y := EvalByHorner(q, coeffs, |shares| + 1);
      shares := shares + [Share(|shares| + 1, y)];
    }
  }

  /** Any selection of at least threshold many of the dealt shares recovers the
      secret. */
  lemma SplitThenRecover(q: nat, secret: nat, others: seq<nat>, shares: seq<Share>, pick: seq<nat>)
    requires Prime(q) && secret < q && |shares| < q
    requires forall i :: 0 <= i < |shares| ==> shares[i] == Share(i + 1, Eval([secret] + others, i + 1) % q)
    requires forall k :: 0 <= k < |pick| ==> pick[k] < |shares|
    requires forall j, k :: 0 <= j < k < |pick| ==> pick[j] != pick[k]
    requires |others| + 1 <= |pick|
    ensures Recovered(q, seq(|pick|, k requires 0 <= k < |pick| => shares[pick[k]])) == Ok(secret)
  {
    var chosen := seq(|pick|, k requires 0 <= k < |pick| => shares[pick[k]]);
    var c: seq<int> := [secret] + others;
    assert OnPolynomial(q, c, chosen) && DistinctX(chosen);
    SharesRecoverConstant(q, c, chosen);
    assert Eval(c, 0) == secret;
    ModUnique(secret, q, 0, secret);
  }

  /** The coefficients, with the secret in front, give the shares. */
  ghost predicate Explains(q: nat, secret: nat, others: seq<nat>, shares: seq<Share>)
    requires q > 0
  {
    && |others| == |shares| && Residues(q, others)
    && OnPolynomial(q, [secret] + others, shares)
  }

  /** One share fewer than the threshold says nothing about the secret: for any such shares
      and any secret exactly one choice of the other coefficients explains them. */
  lemma FewerSharesFitAnySecret(q: nat, secret: nat, shares: seq<Share>)
    requires Prime(q) && secret < q && DistinctX(shares)
    requires forall i :: 0 <= i < |shares| ==> 0 < shares[i].x < q && shares[i].y < q
    ensures exists others :: Explains(q, secret, others, shares)
    ensures forall a, b :: Explains(q, secret, a, shares) && Explains(q, secret, b, shares) ==> a == b
  {
    hide Cong, Eval, Prime, Explains, PassesThrough;
    var (xs, ys) := ([0] + Coordinates(shares), [secret] + Values(shares));
    var c := PolynomialExists(q, xs, ys);
    SecretInFront(q, secret, shares, c);
    forall a, b | Explains(q, secret, a, shares) && Explains(q, secret, b, shares)
      ensures a == b
    {
      ExplainsPasses(q, secret, a, shares);
      ExplainsPasses(q, secret, b, shares);
      SamePoints(q, [secret] + a, [secret] + b, xs, ys);
      PolynomialUnique(q, [secret] + a, [secret] + b, xs);
      assert a == ([secret] + a)[1..] && b == ([secret] + b)[1..];
    }
  }

  function Values(shares: seq<Share>): (ys: seq<int>)
    ensures |ys| == |shares| && forall i :: 0 <= i < |ys| ==> ys[i] == shares[i].y
  {
    seq(|shares|, i requires 0 <= i < |shares| => shares[i].y)
  }

  lemma SamePoints(q: nat, c: seq<int>, d: seq<int>, xs: seq<int>, ys: seq<int>)
    requires q > 0 && |xs| == |ys| && PassesThrough(q, c, xs, ys) && PassesThrough(q, d, xs, ys)
    ensures forall i :: 0 <= i < |xs| ==> Cong(Eval(c, xs[i]), Eval(d, xs[i]), q)
  {
    hide Eval;
  }

  lemma ExplainsPasses(q: nat, secret: nat, others: seq<nat>, shares: seq<Share>)
    requires q > 0 && secret < q && Explains(q, secret, others, shares)
    ensures PassesThrough(q, [secret] + others, [0] + Coordinates(shares), [secret] + Values(shares))
    ensures Residues(q, [secret] + others) && |others| == |shares|
  {
    hide Eval;
    var (c, xs, ys) := ([secret] + others, [0] + Coordinates(shares), [secret] + Values(shares));
    EvalAtZero(c);
    forall i | 0 <= i < |xs|
      ensures Cong(Eval(c, xs[i]), ys[i], q)
    {
      if i > 0 { ModCong(Eval(c, shares[i - 1].x), q); }
    }
  }

  lemma SecretInFront(q: nat, secret: nat, shares: seq<Share>, c: seq<int>)
    requires q > 0 && secret < q && |c| == |shares| + 1 && Residues(q, c)
    requires forall i :: 0 <= i < |shares| ==> 0 < shares[i].x < q && shares[i].y < q
    requires PassesThrough(q, c, [0] + Coordinates(shares), [secret] + Values(shares))
    ensures exists others :: Explains(q, secret, others, shares)
  {
    hide Eval;
    var (xs, ys) := ([0] + Coordinates(shares), [secret] + Values(shares));
    EvalAtZero(c);
    assert Cong(Eval(c, xs[0]), ys[0], q);
    CongSmall(c[0], secret, q);
    var others: seq<nat> := seq(|shares|, i requires 0 <= i < |shares| => c[i + 1]);
    assert c == [secret] + others;
    forall i | 0 <= i < |shares|
      ensures shares[i].y == Eval(c, shares[i].x) % q
    {
      assert Cong(Eval(c, xs[i + 1]), ys[i + 1], q);
      CongToMod(Eval(c, shares[i].x), shares[i].y, q);
      ModUnique(shares[i].y, q, 0, shares[i].y);
    }
    assert Explains(q, secret, others, shares);
  }
}
