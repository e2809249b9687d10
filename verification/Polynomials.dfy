/**
 Polynomials over the scalar field Z_q, q prime: the two evaluation loops and
 interpolation at zero. Values are compared modulo q.
 */
module Polynomials {
  import opened NumberTheory

  /** The value over the integers of the polynomial with coefficients c. */
  function Eval(c: seq<int>, x: int): (v: int)
  {
    if c == [] then 0 else c[0] + x * Eval(c[1..], x)
  }

  lemma EvalAtZero(c: seq<int>)
    requires c != []
    ensures Eval(c, 0) == c[0]
  {
  }

  // ---------- evaluation loops ----------

  lemma PowerStep(q: nat, r: int, w: int, c: int, x: int, e: int, goal: int)
    requires q > 0 && Cong(r + w * (c + x * e), goal, q)
    ensures Cong((r + c * w) % q + ((w * x) % q) * e, goal, q)
  {
    hide Cong;
    ModCong(r + c * w, q);
    ModCong(w * x, q);
    CongRefl(e, q);
    CongMul((w * x) % q, w * x, e, e, q);
    CongAdd((r + c * w) % q, r + c * w, ((w * x) % q) * e, (w * x) * e, q);
    assert r + c * w + (w * x) * e == r + w * (c + x * e) by {
      assert w * (c + x * e) == w * c + w * (x * e);
      assert (w * x) * e == w * (x * e);
    }
    CongTrans((r + c * w) % q + ((w * x) % q) * e, r + c * w + (w * x) * e, goal, q);
  }

  /** Accumulating c_i * x^i from the constant term up. */
  method EvalByPowers(q: nat, coeffs: seq<int>, x: nat) returns (result: nat)
    requires q > 0
    ensures result == Eval(coeffs, x) % q
  {
    result := 0;
    var xPow := 1 % q;
    ModCong(1, q);
    CongMul(xPow, 1, Eval(coeffs, x), Eval(coeffs, x), q);
    assert coeffs[0..] == coeffs;
    var i := 0;
    hide Cong;
    while i < |coeffs|
      invariant 0 <= i <= |coeffs| && 0 <= result < q && 0 <= xPow
      invariant Cong(result + xPow * Eval(coeffs[i..], x), Eval(coeffs, x), q)
    {
      assert coeffs[i..][1..] == coeffs[i + 1..];
      PowerStep(q, result, xPow, coeffs[i], x, Eval(coeffs[i + 1..], x), Eval(coeffs, x));
      result := (result + coeffs[i] * xPow) % q;
      xPow := (xPow * x) % q;
      i := i + 1;
    }
    assert xPow * Eval(coeffs[i..], x) == 0;
    CongToMod(result, Eval(coeffs, x), q);
    ModUnique(result, q, 0, result);
  }

  lemma HornerStep(q: nat, r: int, x: int, c: int, e: int)
    requires q > 0 && Cong(r, e, q)
    ensures Cong(((r * x) % q + c) % q, c + x * e, q)
  {
    hide Cong;
    ModCong((r * x) % q + c, q);
    ModCong(r * x, q);
    CongRefl(x, q);
    CongRefl(c, q);
    CongMul(r, e, x, x, q);
    CongTrans((r * x) % q, r * x, e * x, q);
    CongAdd((r * x) % q, e * x, c, c, q);
    assert e * x + c == c + x * e;
    CongTrans(((r * x) % q + c) % q, (r * x) % q + c, c + x * e, q);
  }

  /** Horner's method, from the leading coefficient down. */
  method EvalByHorner(q: nat, coeffs: seq<int>, x: nat) returns (result: nat)
    requires q > 0
    ensures result == Eval(coeffs, x) % q
  {
    result := 0;
    var i := |coeffs|;
    while i > 0
      invariant 0 <= i <= |coeffs| && 0 <= result < q
      invariant Cong(result, Eval(coeffs[i..], x), q)
    {
      hide Cong;
      i := i - 1;
      assert coeffs[i..][1..] == coeffs[i + 1..];
      HornerStep(q, result, x, coeffs[i], Eval(coeffs[i + 1..], x));
      result := ((result * x) % q + coeffs[i]) % q;
    }
    assert coeffs[0..] == coeffs;
    ModUnique(result, q, 0, result);
  }

  // ---------- sums of polynomials ----------

  function AddPoly(a: seq<int>, b: seq<int>): (c: seq<int>)
    requires |a| == |b|
    ensures |c| == |a|
    ensures forall i :: 0 <= i < |c| ==> c[i] == a[i] + b[i]
  {
    seq(|a|, i requires 0 <= i < |a| => a[i] + b[i])
  }

  lemma {:induction false} EvalAdd(a: seq<int>, b: seq<int>, x: int)
    requires |a| == |b|
    ensures Eval(AddPoly(a, b), x) == Eval(a, x) + Eval(b, x)
    decreases |a|
  {
    if a != [] {
      assert AddPoly(a, b)[1..] == AddPoly(a[1..], b[1..]);
      EvalAdd(a[1..], b[1..], x);
      assert x * (Eval(a[1..], x) + Eval(b[1..], x)) == x * Eval(a[1..], x) + x * Eval(b[1..], x);
    }
  }
}
