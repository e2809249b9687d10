/**
 Through t points with distinct abscissas passes exactly one polynomial of t
 coefficients modulo a prime: division by a linear factor, uniqueness, and
 existence.
 */
module Interpolation {
  import opened NumberTheory
  import opened Polynomials
  import opened Lagrange

  // ---------- division by x - r ----------

  function Quotient(c: seq<int>, r: int): (d: seq<int>)
    ensures |d| == if c == [] then 0 else |c| - 1
  {
    if |c| <= 1 then [] else [Eval(c[1..], r)] + Quotient(c[1..], r)
  }

  lemma {:induction false} Division(c: seq<int>, r: int, x: int)
    ensures Eval(c, x) == (x - r) * Eval(Quotient(c, r), x) + Eval(c, r)
  {
    if |c| == 1 {
      assert c[1..] == [];
      assert Eval([], x) == 0 && Eval([], r) == 0;
    } else if |c| > 1 {
      var rest := c[1..];
      Division(rest, r, x);
      var d := Quotient(c, r);
      assert d[1..] == Quotient(rest, r);
      Remainder(c[0], x, r, Eval(Quotient(rest, r), x), Eval(rest, r));
    }
  }

  lemma Remainder(c: int, x: int, r: int, d: int, v: int)
    ensures c + x * ((x - r) * d + v) == (x - r) * (v + x * d) + (c + r * v)
  {
    assert x * ((x - r) * d + v) == x * ((x - r) * d) + x * v;
    assert x * ((x - r) * d) == (x - r) * (x * d);
    assert (x - r) * (v + x * d) == (x - r) * v + (x - r) * (x * d);
    assert (x - r) * v == x * v - r * v;
  }

  // ---------- uniqueness ----------

  ghost predicate IsZero(q: nat, c: seq<int>)
    requires q > 0
  {
    forall i :: 0 <= i < |c| ==> Cong(c[i], 0, q)
  }

  lemma {:induction false} ZeroFromQuotient(q: nat, c: seq<int>, r: int)
    requires q > 0 && IsZero(q, Quotient(c, r)) && Cong(Eval(c, r), 0, q)
    ensures IsZero(q, c)
  {
    hide Cong;
    if c != [] {
      var rest := c[1..];
      var d := Quotient(c, r);
      if |c| > 1 {
        assert d[0] == Eval(rest, r) && d[1..] == Quotient(rest, r);
        assert forall i :: 0 <= i < |d[1..]| ==> d[1..][i] == d[i + 1];
      } else {
        CongRefl(0, q);
      }
      assert Cong(Eval(rest, r), 0, q);
      ZeroFromQuotient(q, rest, r);
      FirstIsZero(q, c[0], r, Eval(rest, r));
      assert forall i :: 0 < i < |c| ==> c[i] == rest[i - 1];
    }
  }

  lemma FirstIsZero(q: nat, c: int, r: int, v: int)
    requires q > 0 && Cong(c + r * v, 0, q) && Cong(v, 0, q)
    ensures Cong(c, 0, q)
  {
    hide Cong;
    CongRefl(r, q);
    CongMul(r, r, v, 0, q);
    CongAdd(c + r * v, 0, r * v, r * 0, q);
  }

  /** A polynomial of at most as many coefficients as it has distinct zeros is zero. */
  lemma {:induction false} ZeroPolynomial(q: nat, c: seq<int>, xs: seq<int>)
    requires Prime(q) && Points(q, xs) && |c| <= |xs|
    requires forall i :: 0 <= i < |xs| ==> Cong(Eval(c, xs[i]), 0, q)
    ensures IsZero(q, c)
    decreases |c|
  {
    hide Cong, Quotient, Eval;
    if c != [] {
      var (r, rest, d) := (xs[0], xs[1..], Quotient(c, xs[0]));
      forall i | 0 <= i < |rest|
        ensures Cong(Eval(d, rest[i]), 0, q)
      {
        assert rest[i] == xs[i + 1];
        OtherZero(q, c, r, rest[i]);
      }
      ZeroPolynomial(q, d, rest);
      ZeroFromQuotient(q, c, r);
    }
  }

  lemma OtherZero(q: nat, c: seq<int>, r: int, x: int)
    requires Prime(q) && 0 <= r < q && 0 <= x < q && r != x
    requires Cong(Eval(c, r), 0, q) && Cong(Eval(c, x), 0, q)
    ensures Cong(Eval(Quotient(c, r), x), 0, q)
  {
    hide Cong, Quotient, Eval, Prime;
    Division(c, r, x);
    var v := Eval(Quotient(c, r), x);
    CongAdd(Eval(c, x), 0, Eval(c, r), 0, q);
    DifferenceIsUnit(q, x, r);
    assert (x - r) * v == Eval(c, x) - Eval(c, r) && (x - r) * 0 == 0;
    CancelUnit(q, x - r, v, 0);
  }

  function Negated(c: seq<int>): (d: seq<int>)
    ensures |d| == |c| && forall i :: 0 <= i < |d| ==> d[i] == -c[i]
  {
    seq(|c|, i requires 0 <= i < |c| => -c[i])
  }

  lemma {:induction false} EvalNegated(c: seq<int>, x: int)
    ensures Eval(Negated(c), x) == -Eval(c, x)
  {
    if c != [] {
      EvalNegated(c[1..], x);
      assert Negated(c)[1..] == Negated(c[1..]);
      assert x * -Eval(c[1..], x) == -(x * Eval(c[1..], x));
    }
  }

  ghost predicate Residues(q: nat, c: seq<int>)
  {
    forall i :: 0 <= i < |c| ==> 0 <= c[i] < q
  }

  /** Coefficients modulo q that agree at as many points are equal. */
  lemma PolynomialUnique(q: nat, c: seq<int>, d: seq<int>, xs: seq<int>)
    requires Prime(q) && Points(q, xs) && |c| == |d| <= |xs| && Residues(q, c) && Residues(q, d)
    requires forall i :: 0 <= i < |xs| ==> Cong(Eval(c, xs[i]), Eval(d, xs[i]), q)
    ensures c == d
  {
    hide Cong, Eval, Prime;
    var e := AddPoly(c, Negated(d));
    forall i | 0 <= i < |xs|
      ensures Cong(Eval(e, xs[i]), 0, q)
    {
      EvalAdd(c, Negated(d), xs[i]);
      EvalNegated(d, xs[i]);
      CongRefl(Eval(d, xs[i]), q);
      CongAdd(Eval(c, xs[i]), Eval(d, xs[i]), Eval(d, xs[i]), Eval(d, xs[i]), q);
    }
    ZeroPolynomial(q, e, xs);
    forall i | 0 <= i < |c|
      ensures c[i] == d[i]
    {
      assert e[i] == c[i] - d[i] && Cong(e[i], 0, q);
      CongRefl(d[i], q);
      CongAdd(c[i] - d[i], 0, d[i], d[i], q);
      CongSmall(c[i], d[i], q);
    }
  }

  // ---------- existence ----------

  function Scaled(k: int, c: seq<int>): (d: seq<int>)
    ensures |d| == |c| && forall i :: 0 <= i < |d| ==> d[i] == k * c[i]
  {
    seq(|c|, i requires 0 <= i < |c| => k * c[i])
  }

  lemma {:induction false} EvalScaled(k: int, c: seq<int>, x: int)
    ensures Eval(Scaled(k, c), x) == k * Eval(c, x)
  {
    if c != [] {
      EvalScaled(k, c[1..], x);
      assert Scaled(k, c)[1..] == Scaled(k, c[1..]);
      Factor3(k, c[0], x, Eval(c[1..], x));
    }
  }

  lemma Factor3(k: int, c: int, x: int, v: int)
    ensures k * c + x * (k * v) == k * (c + x * v)
  {
    assert x * (k * v) == k * (x * v);
  }

  /** (x - r) d + y, with one coefficient more than d. */
  function Extend(d: seq<int>, r: int, y: int): (c: seq<int>)
    ensures |c| == |d| + 1
  {
    AddPoly([y] + d, Scaled(-r, d) + [0])
  }

  lemma {:induction false} EvalPadded(c: seq<int>, x: int)
    ensures Eval(c + [0], x) == Eval(c, x)
  {
    if c == [] {
      assert [0][1..] == [] && c + [0] == [0];
      assert Eval([0], x) == 0 + x * Eval([], x);
    } else {
      EvalPadded(c[1..], x);
      assert (c + [0])[1..] == c[1..] + [0];
    }
  }

  lemma EvalExtend(d: seq<int>, r: int, y: int, x: int)
    ensures Eval(Extend(d, r, y), x) == (x - r) * Eval(d, x) + y
  {
    EvalAdd([y] + d, Scaled(-r, d) + [0], x);
    EvalPadded(Scaled(-r, d), x);
    EvalScaled(-r, d, x);
    assert ([y] + d)[1..] == d;
    assert (x - r) * Eval(d, x) == x * Eval(d, x) + -r * Eval(d, x);
  }

  function Reduced(q: nat, c: seq<int>): (d: seq<int>)
    requires q > 0
    ensures |d| == |c| && Residues(q, d) && forall i :: 0 <= i < |d| ==> d[i] == c[i] % q
  {
    seq(|c|, i requires 0 <= i < |c| => c[i] % q)
  }

  lemma {:induction false} EvalReduced(q: nat, c: seq<int>, x: int)
    requires q > 0
    ensures Cong(Eval(Reduced(q, c), x), Eval(c, x), q)
  {
    hide Cong;
    if c == [] {
      CongRefl(0, q);
    } else {
      var rest := Eval(c[1..], x);
      EvalReduced(q, c[1..], x);
      assert Reduced(q, c)[1..] == Reduced(q, c[1..]);
      CongRefl(x, q);
      CongMul(x, x, Eval(Reduced(q, c[1..]), x), rest, q);
      ModCong(c[0], q);
      CongAdd(c[0] % q, c[0], x * Eval(Reduced(q, c[1..]), x), x * rest, q);
    }
  }

  ghost predicate PassesThrough(q: nat, c: seq<int>, xs: seq<int>, ys: seq<int>)
    requires q > 0 && |xs| == |ys|
  {
    forall i :: 0 <= i < |xs| ==> Cong(Eval(c, xs[i]), ys[i], q)
  }

  /** What the quotient must be at x for the polynomial to pass through (x, y) and (r, s). */
  function Slope(q: nat, x: int, y: int, r: int, s: int): (v: int)
    requires q > 0
  {
    (y - s) * Invert(q, x - r)
  }

  function Slopes(q: nat, xs: seq<int>, ys: seq<int>, r: int, s: int): (vs: seq<int>)
    requires q > 0 && |xs| == |ys|
    ensures |vs| == |xs| && forall i :: 0 <= i < |vs| ==> vs[i] == Slope(q, xs[i], ys[i], r, s)
  {
    seq(|xs|, i requires 0 <= i < |xs| => Slope(q, xs[i], ys[i], r, s))
  }

  lemma SlopeFits(q: nat, x: int, y: int, r: int, s: int, v: int)
    requires Prime(q) && 0 <= x < q && 0 <= r < q && x != r && Cong(v, Slope(q, x, y, r, s), q)
    ensures Cong((x - r) * v + s, y, q)
  {
    hide Cong, Prime, Invert;
    var i := Invert(q, x - r);
    DifferenceIsUnit(q, x, r);
    InvertUnit(q, x - r);
    CongRefl(x - r, q);
    CongMul(x - r, x - r, v, (y - s) * i, q);
    CongRefl(y - s, q);
    CongMul(y - s, y - s, (x - r) * i, 1, q);
    Swap(x - r, y - s, i);
    CongTrans((x - r) * v, (x - r) * ((y - s) * i), (y - s) * 1, q);
    CongRefl(s, q);
    CongAdd((x - r) * v, y - s, s, s, q);
  }

  lemma {:induction false} PolynomialExists(q: nat, xs: seq<int>, ys: seq<int>) returns (c: seq<int>)
    requires Prime(q) && Points(q, xs) && |xs| == |ys|
    ensures |c| == |xs| && Residues(q, c) && PassesThrough(q, c, xs, ys)
    decreases |xs|
  {
    hide Cong, Eval, Extend, Slope;
    if xs == [] {
      c := [];
    } else {
      var (r, s) := (xs[0], ys[0]);
      var slopes := Slopes(q, xs[1..], ys[1..], r, s);
      var d := PolynomialExists(q, xs[1..], slopes);
      var e := Extend(d, r, s);
      c := Reduced(q, e);
      forall i | 0 <= i < |xs|
        ensures Cong(Eval(c, xs[i]), ys[i], q)
      {
        EvalExtend(d, r, s, xs[i]);
        EvalReduced(q, e, xs[i]);
        if i == 0 {
          assert (xs[0] - r) * Eval(d, r) == 0;
        } else {
          assert xs[1..][i - 1] == xs[i] && ys[1..][i - 1] == ys[i];
          assert Cong(Eval(d, xs[1..][i - 1]), slopes[i - 1], q);
          SlopeFits(q, xs[i], ys[i], r, s, Eval(d, xs[i]));
          CongTrans(Eval(c, xs[i]), Eval(e, xs[i]), ys[i], q);
        }
      }
    }
  }
}
