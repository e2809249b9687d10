/**
 Lagrange interpolation at zero over Z_q: with weights
 prod (0 - y) / prod (x - y), the weighted sum of the values of a polynomial at
 distinct points is its constant term.
 */
module Lagrange {
  import opened NumberTheory
  import opened Polynomials

  function Factor(x: int, w: int, y: int): (r: int)
  {
    if y == x then 1 else w - y
  }

  /** The product of w - y over the points y other than x. */
  function OthersProduct(xs: seq<int>, x: int, w: int): (r: int)
  {
    if xs == [] then 1 else Factor(x, w, xs[0]) * OthersProduct(xs[1..], x, w)
  }

  function Numerator(xs: seq<int>, x: int): (r: int)
  {
    OthersProduct(xs, x, 0)
  }

  function Denominator(xs: seq<int>, x: int): (r: int)
  {
    OthersProduct(xs, x, x)
  }

  /** The inverse modulo q, and zero where there is none. */
  function Invert(q: nat, a: int): (r: nat)
    requires q > 0
    ensures r < q
  {
    match ModInv(a % q, q)
    case Some(v) => v
    case None => 0
  }

  function Weight(q: nat, xs: seq<int>, x: int): (r: int)
    requires q > 0
  {
    Numerator(xs, x) * Invert(q, Denominator(xs, x))
  }

  /** Points are residues and pairwise different. */
  ghost predicate Points(q: nat, xs: seq<int>)
  {
    && (forall i :: 0 <= i < |xs| ==> 0 <= xs[i] < q)
    && (forall i, j :: 0 <= i < j < |xs| ==> xs[i] != xs[j])
  }

  // ---------- products ----------

  lemma Associate(a: int, b: int, c: int)
    ensures a * (b * c) == (a * b) * c
  {
  }

  lemma {:induction false} OthersConcat(a: seq<int>, b: seq<int>, x: int, w: int)
    ensures OthersProduct(a + b, x, w) == OthersProduct(a, x, w) * OthersProduct(b, x, w)
    decreases |a|
  {
    hide Factor;
    if a == [] {
      assert a + b == b;
    } else {
      assert (a + b)[1..] == a[1..] + b;
      OthersConcat(a[1..], b, x, w);
      Associate(Factor(x, w, a[0]), OthersProduct(a[1..], x, w), OthersProduct(b, x, w));
    }
  }

  lemma OthersWithout(a: seq<int>, z: int, b: seq<int>, x: int, w: int)
    requires x != z
    ensures OthersProduct(a + [z] + b, x, w) == OthersProduct(a + b, x, w) * (w - z)
  {
    hide OthersProduct;
    OthersOne(z, x, w);
    OthersConcat(a + [z], b, x, w);
    OthersConcat(a, [z], x, w);
    OthersConcat(a, b, x, w);
    Rotate(OthersProduct(a, x, w), w - z, OthersProduct(b, x, w));
  }

  lemma OthersOne(z: int, x: int, w: int)
    requires x != z
    ensures OthersProduct([z], x, w) == w - z
  {
    assert [z][1..] == [];
  }

  lemma Rotate(p: int, k: int, r: int)
    ensures (p * k) * r == (p * r) * k
  {
    assert p * (k * r) == p * (r * k);
  }

  /** A number that is not zero modulo the prime q. */
  ghost predicate Unit(q: nat, a: int)
    requires q > 0
  {
    !Cong(a, 0, q)
  }

  lemma SmallNotDivided(q: nat, r: nat)
    requires 0 < r < q
    ensures !Divides(q, r)
  {
    if Divides(q, r) { DividesLe(q, r); }
  }

  lemma UnitResidue(q: nat, a: int)
    requires Prime(q) && Unit(q, a)
    ensures 0 < a % q < q && !Divides(q, a % q) && Cong(a % q, a, q)
  {
    ModUnique(0, q, 0, 0);
    ModCong(a, q);
    SmallNotDivided(q, a % q);
  }

  lemma InvertUnit(q: nat, a: int)
    requires Prime(q) && Unit(q, a)
    ensures Cong(a * Invert(q, a), 1, q)
  {
    UnitResidue(q, a);
    hide Divides, Cong;
    PrimeCoprime(q, a % q);
    var v := Invert(q, a);
    CongRefl(v, q);
    CongSym(a % q, a, q);
    CongMul(a, a % q, v, v, q);
    CongTrans(a * v, (a % q) * v, 1, q);
  }

  lemma UnitProduct(q: nat, a: int, b: int)
    requires Prime(q) && Unit(q, a) && Unit(q, b)
    ensures Unit(q, a * b)
  {
    if Cong(a * b, 0, q) {
      assert a * 0 == 0;
      CancelUnit(q, a, b, 0);
    }
  }

  lemma CancelUnit(q: nat, a: int, b: int, c: int)
    requires Prime(q) && Unit(q, a) && Cong(a * b, a * c, q)
    ensures Cong(b, c, q)
  {
    UnitResidue(q, a);
    hide Divides, Cong;
    var r := a % q;
    CongRefl(b, q);
    CongRefl(c, q);
    CongMul(r, a, b, b, q);
    CongMul(r, a, c, c, q);
    CongSym(r * c, a * c, q);
    CongTrans(r * b, a * b, a * c, q);
    CongTrans(r * b, a * c, r * c, q);
    CancelFactor(q, r, b, c);
  }

  lemma DifferenceIsUnit(q: nat, x: int, y: int)
    requires Prime(q) && 0 <= x < q && 0 <= y < q && x != y
    ensures Unit(q, x - y)
  {
    if Cong(x - y, 0, q) {
      CongAdd(x - y, 0, y, y, q);
      CongSmall(x, y, q);
    }
  }

  lemma {:induction false} DenominatorIsUnit(q: nat, xs: seq<int>, x: int)
    requires Prime(q) && Points(q, xs) && 0 <= x < q
    ensures Unit(q, Denominator(xs, x))
    decreases |xs|
  {
    if xs == [] {
      ModUnique(1, q, 0, 1);
      ModUnique(0, q, 0, 0);
    } else {
      DenominatorIsUnit(q, xs[1..], x);
      if xs[0] != x {
        DifferenceIsUnit(q, x, xs[0]);
        UnitProduct(q, x - xs[0], Denominator(xs[1..], x));
      } else {
        assert 1 * Denominator(xs[1..], x) == Denominator(xs[1..], x);
      }
    }
  }

  /** The weight is determined by weight * denominator = numerator. */
  lemma WeightEquation(q: nat, xs: seq<int>, x: int)
    requires Prime(q) && Points(q, xs) && 0 <= x < q
    ensures Cong(Weight(q, xs, x) * Denominator(xs, x), Numerator(xs, x), q)
  {
    DenominatorIsUnit(q, xs, x);
    var n, d := Numerator(xs, x), Denominator(xs, x);
    hide Cong, Numerator, Denominator, Invert;
    InvertUnit(q, d);
    var v := Invert(q, d);
    CongRefl(n, q);
    CongMul(n, n, d * v, 1, q);
    assert (n * v) * d == n * (d * v);
  }

  lemma PointsWithout(q: nat, a: seq<int>, z: int, b: seq<int>)
    requires Points(q, a + [z] + b)
    ensures Points(q, a + b) && 0 <= z < q
    ensures forall i :: 0 <= i < |a + b| ==> 0 <= (a + b)[i] < q && (a + b)[i] != z
  {
    var xs, ys := a + [z] + b, a + b;
    assert xs[|a|] == z;
    forall i | 0 <= i < |ys|
      ensures 0 <= ys[i] < q && ys[i] != z
    {
      assert ys[i] == if i < |a| then xs[i] else xs[i + 1];
    }
    forall i, j | 0 <= i < j < |ys|
      ensures ys[i] != ys[j]
    {
      assert ys[i] == if i < |a| then xs[i] else xs[i + 1];
      assert ys[j] == if j < |a| then xs[j] else xs[j + 1];
    }
  }

  /** Dropping the point z changes the weight of x by (0 - z) / (x - z). */
  lemma WeightWithout(q: nat, a: seq<int>, z: int, b: seq<int>, x: int)
    requires Prime(q) && Points(q, a + [z] + b) && 0 <= x < q && x != z
    ensures Cong(Weight(q, a + [z] + b, x) * (x - z), Weight(q, a + b, x) * (0 - z), q)
  {
    var xs, ys := a + [z] + b, a + b;
    PointsWithout(q, a, z, b);
    OthersWithout(a, z, b, x, 0);
    OthersWithout(a, z, b, x, x);
    hide OthersProduct, Cong, Points;
    WeightEquation(q, xs, x);
    WeightEquation(q, ys, x);
    DenominatorIsUnit(q, ys, x);
    CrossMultiply(q, Weight(q, xs, x), Weight(q, ys, x), Denominator(ys, x), Numerator(ys, x), x - z, 0 - z);
  }

  lemma CrossMultiply(q: nat, w: int, v: int, d: int, n: int, s: int, t: int)
    requires Prime(q) && Unit(q, d)
    requires Cong(w * (d * s), n * t, q) && Cong(v * d, n, q)
    ensures Cong(w * s, v * t, q)
  {
    hide Cong;
    CongRefl(t, q);
    CongMul(v * d, n, t, t, q);
    assert d * (w * s) == w * (d * s);
    assert d * (v * t) == (v * d) * t;
    CongSym((v * d) * t, n * t, q);
    CongTrans(d * (w * s), n * t, d * (v * t), q);
    CancelUnit(q, d, w * s, v * t);
  }

  // ---------- weighted sums ----------

  /** Sum over ys of c(y) times the weight of y among the points all. */
  function Weighted(q: nat, all: seq<int>, ys: seq<int>, c: seq<int>): (r: int)
    requires q > 0
  {
    if ys == [] then 0 else Eval(c, ys[0]) * Weight(q, all, ys[0]) + Weighted(q, all, ys[1..], c)
  }

  /** The same with an extra factor y - z. */
  function Shifted(q: nat, all: seq<int>, ys: seq<int>, c: seq<int>, z: int): (r: int)
    requires q > 0
  {
    if ys == [] then 0 else Eval(c, ys[0]) * (Weight(q, all, ys[0]) * (ys[0] - z)) + Shifted(q, all, ys[1..], c, z)
  }

  lemma {:induction false} WeightedTimesX(q: nat, all: seq<int>, ys: seq<int>, c: seq<int>, z: int)
    requires q > 0
    ensures Weighted(q, all, ys, [0] + c) == Shifted(q, all, ys, c, z) + z * Weighted(q, all, ys, c)
  {
    hide Weight;
    if ys != [] {
      WeightedTimesX(q, all, ys[1..], c, z);
      assert ([0] + c)[1..] == c;
      SplitShift(ys[0], z, Eval(c, ys[0]), Weight(q, all, ys[0]), Weighted(q, all, ys[1..], c));
    }
  }

  lemma SplitShift(y: int, z: int, e: int, w: int, t: int)
    ensures (0 + y * e) * w + z * t == e * (w * (y - z)) + z * (e * w + t)
  {
    assert (y * e) * w == y * (e * w);
    assert e * (w * (y - z)) == (e * w) * (y - z) == (e * w) * y - (e * w) * z;
  }

  lemma {:induction false} WeightedSplit(q: nat, all: seq<int>, ys: seq<int>, k: int, c: seq<int>)
    requires q > 0
    ensures Weighted(q, all, ys, [k] + c) == k * Weighted(q, all, ys, [1]) + Weighted(q, all, ys, [0] + c)
  {
    hide Weight;
    if ys != [] {
      WeightedSplit(q, all, ys[1..], k, c);
      var y, w, t := ys[0], Weight(q, all, ys[0]), Weighted(q, all, ys[1..], [1]);
      assert ([0] + c)[1..] == c && ([k] + c)[1..] == c;
      assert Eval([1], y) == 1 by { assert [1][1..] == []; }
      assert k * (1 * w + t) == k * w + k * t;
      assert (k + y * Eval(c, y)) * w == k * w + (0 + y * Eval(c, y)) * w;
    }
  }

  lemma {:induction false} WeightedConcat(q: nat, all: seq<int>, a: seq<int>, b: seq<int>, c: seq<int>)
    requires q > 0
    ensures Weighted(q, all, a + b, c) == Weighted(q, all, a, c) + Weighted(q, all, b, c)
    decreases |a|
  {
    if a == [] {
      assert a + b == b;
    } else {
      assert (a + b)[1..] == a[1..] + b;
      WeightedConcat(q, all, a[1..], b, c);
    }
  }

  lemma {:induction false} ShiftedConcat(q: nat, all: seq<int>, a: seq<int>, b: seq<int>, c: seq<int>, z: int)
    requires q > 0
    ensures Shifted(q, all, a + b, c, z) == Shifted(q, all, a, c, z) + Shifted(q, all, b, c, z)
    decreases |a|
  {
    if a == [] {
      assert a + b == b;
    } else {
      assert (a + b)[1..] == a[1..] + b;
      ShiftedConcat(q, all, a[1..], b, c, z);
    }
  }

  lemma ShiftedAt(q: nat, all: seq<int>, c: seq<int>, z: int)
    requires q > 0
    ensures Shifted(q, all, [z], c, z) == 0
  {
    assert [z][1..] == [];
    assert Weight(q, all, z) * 0 == 0;
    assert Eval(c, z) * 0 == 0;
  }

  lemma ScaleCong(q: nat, e: int, w: int, v: int, t: int, s: int, r: int)
    requires q > 0 && Cong(w, v * t, q) && Cong(s, t * r, q)
    ensures Cong(e * w + s, t * (e * v + r), q)
  {
    hide Cong;
    CongRefl(e, q);
    CongMul(e, e, w, v * t, q);
    CongAdd(e * w, e * (v * t), s, t * r, q);
    assert e * (v * t) + t * r == t * (e * v + r) by {
      assert e * (v * t) == t * (e * v);
    }
  }

  /** Points other than z: the shifted sum is -z times the sum without z. */
  lemma {:induction false} ShiftedWithout(q: nat, a: seq<int>, z: int, b: seq<int>, ys: seq<int>, c: seq<int>)
    requires Prime(q) && Points(q, a + [z] + b)
    requires forall i :: 0 <= i < |ys| ==> 0 <= ys[i] < q && ys[i] != z
    ensures Cong(Shifted(q, a + [z] + b, ys, c, z), (0 - z) * Weighted(q, a + b, ys, c), q)
    decreases |ys|
  {
    hide Cong, Weight, Points;
    if ys == [] {
      CongRefl(0, q);
    } else {
      ShiftedWithout(q, a, z, b, ys[1..], c);
      WeightWithout(q, a, z, b, ys[0]);
      ScaleCong(q, Eval(c, ys[0]), Weight(q, a + [z] + b, ys[0]) * (ys[0] - z), Weight(q, a + b, ys[0]), 0 - z,
                Shifted(q, a + [z] + b, ys[1..], c, z), Weighted(q, a + b, ys[1..], c));
    }
  }

  /** The shifted sum over all points. */
  lemma ShiftedSum(q: nat, a: seq<int>, z: int, b: seq<int>, c: seq<int>)
    requires Prime(q) && Points(q, a + [z] + b)
    ensures Cong(Shifted(q, a + [z] + b, a + [z] + b, c, z), (0 - z) * Weighted(q, a + b, a + b, c), q)
  {
    var xs := a + [z] + b;
    PointsWithout(q, a, z, b);
    hide Cong, Points;
    ShiftedConcat(q, xs, a + [z], b, c, z);
    ShiftedConcat(q, xs, a, [z], c, z);
    ShiftedConcat(q, xs, a, b, c, z);
    ShiftedAt(q, xs, c, z);
    ShiftedWithout(q, a, z, b, a + b, c);
  }

  lemma ShiftedSumFirst(q: nat, z: int, b: seq<int>, c: seq<int>)
    requires Prime(q) && Points(q, [z] + b)
    ensures Cong(Shifted(q, [z] + b, [z] + b, c, z), (0 - z) * Weighted(q, b, b, c), q)
  {
    assert [] + [z] + b == [z] + b && [] + b == b;
    ShiftedSum(q, [], z, b, c);
  }

  lemma ShiftedSumLast(q: nat, a: seq<int>, z: int, c: seq<int>)
    requires Prime(q) && Points(q, a + [z])
    ensures Cong(Shifted(q, a + [z], a + [z], c, z), (0 - z) * Weighted(q, a, a, c), q)
  {
    assert a + [z] + [] == a + [z] && a + [] == a;
    ShiftedSum(q, a, z, [], c);
  }

  lemma CancelDifference(q: nat, u: int, z: int, w: int, su: int, sz: int)
    requires Prime(q) && 0 <= u < q && 0 <= z < q && u != z
    requires su + u * w == sz + z * w && Cong(su, 0 - u, q) && Cong(sz, 0 - z, q)
    ensures Cong(w, 1, q)
  {
    DifferenceIsUnit(q, u, z);
    hide Cong, Unit;
    CongAdd(sz, 0 - z, su, 0 - u, q);
    assert (u - z) * w == sz - su;
    assert (0 - z) - (0 - u) == (u - z) * 1;
    CancelUnit(q, u - z, w, 1);
  }

  lemma WeightedOne(q: nat, all: seq<int>, x: int)
    requires q > 0
    ensures Weighted(q, all, [x], [1]) == Weight(q, all, x)
  {
    hide Weight;
    assert [x][1..] == [] && [1][1..] == [];
    assert Eval([1], x) == 1;
  }

  lemma OthersNone(x: int, w: int)
    ensures OthersProduct([x], x, w) == 1
  {
    assert [x][1..] == [];
  }

  lemma OneWeight(q: nat, x: int)
    requires Prime(q) && 0 <= x < q
    ensures Cong(Weighted(q, [x], [x], [1]), 1, q)
  {
    hide Weighted, Weight, OthersProduct, Cong;
    WeightedOne(q, [x], x);
    OthersNone(x, 0);
    OthersNone(x, x);
    WeightEquation(q, [x], x);
    assert Weight(q, [x], x) * 1 == Weight(q, [x], x);
  }

  /** Two points of the list suffice to step from shorter lists. */
  lemma WeightsStep(q: nat, u: int, first: seq<int>, last: seq<int>, z: int)
    requires Prime(q) && [u] + first == last + [z] && Points(q, [u] + first)
    requires 0 <= u < q && 0 <= z < q && u != z
    requires Cong(Weighted(q, first, first, [1]), 1, q)
    requires Cong(Weighted(q, last, last, [1]), 1, q)
    ensures Cong(Weighted(q, [u] + first, [u] + first, [1]), 1, q)
  {
    hide *;
    var xs := [u] + first;
    ShiftedSumFirst(q, u, first, [1]);
    ShiftedSumLast(q, last, z, [1]);
    var su, sz := Shifted(q, xs, xs, [1], u), Shifted(q, xs, xs, [1], z);
    ScaleOne(q, su, 0 - u, Weighted(q, first, first, [1]));
    ScaleOne(q, sz, 0 - z, Weighted(q, last, last, [1]));
    WeightedTimesX(q, xs, xs, [1], u);
    WeightedTimesX(q, xs, xs, [1], z);
    CancelDifference(q, u, z, Weighted(q, xs, xs, [1]), su, sz);
  }

  /** The weights add up to one. */
  lemma {:induction false} WeightsSumToOne(q: nat, xs: seq<int>)
    requires Prime(q) && |xs| > 0 && Points(q, xs)
    ensures Cong(Weighted(q, xs, xs, [1]), 1, q)
    decreases |xs|
  {
    hide Cong, Weighted;
    if |xs| == 1 {
      assert xs == [xs[0]];
      OneWeight(q, xs[0]);
    } else {
      var n := |xs| - 1;
      assert xs == [xs[0]] + xs[1..] == xs[..n] + [xs[n]];
      WeightsSumToOne(q, xs[1..]);
      WeightsSumToOne(q, xs[..n]);
      WeightsStep(q, xs[0], xs[1..], xs[..n], xs[n]);
    }
  }

  lemma ScaleOne(q: nat, s: int, t: int, w: int)
    requires q > 0 && Cong(s, t * w, q) && Cong(w, 1, q)
    ensures Cong(s, t, q)
  {
    hide Cong;
    CongRefl(t, q);
    CongMul(t, t, w, 1, q);
    assert t * 1 == t;
    CongTrans(s, t * w, t, q);
  }

  lemma {:induction false} WeightedNothing(q: nat, all: seq<int>, ys: seq<int>)
    requires q > 0
    ensures Weighted(q, all, ys, []) == 0
  {
    if ys != [] { WeightedNothing(q, all, ys[1..]); }
  }

  lemma CombineConstant(q: nat, k: int, w: int, s: int, z: int, wy: int, wx: int, e: int)
    requires q > 0 && Cong(w, 1, q) && Cong(s, (0 - z) * wy, q) && Cong(wy, e, q) && Cong(wx, e, q)
    ensures Cong(k * w + (s + z * wx), k, q)
  {
    hide Cong;
    CongRefl(k, q);
    CongMul(k, k, w, 1, q);
    CongRefl(z, q);
    CongRefl(0 - z, q);
    CongMul(z, z, wx, e, q);
    CongMul(0 - z, 0 - z, wy, e, q);
    CongTrans(s, (0 - z) * wy, (0 - z) * e, q);
    CongAdd(s, (0 - z) * e, z * wx, z * e, q);
    CongAdd(k * w, k * 1, s + z * wx, (0 - z) * e + z * e, q);
    assert k * 1 + ((0 - z) * e + z * e) == k;
  }

  /** At least as many distinct points as coefficients recover the constant term. */
  lemma {:induction false} InterpolatesConstant(q: nat, xs: seq<int>, c: seq<int>)
    requires Prime(q) && Points(q, xs) && |c| <= |xs|
    ensures Cong(Weighted(q, xs, xs, c), Eval(c, 0), q)
    decreases |c|
  {
    if c == [] {
      WeightedNothing(q, xs, xs);
    } else {
      var k, c1 := c[0], c[1..];
      assert c == [k] + c1;
      assert Eval(c, 0) == k;
      var n := |xs| - 1;
      var last, z := xs[..n], xs[n];
      hide Cong, Weighted, Shifted, Eval;
      assert xs == last + [z];
      InterpolatesConstant(q, xs, c1);
      InterpolatesConstant(q, last, c1);
      WeightsSumToOne(q, xs);
      WeightedSplit(q, xs, xs, k, c1);
      WeightedTimesX(q, xs, xs, c1, z);
      ShiftedSumLast(q, last, z, c1);
      CombineConstant(q, k, Weighted(q, xs, xs, [1]), Shifted(q, xs, xs, c1, z), z,
                      Weighted(q, last, last, c1), Weighted(q, xs, xs, c1), Eval(c1, 0));
    }
  }
}
