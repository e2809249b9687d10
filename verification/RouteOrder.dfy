/**
 Routes as lists of edge positions, in the order in which a depth-first walk
 meets them.
 */
module RouteOrder {
  type Route = seq<int>

  ghost predicate Increasing(p: Route)
  {
    forall i, j :: 0 <= i < j < |p| ==> p[i] < p[j]
  }

  /** a and b part at some position, where a takes the earlier edge. */
  ghost predicate Before(a: Route, b: Route)
  {
    exists k :: PartAt(a, b, k)
  }

  ghost predicate PartAt(a: Route, b: Route, k: nat)
  {
    k < |a| && k < |b| && a[..k] == b[..k] && a[k] < b[k]
  }

  ghost predicate Sorted(list: seq<Route>)
  {
    forall i, j :: 0 <= i < j < |list| ==> Before(list[i], list[j])
  }

  lemma NotBothWays(a: Route, b: Route)
    requires Before(a, b)
    ensures !Before(b, a) && a != b
  {
    var k: nat :| PartAt(a, b, k);
    forall l: nat
      ensures !PartAt(b, a, l)
    {
      assert k < l <= |a| && l <= |b| ==> b[..l][k] == b[k] && a[..l][k] == a[k];
      assert l < k ==> a[..k][l] == a[l] && b[..k][l] == b[l];
    }
  }

  /** A depth-first walk meets the end of a before the end of b. */
  ghost predicate Earlier(a: Route, b: Route)
  {
    a < b || Before(a, b)
  }

  lemma EarlierThan(a: Route, k: int, b: Route)
    requires a != [] && Earlier(a, [k] + b)
    ensures a[0] < k || (a == [k] + a[1..] && (a[1..] == [] || Earlier(a[1..], b)))
    ensures b == [] ==> a[0] < k
  {
    var (c, rest) := ([k] + b, a[1..]);
    if Before(a, c) {
      var n: nat :| PartAt(a, c, n);
      if n > 0 {
        assert a[..n][0] == c[..n][0];
        assert rest[..n - 1] == a[..n][1..] == c[..n][1..] == b[..n - 1];
        assert PartAt(rest, b, n - 1);
      }
    } else {
      assert c[1..] == b;
    }
  }

  /** Of two routes one is earlier, unless they are the same. */
  lemma OneIsEarlier(a: Route, b: Route)
    ensures a == b || Earlier(a, b) || Earlier(b, a)
  {
    var k := CommonPrefix(a, b);
    if k < |a| && k < |b| {
      assert PartAt(a, b, k) || PartAt(b, a, k);
    }
  }

  lemma {:induction false} CommonPrefix(a: Route, b: Route) returns (k: nat)
    ensures k <= |a| && k <= |b| && a[..k] == b[..k] && (k < |a| && k < |b| ==> a[k] != b[k])
    decreases |a|
  {
    if a == [] || b == [] || a[0] != b[0] {
      k := 0;
    } else {
      var l := CommonPrefix(a[1..], b[1..]);
      k := l + 1;
      assert a[..k] == [a[0]] + a[1..][..l] && b[..k] == [b[0]] + b[1..][..l];
    }
  }

  lemma SortedAppend(xs: seq<Route>, ys: seq<Route>)
    requires Sorted(xs) && Sorted(ys) && forall a, b :: a in xs && b in ys ==> Before(a, b)
    ensures Sorted(xs + ys)
  {
    var zs := xs + ys;
    forall i, j | 0 <= i < j < |zs|
      ensures Before(zs[i], zs[j])
    {
      if i < |xs| <= j {
        assert zs[i] in xs && zs[j] in ys;
      }
    }
  }

  /** A sorted list is determined by its members. */
  lemma {:induction false} SortedUnique(xs: seq<Route>, ys: seq<Route>)
    requires Sorted(xs) && Sorted(ys) && forall p :: p in xs <==> p in ys
    ensures xs == ys
  {
    assert xs != [] ==> xs[0] in ys;
    assert ys != [] ==> ys[0] in xs;
    if xs != [] {
      SameFirst(xs, ys);
      forall p
        ensures p in xs[1..] <==> p in ys[1..]
      {
        InRest(xs, p);
        InRest(ys, p);
      }
      SortedUnique(xs[1..], ys[1..]);
      assert xs == [xs[0]] + xs[1..] && ys == [ys[0]] + ys[1..];
    }
  }

  lemma SameFirst(xs: seq<Route>, ys: seq<Route>)
    requires Sorted(xs) && Sorted(ys) && xs != [] && ys != [] && forall p :: p in xs <==> p in ys
    ensures xs[0] == ys[0]
  {
    assert xs[0] in ys && ys[0] in xs;
    if xs[0] != ys[0] {
      NotBothWays(xs[0], ys[0]);
      assert false;
    }
  }

  lemma InRest(xs: seq<Route>, p: Route)
    requires Sorted(xs) && xs != []
    ensures p in xs[1..] <==> p in xs && p != xs[0]
  {
    assert xs == [xs[0]] + xs[1..];
    if p in xs[1..] {
      var i :| 0 <= i < |xs| - 1 && xs[1..][i] == p;
      NotBothWays(xs[0], xs[i + 1]);
    }
  }
}
