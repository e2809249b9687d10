/**
 Validation of a deployment manifest: the checks in the order they are made,
 the cycle search over parent references, and what acceptance means for whole
 delegation chains.
 */
module Manifest {
  import opened Common
  import opened Scope
  import opened DelegationGraph

  datatype Quorum = Quorum(t: nat, n: nat)

  datatype Authority = Authority(id: string, quorum: Option<Quorum>, parents: seq<string>, scope: ScopeDimensions)

  datatype MultiLogPolicy = MultiLogPolicy(m: nat, k: nat)

  datatype SignatifManifest = SignatifManifest(authorities: seq<Authority>, multiLogPolicy: Option<MultiLogPolicy>)

  datatype ManifestError =
    | NoRoot
    | UnknownParent(child: string, parent: string)
    | InvalidQuorum(t: nat, n: nat)
    | InvalidMultiLogPolicy(m: nat, k: nat)
    | TrustCycle
    | ScopeWidening(parent: string, child: string, dimension: string)

  /** The first declaration with an identifier. */
  function FindAuthority(authorities: seq<Authority>, id: string): (r: Option<Authority>)
    ensures r.Some? ==> r.value in authorities && r.value.id == id
    ensures r.None? ==> forall a :: a in authorities ==> a.id != id
  {
    if authorities == [] then None
    else if authorities[0].id == id then Some(authorities[0])
    else FindAuthority(authorities[1..], id)
  }

  function ParentsOf(m: SignatifManifest): (succ: string -> seq<string>)
  {
    (id: string) =>
      match FindAuthority(m.authorities, id)
      case Some(a) => a.parents
      case None => []
  }

  predicate Declared(m: SignatifManifest, id: string)
  {
    exists i :: 0 <= i < |m.authorities| && m.authorities[i].id == id
  }

  // ---------- the conditions ----------

  /** The declarations without parents, in document order. */
  function Roots(authorities: seq<Authority>): (rs: seq<Authority>)
    ensures forall a :: a in rs <==> a in authorities && a.parents == []
  {
    if authorities == [] then []
    else (if authorities[0].parents == [] then [authorities[0]] else []) + Roots(authorities[1..])
  }

  ghost predicate HasRoot(m: SignatifManifest)
  {
    exists i :: 0 <= i < |m.authorities| && m.authorities[i].parents == []
  }

  predicate AllDeclared(m: SignatifManifest, ps: seq<string>)
  {
    forall j :: 0 <= j < |ps| ==> Declared(m, ps[j])
  }

  predicate ParentsDeclared(m: SignatifManifest)
  {
    forall i :: 0 <= i < |m.authorities| ==> AllDeclared(m, m.authorities[i].parents)
  }

  predicate QuorumConsistent(q: Option<Quorum>)
  {
    q.Some? ==> 1 <= q.value.t <= q.value.n
  }

  predicate QuorumsConsistent(m: SignatifManifest)
  {
    forall i :: 0 <= i < |m.authorities| ==> QuorumConsistent(m.authorities[i].quorum)
  }

  predicate PolicyConsistent(m: SignatifManifest)
  {
    m.multiLogPolicy.Some? ==> 1 <= m.multiLogPolicy.value.m <= m.multiLogPolicy.value.k
  }

  predicate LinkNarrows(m: SignatifManifest, a: Authority, p: string)
  {
    var parent := FindAuthority(m.authorities, p);
    parent.Some? ==> Narrows(a.scope, parent.value.scope)
  }

  predicate AuthorityNarrows(m: SignatifManifest, a: Authority)
  {
    forall j :: 0 <= j < |a.parents| ==> LinkNarrows(m, a, a.parents[j])
  }

  predicate LinksNarrow(m: SignatifManifest)
  {
    forall i :: 0 <= i < |m.authorities| ==> AuthorityNarrows(m, m.authorities[i])
  }

  ghost predicate Accepted(m: SignatifManifest)
  {
    && HasRoot(m) && ParentsDeclared(m) && QuorumsConsistent(m) && PolicyConsistent(m)
    && !HasCycle(ParentsOf(m)) && LinksNarrow(m)
  }

  lemma AcceptedParts(m: SignatifManifest)
    requires Accepted(m)
    ensures ParentsDeclared(m) && !HasCycle(ParentsOf(m)) && LinksNarrow(m)
  {
  }

  // ---------- the first violation ----------

  /** The order in which the extension dimensions of a scope are gone through. */
  ghost predicate ListsExtensions(keysOf: ScopeDimensions -> seq<string>)
  {
    forall s, n :: n in keysOf(s) <==> n in s.extra
  }

  /** Parent j of authority i, and every link before it in document order has a declared parent. */
  ghost predicate DeclaredBefore(m: SignatifManifest, i: nat, j: nat)
    requires i < |m.authorities| && j < |m.authorities[i].parents|
  {
    && (forall k :: 0 <= k < i ==> AllDeclared(m, m.authorities[k].parents))
    && AllDeclared(m, m.authorities[i].parents[..j])
  }

  ghost predicate NarrowBefore(m: SignatifManifest, i: nat, j: nat)
    requires i < |m.authorities| && j < |m.authorities[i].parents|
  {
    && (forall k :: 0 <= k < i ==> AuthorityNarrows(m, m.authorities[k]))
    && forall n :: 0 <= n < j ==> LinkNarrows(m, m.authorities[i], m.authorities[i].parents[n])
  }

  ghost predicate FirstUnknownParent(m: SignatifManifest, child: string, parent: string)
  {
    exists i: nat, j: nat ::
      && i < |m.authorities| && j < |m.authorities[i].parents|
      && m.authorities[i].id == child && m.authorities[i].parents[j] == parent
      && !Declared(m, parent) && DeclaredBefore(m, i, j)
  }

  ghost predicate FirstBadQuorum(m: SignatifManifest, t: nat, n: nat)
  {
    exists i ::
      && 0 <= i < |m.authorities| && m.authorities[i].quorum == Some(Quorum(t, n)) && !(1 <= t <= n)
      && forall k :: 0 <= k < i ==> QuorumConsistent(m.authorities[k].quorum)
  }

  ghost predicate FirstWidening(
    m: SignatifManifest, keysOf: ScopeDimensions -> seq<string>, parent: string, child: string, dimension: string)
    requires ListsExtensions(keysOf)
  {
    exists i: nat, j: nat ::
      && i < |m.authorities| && j < |m.authorities[i].parents|
      && m.authorities[i].id == child && m.authorities[i].parents[j] == parent
      && FindAuthority(m.authorities, parent).Some? && NarrowBefore(m, i, j)
      && var (c, p) := (m.authorities[i].scope, FindAuthority(m.authorities, parent).value.scope);
      && !Narrows(c, p) && IsFirstWidened(c, p, keysOf(c), dimension)
  }

  /** The first violation in the order of the checks, with what the message names. */
  ghost predicate IsVerdict(m: SignatifManifest, keysOf: ScopeDimensions -> seq<string>, r: Result<(), ManifestError>)
    requires ListsExtensions(keysOf)
  {
    match r
    case Ok(_) => Accepted(m)
    case Err(NoRoot) => !HasRoot(m)
    case Err(UnknownParent(child, parent)) => HasRoot(m) && FirstUnknownParent(m, child, parent)
    case Err(InvalidQuorum(t, n)) => HasRoot(m) && ParentsDeclared(m) && FirstBadQuorum(m, t, n)
    case Err(InvalidMultiLogPolicy(k, n)) =>
      && HasRoot(m) && ParentsDeclared(m) && QuorumsConsistent(m)
      && m.multiLogPolicy == Some(MultiLogPolicy(k, n)) && !(1 <= k <= n)
    case Err(TrustCycle) =>
      && HasRoot(m) && ParentsDeclared(m) && QuorumsConsistent(m) && PolicyConsistent(m)
      && HasCycle(ParentsOf(m))
    case Err(ScopeWidening(parent, child, dimension)) =>
      && HasRoot(m) && ParentsDeclared(m) && QuorumsConsistent(m) && PolicyConsistent(m)
      && !HasCycle(ParentsOf(m)) && FirstWidening(m, keysOf, parent, child, dimension)
  }

  // ---------- the checks ----------

  function Ids(m: SignatifManifest): (ids: seq<string>)
    ensures |ids| == |m.authorities|
    ensures forall i :: 0 <= i < |ids| ==> ids[i] == m.authorities[i].id
  {
    seq(|m.authorities|, i requires 0 <= i < |m.authorities| => m.authorities[i].id)
  }

  lemma ParentsStayDeclared(m: SignatifManifest)
    requires ParentsDeclared(m)
    ensures Closed(ParentsOf(m), set x | x in Ids(m))
    ensures forall x :: ParentsOf(m)(x) != [] ==> x in Ids(m)
  {
    forall x, p | p in ParentsOf(m)(x)
      ensures x in Ids(m) && p in Ids(m)
    {
      var a := FindAuthority(m.authorities, x).value;
      var i :| 0 <= i < |m.authorities| && m.authorities[i] == a;
      assert Ids(m)[i] == x;
      var j :| 0 <= j < |a.parents| && a.parents[j] == p;
      assert AllDeclared(m, m.authorities[i].parents);
      assert Declared(m, p);
      var k :| 0 <= k < |m.authorities| && m.authorities[k].id == p;
      assert Ids(m)[k] == p;
    }
    forall x | ParentsOf(m)(x) != []
      ensures x in Ids(m)
    {
      assert ParentsOf(m)(x)[0] in ParentsOf(m)(x);
    }
  }

  method CheckAcyclic(m: SignatifManifest) returns (ok: bool)
    requires ParentsDeclared(m)
    ensures ok <==> !HasCycle(ParentsOf(m))
  {
    ParentsStayDeclared(m);
    var search := new CycleSearch(ParentsOf(m));
    ghost var universe := set x | x in Ids(m);
    CycleIsMet(ParentsOf(m), Ids(m));
    ok := search.VisitAll(Ids(m), universe);
  }

  method CheckParents(m: SignatifManifest) returns (r: Result<(), ManifestError>)
    ensures r.Ok? <==> ParentsDeclared(m)
    ensures r.Err? ==> r.error.UnknownParent? && FirstUnknownParent(m, r.error.child, r.error.parent)
  {
    var i := 0;
    while i < |m.authorities|
      invariant 0 <= i <= |m.authorities|
      invariant forall k :: 0 <= k < i ==> AllDeclared(m, m.authorities[k].parents)
    {
      var a := m.authorities[i];
      var j := 0;
      while j < |a.parents|
        invariant 0 <= j <= |a.parents|
        invariant AllDeclared(m, a.parents[..j])
      {
        if !Declared(m, a.parents[j]) {
          assert DeclaredBefore(m, i, j);
          return Err(UnknownParent(a.id, a.parents[j]));
        }
        j := j + 1;
      }
      assert a.parents[..j] == a.parents;
      i := i + 1;
    }
    return Ok(());
  }

  method CheckQuorums(m: SignatifManifest) returns (r: Result<(), ManifestError>)
    ensures r.Ok? <==> QuorumsConsistent(m)
    ensures r.Err? ==> r.error.InvalidQuorum? && FirstBadQuorum(m, r.error.t, r.error.n)
  {
    var i := 0;
    while i < |m.authorities|
      invariant 0 <= i <= |m.authorities|
      invariant forall k :: 0 <= k < i ==> QuorumConsistent(m.authorities[k].quorum)
    {
      var q := m.authorities[i].quorum;
      if q.Some? && (q.value.t == 0 || q.value.t > q.value.n) {
        assert q == Some(Quorum(q.value.t, q.value.n));
        return Err(InvalidQuorum(q.value.t, q.value.n));
      }
      i := i + 1;
    }
    return Ok(());
  }

  method CheckLinks(m: SignatifManifest, keysOf: ScopeDimensions -> seq<string>) returns (r: Result<(), ManifestError>)
    requires ListsExtensions(keysOf) && ParentsDeclared(m)
    ensures r.Ok? <==> LinksNarrow(m)
    ensures r.Err? ==>
      r.error.ScopeWidening? && FirstWidening(m, keysOf, r.error.parent, r.error.child, r.error.dimension)
  {
    hide Narrows, IsFirstWidened;
    var i := 0;
    while i < |m.authorities|
      invariant 0 <= i <= |m.authorities|
      invariant forall k :: 0 <= k < i ==> AuthorityNarrows(m, m.authorities[k])
    {
      var a := m.authorities[i];
      var j := 0;
      while j < |a.parents|
        invariant 0 <= j <= |a.parents|
        invariant forall n :: 0 <= n < j ==> LinkNarrows(m, a, a.parents[n])
      {
        assert AllDeclared(m, a.parents);
        var parent := FindAuthority(m.authorities, a.parents[j]).value;
        var dimension := FirstWidenedDimension(a.scope, parent.scope, keysOf(a.scope));
        if dimension.Some? {
          assert !LinkNarrows(m, a, a.parents[j]) && NarrowBefore(m, i, j);
          return Err(ScopeWidening(a.parents[j], a.id, dimension.value));
        }
        j := j + 1;
      }
      i := i + 1;
    }
    return Ok(());
  }

  lemma RootsExist(m: SignatifManifest)
    ensures HasRoot(m) <==> Roots(m.authorities) != []
    ensures HasRoot(m) <==> !forall i :: 0 <= i < |m.authorities| ==> m.authorities[i].parents != []
  {
    var rs := Roots(m.authorities);
    hide Roots;
    if HasRoot(m) {
      var i :| 0 <= i < |m.authorities| && m.authorities[i].parents == [];
      assert m.authorities[i] in rs;
    }
    if rs != [] { assert rs[0] in rs; }
  }

  lemma QuorumsMeaning(m: SignatifManifest)
    ensures QuorumsConsistent(m) <==>
      forall i :: 0 <= i < |m.authorities| && m.authorities[i].quorum.Some? ==>
        1 <= m.authorities[i].quorum.value.t <= m.authorities[i].quorum.value.n
  {
  }

  method Validate(m: SignatifManifest, keysOf: ScopeDimensions -> seq<string>) returns (r: Result<(), ManifestError>)
    requires ListsExtensions(keysOf)
    ensures IsVerdict(m, keysOf, r) && (r.Ok? <==> Accepted(m))
    ensures r == Err(NoRoot) <==> forall i :: 0 <= i < |m.authorities| ==> m.authorities[i].parents != []
    ensures r.Ok? ==> forall i :: 0 <= i < |m.authorities| && m.authorities[i].quorum.Some? ==>
      1 <= m.authorities[i].quorum.value.t <= m.authorities[i].quorum.value.n
    ensures r.Ok? && m.multiLogPolicy.Some? ==> 1 <= m.multiLogPolicy.value.m <= m.multiLogPolicy.value.k
  {
    hide ListsExtensions, HasCycle, ParentsOf, HasRoot, Roots, ParentsDeclared, QuorumsConsistent, LinksNarrow,
         FirstUnknownParent, FirstBadQuorum, FirstWidening;
    RootsExist(m);
    QuorumsMeaning(m);
    if Roots(m.authorities) == [] {
      return Err(NoRoot);
    }
    r := CheckParents(m);
    if r.Err? {
      return r;
    }
    r := CheckQuorums(m);
    if r.Err? {
      return r;
    }
    if m.multiLogPolicy.Some? {
      var p := m.multiLogPolicy.value;
      if p.m == 0 || p.m > p.k {
        assert m.multiLogPolicy == Some(MultiLogPolicy(p.m, p.k));
        return Err(InvalidMultiLogPolicy(p.m, p.k));
      }
    }
    var acyclic := CheckAcyclic(m);
    if !acyclic {
      return Err(TrustCycle);
    }
    r := CheckLinks(m, keysOf);
  }

  // ---------- what is accepted ----------

  /** The roots of a longer document: a last declaration without parents comes last. */
  lemma {:induction false} RootsAppend(authorities: seq<Authority>, a: Authority)
    ensures Roots(authorities + [a]) == Roots(authorities) + (if a.parents == [] then [a] else [])
    decreases |authorities|
  {
    if authorities != [] {
      RootsAppend(authorities[1..], a);
      assert (authorities + [a])[1..] == authorities[1..] + [a];
    }
  }

  /** j is where the first declaration of an identifier stands. */
  ghost predicate DeclaredFirstAt(m: SignatifManifest, id: string, j: int)
  {
    && 0 <= j < |m.authorities| && m.authorities[j].id == id
    && forall k :: 0 <= k < j ==> m.authorities[k].id != id
  }

  lemma {:induction false} FoundFirst(m: SignatifManifest, id: string, j: int)
    requires DeclaredFirstAt(m, id, j)
    ensures FindAuthority(m.authorities, id) == Some(m.authorities[j])
    decreases |m.authorities|
  {
    if j > 0 {
      var rest := m.(authorities := m.authorities[1..]);
      assert DeclaredFirstAt(rest, id, j - 1);
      FoundFirst(rest, id, j - 1);
    }
  }

  lemma {:induction false} FirstExists(m: SignatifManifest, id: string, n: nat)
    requires n <= |m.authorities| && exists i :: 0 <= i < n && m.authorities[i].id == id
    ensures exists j :: DeclaredFirstAt(m, id, j)
  {
    if i :| 0 <= i < n - 1 && m.authorities[i].id == id {
      FirstExists(m, id, n - 1);
    } else {
      assert DeclaredFirstAt(m, id, n - 1);
    }
  }

  /** A manifest is accepted if and only if some declaration has no parents, all parents are
      declared, quorums and policy are possible, there is no cycle, and on every link the
      child narrows the first declaration of the parent. */
  lemma AcceptedMeans(m: SignatifManifest)
    ensures Accepted(m) <==>
      && (exists i :: 0 <= i < |m.authorities| && m.authorities[i].parents == [])
      && (forall i, j :: 0 <= i < |m.authorities| && 0 <= j < |m.authorities[i].parents| ==>
            exists k :: 0 <= k < |m.authorities| && m.authorities[k].id == m.authorities[i].parents[j])
      && (forall i :: 0 <= i < |m.authorities| && m.authorities[i].quorum.Some? ==>
            1 <= m.authorities[i].quorum.value.t <= m.authorities[i].quorum.value.n)
      && (m.multiLogPolicy.Some? ==> 1 <= m.multiLogPolicy.value.m <= m.multiLogPolicy.value.k)
      && !HasCycle(ParentsOf(m))
      && (forall i, j, k ::
            0 <= i < |m.authorities| && 0 <= j < |m.authorities[i].parents|
            && DeclaredFirstAt(m, m.authorities[i].parents[j], k)
            ==> Narrows(m.authorities[i].scope, m.authorities[k].scope))
  {
    hide HasCycle, ParentsOf, Narrows, QuorumsConsistent, LinksNarrow, ParentsDeclared;
    QuorumsMeaning(m);
    ParentsMeaning(m);
    LinksMeaning(m);
  }

  lemma ParentsMeaning(m: SignatifManifest)
    ensures ParentsDeclared(m) <==>
      forall i, j :: 0 <= i < |m.authorities| && 0 <= j < |m.authorities[i].parents| ==>
        exists k :: 0 <= k < |m.authorities| && m.authorities[k].id == m.authorities[i].parents[j]
  {
  }

  lemma LinksMeaning(m: SignatifManifest)
    ensures LinksNarrow(m) <==>
      forall i, j, k ::
        0 <= i < |m.authorities| && 0 <= j < |m.authorities[i].parents|
        && DeclaredFirstAt(m, m.authorities[i].parents[j], k)
        ==> Narrows(m.authorities[i].scope, m.authorities[k].scope)
  {
    hide Narrows, FindAuthority;
    forall id, k | DeclaredFirstAt(m, id, k)
      ensures FindAuthority(m.authorities, id) == Some(m.authorities[k])
    {
      FoundFirst(m, id, k);
    }
    forall id | FindAuthority(m.authorities, id).Some?
      ensures exists k :: DeclaredFirstAt(m, id, k)
    {
      var a := FindAuthority(m.authorities, id).value;
      var i :| 0 <= i < |m.authorities| && m.authorities[i] == a;
      FirstExists(m, id, |m.authorities|);
    }
    if !LinksNarrow(m) {
      var i :| 0 <= i < |m.authorities| && !AuthorityNarrows(m, m.authorities[i]);
      var j :| 0 <= j < |m.authorities[i].parents| && !LinkNarrows(m, m.authorities[i], m.authorities[i].parents[j]);
      var k :| DeclaredFirstAt(m, m.authorities[i].parents[j], k);
    }
  }

  /** With distinct identifiers acceptance does not depend on the order of the declarations. */
  lemma OrderIrrelevant(m: SignatifManifest, other: SignatifManifest)
    requires NoDuplicates(Ids(m)) && multiset(m.authorities) == multiset(other.authorities)
    requires m.multiLogPolicy == other.multiLogPolicy
    ensures Accepted(m) <==> Accepted(other)
  {
    hide HasCycle, ParentsOf, FindAuthority, Narrows, Ids;
    SameMembers(m.authorities, other.authorities);
    forall id
      ensures FindAuthority(m.authorities, id) == FindAuthority(other.authorities, id)
    {
      SameFound(m, other, id);
    }
    SameParents(m, other);
    HoldsOfOther(m, other);
    HoldsOfOther(other, m);
  }

  lemma SameMembers<T>(xs: seq<T>, ys: seq<T>)
    requires multiset(xs) == multiset(ys)
    ensures forall x :: x in xs <==> x in ys
  {
    forall x
      ensures x in xs <==> x in ys
    {
      assert x in xs <==> x in multiset(xs);
      assert x in ys <==> x in multiset(ys);
    }
  }

  lemma SameFound(m: SignatifManifest, other: SignatifManifest, id: string)
    requires NoDuplicates(Ids(m)) && forall a :: a in m.authorities <==> a in other.authorities
    ensures FindAuthority(m.authorities, id) == FindAuthority(other.authorities, id)
  {
    var (r, s) := (FindAuthority(m.authorities, id), FindAuthority(other.authorities, id));
    hide FindAuthority;
    if r.Some? && s.Some? {
      var i :| 0 <= i < |m.authorities| && m.authorities[i] == r.value;
      var j :| 0 <= j < |m.authorities| && m.authorities[j] == s.value;
      assert Ids(m)[i] == Ids(m)[j];
    }
  }

  lemma SameParents(m: SignatifManifest, other: SignatifManifest)
    requires forall id :: FindAuthority(m.authorities, id) == FindAuthority(other.authorities, id)
    ensures HasCycle(ParentsOf(m)) <==> HasCycle(ParentsOf(other))
  {
    hide HasCycle, FindAuthority;
    SameCycles(ParentsOf(m), ParentsOf(other));
    SameCycles(ParentsOf(other), ParentsOf(m));
  }

  /** Apart from the cycle search the conditions speak of the set of declarations and of what is found. */
  lemma HoldsOfOther(m: SignatifManifest, other: SignatifManifest)
    requires forall a :: a in m.authorities <==> a in other.authorities
    requires forall id :: FindAuthority(m.authorities, id) == FindAuthority(other.authorities, id)
    ensures HasRoot(m) ==> HasRoot(other)
    ensures QuorumsConsistent(m) ==> QuorumsConsistent(other)
    ensures ParentsDeclared(m) ==> ParentsDeclared(other)
    ensures LinksNarrow(m) ==> LinksNarrow(other)
  {
    hide Narrows, FindAuthority, QuorumConsistent, AllDeclared, AuthorityNarrows;
    if HasRoot(m) {
      var i :| 0 <= i < |m.authorities| && m.authorities[i].parents == [];
      assert m.authorities[i] in other.authorities;
    }
    forall i | 0 <= i < |other.authorities|
      ensures exists k :: 0 <= k < |m.authorities| && m.authorities[k] == other.authorities[i]
    {
      assert other.authorities[i] in m.authorities;
    }
    forall a
      ensures AuthorityNarrows(m, a) ==> AuthorityNarrows(other, a)
      ensures AllDeclared(m, a.parents) ==> AllDeclared(other, a.parents)
    {
      if AuthorityNarrows(m, a) { NarrowsInOther(m, other, a); }
      if AllDeclared(m, a.parents) { DeclaredInOther(m, other, a.parents); }
    }
  }

  lemma NarrowsInOther(m: SignatifManifest, other: SignatifManifest, a: Authority)
    requires forall id :: FindAuthority(m.authorities, id) == FindAuthority(other.authorities, id)
    requires AuthorityNarrows(m, a)
    ensures AuthorityNarrows(other, a)
  {
    hide Narrows, FindAuthority;
    assert forall j :: 0 <= j < |a.parents| ==> LinkNarrows(m, a, a.parents[j]);
  }

  lemma DeclaredInOther(m: SignatifManifest, other: SignatifManifest, ps: seq<string>)
    requires forall a :: a in m.authorities <==> a in other.authorities
    requires AllDeclared(m, ps)
    ensures AllDeclared(other, ps)
  {
    forall j | 0 <= j < |ps|
      ensures Declared(other, ps[j])
    {
      assert Declared(m, ps[j]);
      var i :| 0 <= i < |m.authorities| && m.authorities[i].id == ps[j];
      assert m.authorities[i] in other.authorities;
    }
  }

  // ---------- delegation chains ----------

  lemma {:induction false} WalkStaysDeclared(m: SignatifManifest, w: seq<string>)
    requires ParentsDeclared(m) && |w| > 0 && IsWalk(ParentsOf(m), w) && w[0] in Ids(m)
    ensures forall i :: 0 <= i < |w| ==> w[i] in Ids(m)
    decreases |w|
  {
    if |w| > 1 {
      ParentsStayDeclared(m);
      assert w[1] in ParentsOf(m)(w[0]);
      WalkTail(ParentsOf(m), w);
      WalkStaysDeclared(m, w[1..]);
      assert forall i :: 0 < i < |w| ==> w[i] == w[1..][i - 1];
    }
  }

  lemma {:induction false} DistinctCount(s: seq<string>)
    ensures |set x | x in s| <= |s|
    decreases |s|
  {
    if s != [] {
      DistinctCount(s[1..]);
      assert (set x | x in s) == {s[0]} + (set x | x in s[1..]);
    }
  }

  /** In an accepted manifest every chain of parents takes fewer steps than
      there are authorities. */
  lemma ChainsAreShort(m: SignatifManifest, w: seq<string>)
    requires Accepted(m) && |w| > 0 && IsWalk(ParentsOf(m), w) && w[0] in Ids(m)
    ensures |w| - 1 < |m.authorities|
  {
    WalkStaysDeclared(m, w);
    WalkBounded(ParentsOf(m), w, set x | x in Ids(m));
    DistinctCount(Ids(m));
  }

  /** Following parents from any authority reaches a root. */
  lemma {:induction false} ChainReachesRoot(m: SignatifManifest, w: seq<string>) returns (v: seq<string>)
    requires Accepted(m) && |w| > 0 && IsWalk(ParentsOf(m), w) && w[0] in Ids(m)
    ensures |v| > 0 && IsWalk(ParentsOf(m), v) && w <= v && v[|v| - 1] in Ids(m) && ParentsOf(m)(v[|v| - 1]) == []
    decreases |m.authorities| - |w|
  {
    hide *;
    AcceptedParts(m);
    var last := w[|w| - 1];
    var ps := ParentsOf(m)(last);
    WalkStaysDeclared(m, w);
    if ps == [] {
      v := w;
    } else {
      WalkExtended(ParentsOf(m), w, ps[0]);
      ChainsAreShort(m, w + [ps[0]]);
      v := ChainReachesRoot(m, w + [ps[0]]);
    }
  }

  function ScopeOf(m: SignatifManifest, id: string): (s: ScopeDimensions)
    requires id in Ids(m)
  {
    FindAuthority(m.authorities, id).value.scope
  }

  lemma LinkScopes(m: SignatifManifest, x: string, p: string)
    requires Accepted(m) && x in Ids(m) && p in Ids(m) && p in ParentsOf(m)(x)
    ensures Narrows(ScopeOf(m, x), ScopeOf(m, p))
  {
    AcceptedParts(m);
    hide Narrows, HasCycle;
    var a := FindAuthority(m.authorities, x).value;
    var i :| 0 <= i < |m.authorities| && m.authorities[i] == a;
    assert AuthorityNarrows(m, m.authorities[i]);
    var j :| 0 <= j < |a.parents| && a.parents[j] == p;
    assert LinkNarrows(m, a, a.parents[j]);
  }

  /** Above its first link, a chain whose links carry the constrained extension
      dimensions narrows monotonically from its start to every ancestor. */
  lemma {:induction false} AncestorsNarrow(m: SignatifManifest, w: seq<string>, k: nat)
    requires Accepted(m) && IsWalk(ParentsOf(m), w) && 1 <= k < |w|
    requires forall i :: 0 <= i < |w| ==> w[i] in Ids(m)
    requires forall i :: 1 <= i < |w| - 1 ==> Carries(ScopeOf(m, w[i]), ScopeOf(m, w[i + 1]))
    ensures Narrows(ScopeOf(m, w[0]), ScopeOf(m, w[k]))
  {
    var x, p := w[k - 1], w[k];
    assert w[k - 1 + 1] in ParentsOf(m)(w[k - 1]);
    LinkScopes(m, x, p);
    if k > 1 {
      AncestorsNarrow(m, w, k - 1);
      assert Carries(ScopeOf(m, w[k - 1]), ScopeOf(m, w[k - 1 + 1]));
      NarrowingIsInheritedIff(ScopeOf(m, x), ScopeOf(m, p));
    }
  }

  /** Along a fixed chain from w[1] upwards, every scope that narrows w[1] narrows all its
      ancestors if and only if w[1] narrows each of them, hidden extensions aside, and
      declares the extension dimensions each constrains. */
  lemma ChainNarrowsExactly(m: SignatifManifest, w: seq<string>)
    requires |w| > 1 && forall i :: 0 <= i < |w| ==> w[i] in Ids(m)
    ensures
      var p := ScopeOf(m, w[1]);
      (forall c, k :: Narrows(c, p) && 1 <= k < |w| ==> Narrows(c, ScopeOf(m, w[k]))) <==>
      forall k :: 2 <= k < |w| ==> Narrows(Visible(p), ScopeOf(m, w[k])) && Carries(p, ScopeOf(m, w[k]))
  {
    hide Narrows, Carries, Visible, ScopeOf;
    var p := ScopeOf(m, w[1]);
    forall k | 2 <= k < |w|
      ensures (forall c :: Narrows(c, p) ==> Narrows(c, ScopeOf(m, w[k]))) <==>
        Narrows(Visible(p), ScopeOf(m, w[k])) && Carries(p, ScopeOf(m, w[k]))
    {
      NarrowingIsInheritedIff(p, ScopeOf(m, w[k]));
    }
  }

  // ---------- where acceptance says less ----------

  function Unconstrained(): (s: ScopeDimensions)
  {
    ScopeDimensions(Wildcard, Wildcard, Wildcard, Wildcard, Wildcard, map[])
  }

  /** A three-link chain is accepted as soon as both links narrow. */
  lemma ChainAccepted(g: Authority, p: Authority, c: Authority)
    requires g.id != p.id && g.id != c.id && p.id != c.id
    requires g.parents == [] && p.parents == [g.id] && c.parents == [p.id]
    requires g.quorum.None? && p.quorum.None? && c.quorum.None?
    requires Narrows(p.scope, g.scope) && Narrows(c.scope, p.scope)
    ensures Accepted(SignatifManifest([g, p, c], None))
    ensures IsWalk(ParentsOf(SignatifManifest([g, p, c], None)), [c.id, p.id, g.id])
  {
    hide Narrows, FindAuthority, ParentsOf, Ids, Declared, IsWalk, HasCycle, ScopeOf;
    var m := SignatifManifest([g, p, c], None);
    var succ := ParentsOf(m);
    ThreeParents(g, p, c);
    assert m.authorities[0] == g && m.authorities[1] == p && m.authorities[2] == c;
    assert LinkNarrows(m, p, g.id) && LinkNarrows(m, c, p.id);
    assert HasRoot(m) && ParentsDeclared(m) && QuorumsConsistent(m) && LinksNarrow(m);
    ChainTopological(succ, g.id, p.id, c.id);
    TopologicalIsAcyclic(succ, [g.id, p.id, c.id]);
  }

  lemma ThreeParents(g: Authority, p: Authority, c: Authority)
    requires g.id != p.id && g.id != c.id && p.id != c.id
    requires g.parents == [] && p.parents == [g.id] && c.parents == [p.id]
    ensures
      var m := SignatifManifest([g, p, c], None);
      var succ := ParentsOf(m);
      && FindAuthority(m.authorities, g.id) == Some(g) && FindAuthority(m.authorities, p.id) == Some(p)
      && Declared(m, g.id) && Declared(m, p.id)
      && succ(g.id) == [] && succ(p.id) == [g.id] && succ(c.id) == [p.id]
      && IsWalk(succ, [c.id, p.id, g.id])
      && forall x :: succ(x) != [] ==> x in [g.id, p.id, c.id]
  {
    ThreeIds(g, p, c);
    var m := SignatifManifest([g, p, c], None);
    assert m.authorities[0] == g && m.authorities[1] == p && m.authorities[2] == c;
    forall x | ParentsOf(m)(x) != []
      ensures x in [g.id, p.id, c.id]
    {
      ParentsStayDeclared(m);
      var i :| 0 <= i < |Ids(m)| && Ids(m)[i] == x;
      assert x == m.authorities[i].id;
    }
  }

  lemma ChainTopological(succ: string -> seq<string>, g: string, p: string, c: string)
    requires succ(g) == [] && succ(p) == [g] && succ(c) == [p]
    ensures IsTopological(succ, [g, p, c])
  {
    TopologicalExtended(succ, [], g);
    assert [] + [g] == [g] && g in [g];
    TopologicalExtended(succ, [g], p);
    assert [g] + [p] == [g, p] && p in [g, p];
    TopologicalExtended(succ, [g, p], c);
    assert [g, p] + [c] == [g, p, c];
  }

  /** Only the narrowing of each link is checked: an extension dimension that
      the middle authority omits may be widened below it. */
  lemma GrandchildMayWiden(g: Authority, p: Authority, c: Authority)
    requires g == Authority("g", None, [], Unconstrained().(extra := map["x" := Single("a")]))
    requires p == Authority("p", None, ["g"], Unconstrained())
    requires c == Authority("c", None, ["p"], Unconstrained().(extra := map["x" := Single("b")]))
    ensures Accepted(SignatifManifest([g, p, c], None))
    ensures IsWalk(ParentsOf(SignatifManifest([g, p, c], None)), [c.id, p.id, g.id])
    ensures !Narrows(c.scope, g.scope)
  {
    assert Get(p.scope, "x") == None && Get(g.scope, "x") == Some(Single("a"));
    assert Narrows(p.scope, g.scope) && Narrows(c.scope, p.scope);
    assert "x" in c.scope.extra && Widens(c.scope.extra["x"], Get(g.scope, "x"));
    ChainAccepted(g, p, c);
  }

  lemma ThreeIds(a: Authority, b: Authority, c: Authority)
    requires a.id != b.id && a.id != c.id && b.id != c.id
    ensures FindAuthority([a, b, c], a.id) == Some(a)
    ensures FindAuthority([a, b, c], b.id) == Some(b)
    ensures FindAuthority([a, b, c], c.id) == Some(c)
  {
    assert [a, b, c][1..] == [b, c] && [b, c][1..] == [c];
  }

  // ---------- the declared graph ----------

  /** The parents named by all declarations of an identifier. */
  function AllParents(authorities: seq<Authority>, id: string): (ps: seq<string>)
  {
    if authorities == [] then []
    else (if authorities[0].id == id then authorities[0].parents else []) + AllParents(authorities[1..], id)
  }

  function DeclaredGraph(m: SignatifManifest): (succ: string -> seq<string>)
  {
    (id: string) => AllParents(m.authorities, id)
  }

  ghost predicate NoDuplicates(ids: seq<string>)
  {
    forall i, j :: 0 <= i < j < |ids| ==> ids[i] != ids[j]
  }

  lemma {:induction false} NoneDeclared(authorities: seq<Authority>, id: string)
    requires forall i :: 0 <= i < |authorities| ==> authorities[i].id != id
    ensures AllParents(authorities, id) == []
  {
    if authorities != [] { NoneDeclared(authorities[1..], id); }
  }

  lemma {:induction false} OneDeclaration(authorities: seq<Authority>, id: string)
    requires forall i, j :: 0 <= i < j < |authorities| ==> authorities[i].id != authorities[j].id
    ensures AllParents(authorities, id) ==
      match FindAuthority(authorities, id) case Some(a) => a.parents case None => []
  {
    if authorities != [] {
      if authorities[0].id == id {
        NoneDeclared(authorities[1..], id);
      } else {
        OneDeclaration(authorities[1..], id);
      }
    }
  }

  /** The search over first declarations finds exactly the cycles of the declared graph. */
  ghost predicate SearchIsExact(m: SignatifManifest)
  {
    HasCycle(ParentsOf(m)) <==> HasCycle(DeclaredGraph(m))
  }

  lemma DistinctIsExact(m: SignatifManifest)
    requires NoDuplicates(Ids(m))
    ensures SearchIsExact(m)
  {
    hide HasCycle, FindAuthority;
    forall x
      ensures ParentsOf(m)(x) == DeclaredGraph(m)(x)
    {
      forall i, j | 0 <= i < j < |m.authorities|
        ensures m.authorities[i].id != m.authorities[j].id
      {
        assert Ids(m)[i] != Ids(m)[j];
      }
      OneDeclaration(m.authorities, x);
    }
    SameCycles(ParentsOf(m), DeclaredGraph(m));
    SameCycles(DeclaredGraph(m), ParentsOf(m));
  }

  /** Of two equal identifiers, the later declaration names itself as its parent. */
  function Hiding(ids: seq<string>, j: nat): (m: SignatifManifest)
    requires j < |ids|
    ensures |m.authorities| == |ids| && m.multiLogPolicy.None?
    ensures forall k :: 0 <= k < |ids| ==>
      m.authorities[k] == Authority(ids[k], None, if k == j then [ids[j]] else [], Unconstrained())
  {
    SignatifManifest(
      seq(|ids|, k requires 0 <= k < |ids| => Authority(ids[k], None, if k == j then [ids[j]] else [], Unconstrained())),
      None)
  }

  lemma {:induction false} ParentsCollected(authorities: seq<Authority>, j: nat, p: string)
    requires j < |authorities| && p in authorities[j].parents
    ensures p in AllParents(authorities, authorities[j].id)
  {
    if j > 0 { ParentsCollected(authorities[1..], j - 1, p); }
  }

  lemma {:induction false} FirstFound(authorities: seq<Authority>, i: nat) returns (k: nat)
    requires i < |authorities|
    ensures k <= i && FindAuthority(authorities, authorities[i].id) == Some(authorities[k])
  {
    if authorities[0].id == authorities[i].id {
      k := 0;
    } else {
      var n := FirstFound(authorities[1..], i - 1);
      k := n + 1;
    }
  }

  /** A declared cycle the search does not see, as soon as an identifier is repeated. */
  lemma RepeatedIdHidesCycle(ids: seq<string>, i: nat, j: nat)
    requires i < j < |ids| && ids[i] == ids[j]
    ensures
      var m := Hiding(ids, j);
      Ids(m) == ids && !HasCycle(ParentsOf(m)) && HasCycle(DeclaredGraph(m))
    ensures Accepted(Hiding(ids, j))
  {
    hide HasCycle, FindAuthority, AllParents, Hiding, Accepted;
    var m := Hiding(ids, j);
    FirstsHaveNoParents(ids, i, j);
    TopologicalIsAcyclic(ParentsOf(m), []);
    assert ids[j] in m.authorities[j].parents;
    ParentsCollected(m.authorities, j, ids[j]);
    SelfLoop(DeclaredGraph(m), ids[j]);
    HidingIsAccepted(ids, j, m);
  }

  lemma SelfLoop(succ: string -> seq<string>, x: string)
    requires x in succ(x)
    ensures HasCycle(succ)
  {
    assert IsCycle(succ, [x, x]);
  }

  lemma FirstsHaveNoParents(ids: seq<string>, i: nat, j: nat)
    requires i < j < |ids| && ids[i] == ids[j]
    ensures forall x :: ParentsOf(Hiding(ids, j))(x) == []
  {
    hide Hiding;
    var m := Hiding(ids, j);
    forall x
      ensures ParentsOf(m)(x) == []
    {
      if FindAuthority(m.authorities, x).Some? {
        var a := FindAuthority(m.authorities, x).value;
        var n :| 0 <= n < |m.authorities| && m.authorities[n] == a;
        var k := FirstFound(m.authorities, if n == j then i else n);
      }
    }
  }

  lemma HidingIsAccepted(ids: seq<string>, j: nat, m: SignatifManifest)
    requires j < |ids| && m == Hiding(ids, j) && !HasCycle(ParentsOf(m)) && ParentsOf(m)(ids[j]) == [] && |ids| > 1
    ensures Accepted(m)
  {
    hide HasCycle, Hiding;
    assert m.authorities[if j == 0 then 1 else 0].parents == [];
    assert m.authorities[j].id == ids[j] && Declared(m, ids[j]);
    forall k | 0 <= k < |m.authorities|
      ensures AllDeclared(m, m.authorities[k].parents) && QuorumConsistent(m.authorities[k].quorum)
      ensures AuthorityNarrows(m, m.authorities[k])
    {
      assert forall n :: 0 <= n < |m.authorities[k].parents| ==> m.authorities[k].parents[n] == ids[j];
      forall n | 0 <= n < |m.authorities[k].parents|
        ensures LinkNarrows(m, m.authorities[k], m.authorities[k].parents[n])
      {
        UnconstrainedNarrows(m.authorities[k].scope, m);
      }
    }
  }

  lemma UnconstrainedNarrows(s: ScopeDimensions, m: SignatifManifest)
    requires s == Unconstrained()
    requires forall k :: 0 <= k < |m.authorities| ==> m.authorities[k].scope == Unconstrained()
    ensures forall p :: FindAuthority(m.authorities, p).Some? ==> Narrows(s, FindAuthority(m.authorities, p).value.scope)
  {
    forall p | FindAuthority(m.authorities, p).Some?
      ensures FindAuthority(m.authorities, p).value.scope == Unconstrained()
    {
      var a := FindAuthority(m.authorities, p).value;
      var k :| 0 <= k < |m.authorities| && m.authorities[k] == a;
    }
  }

  /** Over all manifests that declare these identifiers, the search is exact for the declared
      graph if and only if no identifier is repeated. */
  lemma SearchExactly(ids: seq<string>)
    ensures (forall m :: Ids(m) == ids ==> SearchIsExact(m)) <==> NoDuplicates(ids)
  {
    hide HasCycle, ParentsOf, DeclaredGraph;
    if NoDuplicates(ids) {
      forall m | Ids(m) == ids
        ensures SearchIsExact(m)
      {
        DistinctIsExact(m);
      }
    } else {
      var i, j :| 0 <= i < j < |ids| && ids[i] == ids[j];
      RepeatedIdHidesCycle(ids, i, j);
      assert !SearchIsExact(Hiding(ids, j));
    }
  }
}
