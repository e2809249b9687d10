/**
 The trust graph: delegation edges are added only while the graph stays free
 of cycles, and path finding enumerates every chain from a signer to an
 anchored root.
 */
module TrustGraph {
  import opened Common
  import opened Scope
  import opened DelegationGraph
  import opened RouteOrder

  datatype AuthorityKind = Root | Delegated | EndCertificate

  datatype AuthorityNode = AuthorityNode(id: string, kind: AuthorityKind, publicKey: string, scope: ScopeDimensions)

  datatype DelegationEdge = DelegationEdge(parent: string, child: string, signature: string)

  datatype GraphError =
    | UnknownNode
    | CreatesCycle
    | NoPath
    | BadSignature(parent: string, child: string)
    | ScopeWidening(parent: string, child: string)

  type Edges = seq<DelegationEdge>

  /** The edges that end in a child, in insertion order. */
  function ParentsOf(edges: Edges, child: string): (r: Edges)
    ensures forall e :: e in r <==> e in edges && e.child == child
  {
    if edges == [] then []
    else (if edges[0].child == child then [edges[0]] else []) + ParentsOf(edges[1..], child)
  }

  function ParentIds(edges: Edges): (succ: string -> seq<string>)
  {
    (id: string) => seq(|ParentsOf(edges, id)|, i requires 0 <= i < |ParentsOf(edges, id)| => ParentsOf(edges, id)[i].parent)
  }

  lemma ParentIdsMeaning(edges: Edges, id: string, p: string)
    ensures p in ParentIds(edges)(id) <==> exists e :: e in edges && e.child == id && e.parent == p
  {
    var ps := ParentsOf(edges, id);
    if p in ParentIds(edges)(id) {
      var i :| 0 <= i < |ps| && ps[i].parent == p;
      assert ps[i] in edges;
    }
    if e :| e in edges && e.child == id && e.parent == p {
      var i :| 0 <= i < |ps| && ps[i] == e;
      assert ParentIds(edges)(id)[i] == p;
    }
  }

  /** The cycle check from all nodes, listed in the order `keys`; edges may name other
      identifiers as well. */
  method IsAcyclic(nodes: map<string, AuthorityNode>, edges: Edges, keys: seq<string>) returns (ok: bool)
    requires forall x :: x in keys <==> x in nodes
    ensures ok <==> forall k :: k in nodes ==> !MeetsCycle(ParentIds(edges), k)
  {
    hide ParentIds, MeetsCycle, ParentsOf;
    var succ := ParentIds(edges);
    ghost var universe := nodes.Keys + set e | e in edges :: e.parent;
    forall x, p | x in universe && p in succ(x)
      ensures p in universe
    {
      ParentIdsMeaning(edges, x, p);
    }
    var search := new CycleSearch(succ);
    ok := search.VisitAll(keys, universe);
    assert ok ==> forall k :: k in nodes ==> k in keys;
  }

  /** A cycle that a new edge closes goes through its child, and so is met from there. */
  lemma NewCycleIsMet(edges: Edges, edge: DelegationEdge)
    requires !HasCycle(ParentIds(edges)) && HasCycle(ParentIds(edges + [edge]))
    ensures MeetsCycle(ParentIds(edges + [edge]), edge.child)
  {
    hide ParentIds, ParentsOf;
    var (before, after) := (ParentIds(edges), ParentIds(edges + [edge]));
    var c: seq<string> :| IsCycle(after, c);
    assert (forall i :: 0 <= i < |c| - 1 ==> c[i + 1] in before(c[i])) ==> IsCycle(before, c);
    var i :| 0 <= i < |c| - 1 && c[i + 1] !in before(c[i]);
    ParentIdsMeaning(edges, c[i], c[i + 1]);
    ParentIdsMeaning(edges + [edge], c[i], c[i + 1]);
    assert c[i] == edge.child;
    Rotated(after, c, i);
  }

  lemma Rotated(succ: string -> seq<string>, c: seq<string>, i: nat)
    requires IsCycle(succ, c) && i < |c|
    ensures MeetsCycle(succ, c[i])
  {
    var w := c[i..];
    forall k | 0 <= k < |w| - 1
      ensures w[k + 1] in succ(w[k])
    {
      assert w[k] == c[i + k];
    }
    assert LeadsTo(succ, c[i], w, c);
  }

  lemma MetIsCycle(succ: string -> seq<string>)
    ensures forall x :: MeetsCycle(succ, x) ==> HasCycle(succ)
  {
    forall x | MeetsCycle(succ, x)
      ensures HasCycle(succ)
    {
      var w, c :| LeadsTo(succ, x, w, c);
    }
  }

  class Graph {
    var nodes: map<string, AuthorityNode>
    var edges: Edges

    ghost predicate Valid()
      reads this
    {
      (forall k :: k in nodes ==> nodes[k].id == k) && !HasCycle(ParentIds(edges))
    }

    constructor ()
      ensures Valid() && nodes == map[] && edges == []
    {
      nodes, edges := map[], [];
      new;
      NoEdgesNoCycle();
    }

    method AddNode(node: AuthorityNode)
      requires Valid()
      modifies this
      ensures Valid() && nodes == old(nodes)[node.id := node] && edges == old(edges)
    {
      nodes := nodes[node.id := node];
    }

    /** The edge is kept exactly when both ends are known and no cycle arises. */
    method AddDelegation(edge: DelegationEdge, keys: seq<string>) returns (r: Result<(), GraphError>)
      requires Valid() && forall x :: x in keys <==> x in nodes
      modifies this
      ensures Valid() && nodes == old(nodes)
      ensures r == if edge.parent !in nodes || edge.child !in nodes then Err(UnknownNode)
                   else if HasCycle(ParentIds(old(edges) + [edge])) then Err(CreatesCycle)
                   else Ok(())
      ensures edges == if r.Ok? then old(edges) + [edge] else old(edges)
    {
      if edge.parent !in nodes || edge.child !in nodes {
        return Err(UnknownNode);
      }
      hide HasCycle, MeetsCycle, ParentIds;
      edges := edges + [edge];
      var ok := IsAcyclic(nodes, edges, keys);
      if ok && HasCycle(ParentIds(edges)) { NewCycleIsMet(old(edges), edge); }
      MetIsCycle(ParentIds(edges));
      if !ok {
        edges := edges[..|edges| - 1];
        return Err(CreatesCycle);
      }
      return Ok(());
    }
  }

  lemma NoEdgesNoCycle()
    ensures !HasCycle(ParentIds([]))
  {
    TopologicalIsAcyclic(ParentIds([]), []);
  }

  // ---------- verification paths ----------

  /** A snapshot of the graph with the anchors and the signature check. */
  datatype View = View(
    nodes: map<string, AuthorityNode>,
    edges: Edges,
    anchored: string -> bool,
    signed: (AuthorityNode, AuthorityNode, string) -> bool)

  /** Nodes are stored under their identifiers and the edges have no cycle; an edge may name a
      parent or a child that is not a node. */
  ghost predicate ValidView(v: View)
  {
    (forall k :: k in v.nodes ==> v.nodes[k].id == k) && !HasCycle(ParentIds(v.edges))
  }

  /** ls leads upwards from a node, never continuing above a root. */
  ghost predicate IsChain(v: View, from: string, ls: Edges)
    decreases |ls|
  {
    && from in v.nodes
    && (ls != [] ==>
          && ls[0] in v.edges && ls[0].child == from && !v.nodes[from].kind.Root?
          && IsChain(v, ls[0].parent, ls[1..]))
  }

  function EndOf(from: string, ls: Edges): (id: string)
  {
    if ls == [] then from else ls[|ls| - 1].parent
  }

  /** A chain that ends at a root whose key is in the anchor bundle. */
  ghost predicate IsVerificationPath(v: View, from: string, ls: Edges)
  {
    && IsChain(v, from, ls)
    && EndOf(from, ls) in v.nodes && v.nodes[EndOf(from, ls)].kind.Root?
    && v.anchored(v.nodes[EndOf(from, ls)].publicKey)
  }

  predicate SignatureGood(v: View, e: DelegationEdge)
  {
    e.parent in v.nodes && e.child in v.nodes ==> v.signed(v.nodes[e.parent], v.nodes[e.child], e.signature)
  }

  predicate ScopeGood(v: View, e: DelegationEdge)
  {
    e.parent in v.nodes && e.child in v.nodes ==> Narrows(v.nodes[e.child].scope, v.nodes[e.parent].scope)
  }

  predicate LinkGood(v: View, e: DelegationEdge)
  {
    SignatureGood(v, e) && ScopeGood(v, e)
  }

  /** Every link that can be met going up from a node is good. */
  ghost predicate AllLinksGood(v: View, from: string)
  {
    forall ls :: IsChain(v, from, ls) && ls != [] ==> LinkGood(v, ls[|ls| - 1])
  }

  ghost predicate IsErrorOf(v: View, e: DelegationEdge, error: GraphError)
  {
    || (error == BadSignature(e.parent, e.child) && !SignatureGood(v, e))
    || (error == ScopeWidening(e.parent, e.child) && SignatureGood(v, e) && !ScopeGood(v, e))
  }

  lemma LinkErrors(v: View, e: DelegationEdge)
    ensures !SignatureGood(v, e) ==> IsErrorOf(v, e, BadSignature(e.parent, e.child))
    ensures SignatureGood(v, e) && !ScopeGood(v, e) ==> IsErrorOf(v, e, ScopeWidening(e.parent, e.child))
    ensures LinkGood(v, e) <==> SignatureGood(v, e) && ScopeGood(v, e)
  {
  }

  lemma {:induction false} ChainIsWalk(v: View, from: string, ls: Edges) returns (w: seq<string>)
    requires ValidView(v) && IsChain(v, from, ls)
    ensures |w| == |ls| + 1 && w[0] == from && IsWalk(ParentIds(v.edges), w)
    ensures forall i :: 0 <= i < |w| ==> w[i] in v.nodes
    decreases |ls|
  {
    if ls == [] {
      w := [from];
    } else {
      var rest := ChainIsWalk(v, ls[0].parent, ls[1..]);
      ParentIdsMeaning(v.edges, from, ls[0].parent);
      w := [from] + rest;
      forall i | 0 <= i < |w| - 1
        ensures w[i + 1] in ParentIds(v.edges)(w[i])
      {
        if i > 0 { assert w[i] == rest[i - 1] && w[i + 1] == rest[i - 1 + 1]; }
      }
    }
  }

  /** Chains are no longer than the number of nodes. */
  lemma ChainBounded(v: View, from: string, ls: Edges)
    requires ValidView(v) && IsChain(v, from, ls)
    ensures |ls| < |v.nodes|
  {
    var w := ChainIsWalk(v, from, ls);
    WalkBounded(ParentIds(v.edges), w, v.nodes.Keys);
  }

  lemma DanglingIsGood(v: View, e: DelegationEdge)
    ensures e.parent !in v.nodes ==> LinkGood(v, e)
  {
  }

  lemma AllLinksGoodByEdge(v: View, from: string)
    requires ValidView(v) && from in v.nodes && !v.nodes[from].kind.Root?
    ensures AllLinksGood(v, from)
            <==> forall e :: e in ParentsOf(v.edges, from) ==> LinkGood(v, e) && AllLinksGood(v, e.parent)
  {
    hide LinkGood, HasCycle, ParentIds;
    var es := ParentsOf(v.edges, from);
    hide ParentsOf;
    if AllLinksGood(v, from) {
      forall e | e in es
        ensures LinkGood(v, e) && AllLinksGood(v, e.parent)
      {
        assert [e][1..] == [];
        DanglingIsGood(v, e);
        assert e.parent in v.nodes ==> IsChain(v, from, [e]);
        forall ls | IsChain(v, e.parent, ls) && ls != []
          ensures LinkGood(v, ls[|ls| - 1])
        {
          var longer := [e] + ls;
          assert longer[1..] == ls;
          assert IsChain(v, from, longer);
          assert longer[|longer| - 1] == ls[|ls| - 1];
        }
      }
    } else {
      var ls :| IsChain(v, from, ls) && ls != [] && !LinkGood(v, ls[|ls| - 1]);
      var e := ls[0];
      assert e in es;
      if |ls| > 1 {
        assert ls[1..][|ls| - 2] == ls[|ls| - 1];
      }
    }
  }

  lemma {:induction false} ChainExtended(v: View, from: string, ls: Edges, e: DelegationEdge)
    requires ValidView(v) && IsChain(v, from, ls) && e in v.edges && e.child == EndOf(from, ls)
    requires e.parent in v.nodes && e.child in v.nodes && !v.nodes[e.child].kind.Root?
    ensures IsChain(v, from, ls + [e]) && EndOf(from, ls + [e]) == e.parent
    decreases |ls|
  {
    if ls == [] {
      assert (ls + [e])[1..] == [];
    } else {
      assert (ls + [e])[1..] == ls[1..] + [e];
      ChainExtended(v, ls[0].parent, ls[1..], e);
    }
  }

  // ---------- routes ----------

  ghost predicate IsRoute(v: View, p: Route)
  {
    forall i :: 0 <= i < |p| ==> 0 <= p[i] < |v.edges|
  }

  /** The edges at the positions of a route. */
  ghost function EdgesOf(v: View, p: Route): (ls: Edges)
    requires IsRoute(v, p)
  {
    seq(|p|, i requires 0 <= i < |p| => v.edges[p[i]])
  }

  /** p continues the route at by a verification path from a node. */
  ghost predicate Extends(v: View, from: string, at: Route, p: Route)
  {
    IsRoute(v, p) && at <= p && IsVerificationPath(v, from, EdgesOf(v, p)[|at|..])
  }

  /** ixs holds the positions of the edges that end in a child, which are those of es. */
  ghost predicate ArePositions(edges: Edges, child: string, es: Edges, ixs: Route)
  {
    && |ixs| == |es|
    && (forall i :: 0 <= i < |ixs| ==> 0 <= ixs[i] < |edges| && edges[ixs[i]] == es[i])
    && Increasing(ixs)
    && (forall k :: 0 <= k < |edges| && edges[k].child == child ==> k in ixs)
  }

  lemma {:induction false} Positions(edges: Edges, child: string) returns (ixs: Route)
    ensures ArePositions(edges, child, ParentsOf(edges, child), ixs)
    decreases |edges|
  {
    hide ArePositions;
    UnfoldParents(edges, child);
    hide ParentsOf;
    if edges == [] {
      ixs := [];
      NoPositions(child);
    } else {
      var es := ParentsOf(edges[1..], child);
      var rest := Positions(edges[1..], child);
      ixs := Shifted(rest);
      PositionsShift(edges, child, es, rest);
      if edges[0].child == child {
        PositionsFirst(edges, child, es, ixs);
        ixs := [0] + ixs;
      }
    }
  }

  lemma UnfoldParents(edges: Edges, child: string)
    ensures ParentsOf(edges, child)
            == if edges == [] then []
               else if edges[0].child == child then [edges[0]] + ParentsOf(edges[1..], child)
               else ParentsOf(edges[1..], child)
  {
  }

  lemma NoPositions(child: string)
    ensures ArePositions([], child, [], [])
  {
  }

  ghost function Shifted(rest: Route): (ixs: Route)
    ensures |ixs| == |rest| && forall i :: 0 <= i < |rest| ==> ixs[i] == rest[i] + 1
  {
    seq(|rest|, i requires 0 <= i < |rest| => rest[i] + 1)
  }

  /** The positions in all but the first edge. */
  ghost predicate AreLater(edges: Edges, child: string, es: Edges, ixs: Route)
  {
    && |ixs| == |es|
    && (forall i :: 0 <= i < |ixs| ==> 1 <= ixs[i] < |edges| && edges[ixs[i]] == es[i])
    && Increasing(ixs)
    && (forall k :: 1 <= k < |edges| && edges[k].child == child ==> k in ixs)
  }

  lemma PositionsShift(edges: Edges, child: string, es: Edges, rest: Route)
    requires edges != [] && ArePositions(edges[1..], child, es, rest)
    ensures AreLater(edges, child, es, Shifted(rest))
    ensures edges[0].child != child ==> ArePositions(edges, child, es, Shifted(rest))
  {
    hide Shifted;
    var ixs := Shifted(rest);
    forall i | 0 <= i < |ixs|
      ensures 1 <= ixs[i] < |edges| && edges[ixs[i]] == es[i]
    {
      assert edges[1..][rest[i]] == edges[rest[i] + 1];
    }
    forall k | 1 <= k < |edges| && edges[k].child == child
      ensures k in ixs
    {
      assert edges[1..][k - 1] == edges[k];
      var i :| 0 <= i < |rest| && rest[i] == k - 1;
      assert ixs[i] == k;
    }
  }

  lemma PositionsFirst(edges: Edges, child: string, es: Edges, ixs: Route)
    requires edges != [] && edges[0].child == child && AreLater(edges, child, es, ixs)
    ensures ArePositions(edges, child, [edges[0]] + es, [0] + ixs)
  {
    var all := [0] + ixs;
    forall k | 0 <= k < |edges| && edges[k].child == child
      ensures k in all
    {
      assert k == 0 ==> all[0] == k;
    }
  }

  /** p continues the route at through one of the first n positions. */
  ghost predicate ExtendsThrough(v: View, at: Route, ixs: Route, n: nat, p: Route)
    requires n <= |ixs| && IsRoute(v, ixs)
  {
    |at| < |p| && p[|at|] in ixs[..n] && Extends(v, v.edges[p[|at|]].parent, at + [p[|at|]], p)
  }

  /** The paths appended to out are those of the given routes, in that order. */
  ghost predicate Appended(v: View, out: seq<Edges>, routes: seq<Route>, found: seq<Edges>)
  {
    && |found| == |out| + |routes| && out <= found
    && forall k :: 0 <= k < |routes| ==> IsRoute(v, routes[k]) && found[|out| + k] == EdgesOf(v, routes[k])
  }

  /** The routes met after the first n positions, in order. */
  ghost predicate Gathered(v: View, at: Route, ixs: Route, n: nat, routes: seq<Route>)
  {
    && n <= |ixs| && IsRoute(v, ixs)
    && Sorted(routes) && forall p :: p in routes <==> ExtendsThrough(v, at, ixs, n, p)
  }

  /** All routes that continue the route at from a node, in order. */
  ghost predicate Complete(v: View, from: string, at: Route, routes: seq<Route>)
  {
    Sorted(routes) && forall p :: p in routes <==> Extends(v, from, at, p)
  }

  /** The list holds one path for each route to an anchored root, in the order of the routes. */
  ghost predicate ListsPaths(v: View, signer: string, routes: seq<Route>, list: seq<Edges>)
  {
    Complete(v, signer, [], routes) && Appended(v, [], routes, list)
  }

  lemma ExtendsAtRoot(v: View, from: string, at: Route, p: Route)
    requires from in v.nodes && v.nodes[from].kind.Root? && IsRoute(v, at)
    ensures Extends(v, from, at, p) <==> p == at && v.anchored(v.nodes[from].publicKey)
  {
    if IsRoute(v, p) && at <= p {
      var tail := EdgesOf(v, p)[|at|..];
      assert |tail| == |p| - |at|;
      assert |p| == |at| ==> p == at && tail == [];
    }
  }

  lemma ExtendsByEdge(v: View, from: string, at: Route, ixs: Route, p: Route)
    requires ValidView(v) && from in v.nodes && !v.nodes[from].kind.Root? && IsRoute(v, ixs)
    requires ArePositions(v.edges, from, ParentsOf(v.edges, from), ixs)
    ensures Extends(v, from, at, p) <==> ExtendsThrough(v, at, ixs, |ixs|, p)
  {
    hide HasCycle, ParentIds, ParentsOf;
    assert ixs[..|ixs|] == ixs;
    if |at| < |p| && IsRoute(v, p) {
      var (k, ls) := (p[|at|], EdgesOf(v, p));
      var tail := ls[|at|..];
      assert at + [k] <= p <==> at <= p;
      assert tail[0] == v.edges[k] && tail[1..] == ls[|at + [k]|..];
      assert EndOf(from, tail) == EndOf(v.edges[k].parent, tail[1..]);
      assert v.edges[k] in v.edges;
      assert k in ixs <==> v.edges[k].child == from;
    } else if IsRoute(v, p) && at <= p {
      assert EdgesOf(v, p)[|at|..] == [];
    }
  }

  lemma ThroughNext(v: View, at: Route, ixs: Route, i: nat, p: Route)
    requires i < |ixs| && IsRoute(v, ixs)
    ensures ExtendsThrough(v, at, ixs, i + 1, p)
            <==> ExtendsThrough(v, at, ixs, i, p) || Extends(v, v.edges[ixs[i]].parent, at + [ixs[i]], p)
  {
    assert ixs[..i + 1] == ixs[..i] + [ixs[i]];
    if Extends(v, v.edges[ixs[i]].parent, at + [ixs[i]], p) {
      assert p[|at|] == (at + [ixs[i]])[|at|];
    }
  }

  lemma LaterPosition(v: View, at: Route, ixs: Route, i: nat, a: Route, b: Route)
    requires i < |ixs| && IsRoute(v, ixs) && Increasing(ixs)
    requires ExtendsThrough(v, at, ixs, i, a) && Extends(v, v.edges[ixs[i]].parent, at + [ixs[i]], b)
    ensures Before(a, b)
  {
    var n := |at|;
    var x := a[n];
    assert a[n] < (at + [ixs[i]])[n] == b[n];
    assert (at + [x])[..n] == at == (at + [ixs[i]])[..n];
    assert a[..n] == at == b[..n];
    assert PartAt(a, b, n);
  }

  lemma GatheredNext(v: View, at: Route, ixs: Route, i: nat, routes: seq<Route>, more: seq<Route>)
    requires i < |ixs| && Increasing(ixs)
    requires Gathered(v, at, ixs, i, routes) && Complete(v, v.edges[ixs[i]].parent, at + [ixs[i]], more)
    ensures Gathered(v, at, ixs, i + 1, routes + more)
  {
    hide ExtendsThrough, Extends, Before;
    forall p
      ensures p in routes + more <==> ExtendsThrough(v, at, ixs, i + 1, p)
    {
      ThroughNext(v, at, ixs, i, p);
    }
    forall a, b | a in routes && b in more
      ensures Before(a, b)
    {
      LaterPosition(v, at, ixs, i, a, b);
    }
    SortedAppend(routes, more);
  }

  /** Nothing leads on through a parent that is not a node. */
  lemma SkippedEdge(v: View, at: Route, ixs: Route, i: nat, routes: seq<Route>)
    requires i < |ixs| && IsRoute(v, ixs) && Increasing(ixs)
    requires v.edges[ixs[i]].parent !in v.nodes && Gathered(v, at, ixs, i, routes)
    ensures LinkGood(v, v.edges[ixs[i]]) && AllLinksGood(v, v.edges[ixs[i]].parent)
    ensures Gathered(v, at, ixs, i + 1, routes)
  {
    assert Complete(v, v.edges[ixs[i]].parent, at + [ixs[i]], []);
    GatheredNext(v, at, ixs, i, routes, []);
    assert routes + [] == routes;
  }

  lemma GatheredAll(v: View, from: string, at: Route, ixs: Route, routes: seq<Route>)
    requires ValidView(v) && from in v.nodes && !v.nodes[from].kind.Root?
    requires ArePositions(v.edges, from, ParentsOf(v.edges, from), ixs) && Gathered(v, at, ixs, |ixs|, routes)
    ensures Complete(v, from, at, routes)
  {
    hide ExtendsThrough, Extends, ArePositions, ValidView;
    forall p
      ensures p in routes <==> Extends(v, from, at, p)
    {
      ExtendsByEdge(v, from, at, ixs, p);
    }
  }

  lemma AppendedNext(v: View, out: seq<Edges>, rs: seq<Route>, found: seq<Edges>, more: seq<Route>, next: seq<Edges>)
    requires Appended(v, out, rs, found) && Appended(v, found, more, next)
    ensures Appended(v, out, rs + more, next)
  {
    hide IsRoute;
    var all := rs + more;
    forall k | 0 <= k < |all|
      ensures IsRoute(v, all[k]) && next[|out| + k] == EdgesOf(v, all[k])
    {
      if k < |rs| {
        assert next[|out| + k] == found[|out| + k];
      } else {
        assert all[k] == more[k - |rs|] && next[|found| + (k - |rs|)] == next[|out| + k];
      }
    }
  }

  lemma CompleteAtRoot(v: View, from: string, at: Route, out: seq<Edges>)
    requires from in v.nodes && v.nodes[from].kind.Root? && IsRoute(v, at)
    ensures AllLinksGood(v, from)
    ensures var anchored := v.anchored(v.nodes[from].publicKey);
            && Complete(v, from, at, if anchored then [at] else [])
            && Appended(v, out, if anchored then [at] else [], if anchored then out + [EdgesOf(v, at)] else out)
  {
    forall p
      ensures Extends(v, from, at, p) <==> p == at && v.anchored(v.nodes[from].publicKey)
    {
      ExtendsAtRoot(v, from, at, p);
    }
  }

  /** The first n edges are good and so is everything above them. */
  ghost predicate GoodSoFar(v: View, es: Edges, n: nat)
  {
    n <= |es| && forall j :: 0 <= j < n ==> LinkGood(v, es[j]) && AllLinksGood(v, es[j].parent)
  }

  lemma GoodSoFarNone(v: View, es: Edges)
    ensures GoodSoFar(v, es, 0)
  {
  }

  lemma EdgeAbove(v: View, from: string, i: nat)
    requires ValidView(v) && i < |ParentsOf(v.edges, from)|
    ensures var e := ParentsOf(v.edges, from)[i];
            e in v.edges && e.child == from && e in ParentsOf(v.edges, from)
  {
    var es := ParentsOf(v.edges, from);
    hide ParentsOf, HasCycle;
    assert es[i] in es;
  }

  lemma GoodSoFarNext(v: View, from: string, i: nat)
    requires ValidView(v) && from in v.nodes && !v.nodes[from].kind.Root? && i < |ParentsOf(v.edges, from)|
    requires GoodSoFar(v, ParentsOf(v.edges, from), i)
    ensures var e := ParentsOf(v.edges, from)[i];
            && (LinkGood(v, e) && AllLinksGood(v, e.parent) ==> GoodSoFar(v, ParentsOf(v.edges, from), i + 1))
            && (!LinkGood(v, e) || !AllLinksGood(v, e.parent) ==> !AllLinksGood(v, from))
  {
    hide ParentsOf, AllLinksGood, LinkGood, ValidView;
    EdgeAbove(v, from, i);
    AllLinksGoodByEdge(v, from);
  }

  lemma GoodSoFarAll(v: View, from: string)
    requires ValidView(v) && from in v.nodes && !v.nodes[from].kind.Root?
    requires GoodSoFar(v, ParentsOf(v.edges, from), |ParentsOf(v.edges, from)|)
    ensures AllLinksGood(v, from)
  {
    hide ParentsOf, AllLinksGood, LinkGood, ValidView;
    AllLinksGoodByEdge(v, from);
    var es := ParentsOf(v.edges, from);
    forall e | e in es
      ensures LinkGood(v, e) && AllLinksGood(v, e.parent)
    {
      var j :| 0 <= j < |es| && es[j] == e;
    }
  }

  // ---------- the first bad link ----------

  /** A link met going up from a node, reached by the route p. */
  ghost predicate IsMet(v: View, from: string, p: Route)
  {
    p != [] && IsRoute(v, p) && IsChain(v, from, EdgesOf(v, p))
  }

  ghost function LinkAt(v: View, p: Route): (e: DelegationEdge)
    requires p != [] && IsRoute(v, p)
  {
    v.edges[p[|p| - 1]]
  }

  /** The error is that of the link at p, and the links met earlier are good. */
  ghost predicate FirstBad(v: View, from: string, p: Route, error: GraphError)
  {
    && IsMet(v, from, p) && IsErrorOf(v, LinkAt(v, p), error)
    && forall q :: IsMet(v, from, q) && Earlier(q, p) ==> LinkGood(v, LinkAt(v, q))
  }

  /** The error names the first bad link met going up from a node. */
  ghost predicate NamesLink(v: View, from: string, error: GraphError)
  {
    exists p :: FirstBad(v, from, p, error)
  }

  /** A link met above a node is one of its edges, or is met above the parent of one. */
  lemma MetByEdge(v: View, from: string, k: int, q: Route)
    requires 0 <= k < |v.edges|
    ensures IsMet(v, from, [k] + q)
            <==> && from in v.nodes && !v.nodes[from].kind.Root? && v.edges[k].child == from && v.edges[k].parent in v.nodes
                 && (q == [] || IsMet(v, v.edges[k].parent, q))
    ensures q != [] && IsRoute(v, q) ==> LinkAt(v, [k] + q) == LinkAt(v, q)
  {
    hide HasCycle;
    var p := [k] + q;
    assert p[1..] == q;
    if IsRoute(v, q) {
      assert EdgesOf(v, p) == [v.edges[k]] + EdgesOf(v, q);
      assert EdgesOf(v, p)[1..] == EdgesOf(v, q);
      assert v.edges[k] in v.edges;
      assert IsChain(v, v.edges[k].parent, []) <==> v.edges[k].parent in v.nodes;
      assert q == [] ==> EdgesOf(v, q) == [];
      assert IsChain(v, v.edges[k].parent, EdgesOf(v, q)) ==> v.edges[k].parent in v.nodes;
    } else {
      assert forall i :: 0 <= i < |q| ==> p[i + 1] == q[i];
      assert !IsRoute(v, p);
    }
  }

  lemma MetIsGood(v: View, from: string, q: Route)
    requires AllLinksGood(v, from) && IsMet(v, from, q)
    ensures LinkGood(v, LinkAt(v, q))
  {
    hide LinkGood, IsChain;
    var ls := EdgesOf(v, q);
    assert ls[|ls| - 1] == LinkAt(v, q);
  }

  /** What is met through an earlier edge is good. */
  lemma EarlierEdgeGood(v: View, from: string, ixs: Route, i: nat, q: Route)
    requires ArePositions(v.edges, from, ParentsOf(v.edges, from), ixs) && i < |ixs|
    requires GoodSoFar(v, ParentsOf(v.edges, from), i) && IsMet(v, from, q) && q[0] < ixs[i]
    ensures LinkGood(v, LinkAt(v, q))
  {
    hide ParentsOf, LinkGood, AllLinksGood, IsChain;
    assert q == [q[0]] + q[1..];
    MetByEdge(v, from, q[0], q[1..]);
    var j :| 0 <= j < |ixs| && ixs[j] == q[0];
    assert j < i;
    if q[1..] != [] { MetIsGood(v, v.edges[q[0]].parent, q[1..]); }
  }

  lemma NamesFirstLink(v: View, from: string, ixs: Route, i: nat, error: GraphError)
    requires from in v.nodes && !v.nodes[from].kind.Root?
    requires ArePositions(v.edges, from, ParentsOf(v.edges, from), ixs) && i < |ixs|
    requires GoodSoFar(v, ParentsOf(v.edges, from), i)
    requires v.edges[ixs[i]].child == from && v.edges[ixs[i]].parent in v.nodes && IsErrorOf(v, v.edges[ixs[i]], error)
    ensures NamesLink(v, from, error)
  {
    hide ArePositions, GoodSoFar, IsChain, IsErrorOf, LinkGood;
    PositionInRange(v, from, ixs, i);
    var k := ixs[i];
    MetByEdge(v, from, k, []);
    assert [k] + [] == [k];
    forall q | IsMet(v, from, q) && Earlier(q, [k])
      ensures LinkGood(v, LinkAt(v, q))
    {
      EarlierThan(q, k, []);
      EarlierEdgeGood(v, from, ixs, i, q);
    }
    assert FirstBad(v, from, [k], error);
  }

  lemma NamesLaterLink(v: View, from: string, ixs: Route, i: nat, error: GraphError)
    requires from in v.nodes && !v.nodes[from].kind.Root?
    requires ArePositions(v.edges, from, ParentsOf(v.edges, from), ixs) && i < |ixs|
    requires GoodSoFar(v, ParentsOf(v.edges, from), i)
    requires v.edges[ixs[i]].child == from && v.edges[ixs[i]].parent in v.nodes && LinkGood(v, v.edges[ixs[i]])
    requires NamesLink(v, v.edges[ixs[i]].parent, error)
    ensures NamesLink(v, from, error)
  {
    hide ArePositions, GoodSoFar, IsChain, IsErrorOf, LinkGood;
    PositionInRange(v, from, ixs, i);
    var k := ixs[i];
    var p :| FirstBad(v, v.edges[k].parent, p, error);
    MetByEdge(v, from, k, p);
    forall q | IsMet(v, from, q) && Earlier(q, [k] + p)
      ensures LinkGood(v, LinkAt(v, q))
    {
      EarlierThan(q, k, p);
      if q[0] < k {
        EarlierEdgeGood(v, from, ixs, i, q);
      } else if q[1..] != [] {
        MetByEdge(v, from, k, q[1..]);
      }
    }
    assert FirstBad(v, from, [k] + p, error);
  }

  lemma PositionInRange(v: View, from: string, ixs: Route, i: nat)
    requires ArePositions(v.edges, from, ParentsOf(v.edges, from), ixs) && i < |ixs|
    ensures 0 <= ixs[i] < |v.edges|
  {
  }

  /** A graph and a signer leave one error to return. */
  lemma ErrorUnique(v: View, from: string, error: GraphError, other: GraphError)
    requires NamesLink(v, from, error) && NamesLink(v, from, other)
    ensures error == other
  {
    hide IsMet, Earlier;
    var p :| FirstBad(v, from, p, error);
    var q :| FirstBad(v, from, q, other);
    OneIsEarlier(p, q);
  }

  /** The recursive walk. It fails at the first bad link; otherwise it appends one path for
      every route on to an anchored root, in the order of the routes. */
  method Walk(v: View, from: string, prefix: Edges, out: seq<Edges>, ghost signer: string, ghost at: Route)
    returns (r: Result<seq<Edges>, GraphError>, ghost routes: seq<Route>)
    requires ValidView(v) && from in v.nodes && IsChain(v, signer, prefix) && EndOf(signer, prefix) == from
    requires IsRoute(v, at) && prefix == EdgesOf(v, at)
    ensures r.Ok? <==> AllLinksGood(v, from)
    ensures r.Ok? ==> Complete(v, from, at, routes) && Appended(v, out, routes, r.value)
    ensures r.Err? ==> NamesLink(v, from, r.error)
    decreases |v.nodes| - |prefix|
  {
    hide Gathered, Complete, Appended, AllLinksGood, GoodSoFar, ParentsOf, ValidView, IsChain, SignatureGood, ScopeGood;
    hide NamesLink, ArePositions, Increasing, IsRoute, EdgesOf, EndOf, LinkGood, IsErrorOf;
    routes := [];
    if v.nodes[from].kind.Root? {
      CompleteAtRoot(v, from, at, out);
      if v.anchored(v.nodes[from].publicKey) { routes := [at]; }
      return Ok(if v.anchored(v.nodes[from].publicKey) then out + [prefix] else out), routes;
    }
    var es := ParentsOf(v.edges, from);
    ghost var ixs := Positions(v.edges, from);
    GoodSoFarNone(v, es);
    NoneYet(v, from, at, ixs, out);
    var found := out;
    var i := 0;
    while i < |es|
      invariant 0 <= i <= |es| && GoodSoFar(v, es, i)
      invariant Gathered(v, at, ixs, i, routes) && Appended(v, out, routes, found)
    {
      EdgeAbove(v, from, i);
      GoodSoFarNext(v, from, i);
      RouteExtended(v, from, at, ixs, i);
      var e := es[i];
      LinkErrors(v, e);
      if e.parent !in v.nodes {
        SkippedEdge(v, at, ixs, i, routes);
      } else {
        if !SignatureGood(v, e) {
          NamesFirstLink(v, from, ixs, i, BadSignature(e.parent, e.child));
          return Err(BadSignature(e.parent, e.child)), routes;
        }
        if !ScopeGood(v, e) {
          NamesFirstLink(v, from, ixs, i, ScopeWidening(e.parent, e.child));
          return Err(ScopeWidening(e.parent, e.child)), routes;
        }
        ChainExtended(v, signer, prefix, e);
        ChainBounded(v, signer, prefix + [e]);
        ghost var more;
        var sub;
        sub, more := Walk(v, e.parent, prefix + [e], found, signer, at + [ixs[i]]);
        if sub.Err? {
          NamesLaterLink(v, from, ixs, i, sub.error);
          return sub, routes;
        }
        GatheredNext(v, at, ixs, i, routes, more);
        AppendedNext(v, out, routes, found, more, sub.value);
        found, routes := sub.value, routes + more;
      }
      i := i + 1;
    }
    GoodSoFarAll(v, from);
    GatheredAll(v, from, at, ixs, routes);
    return Ok(found), routes;
  }

  lemma NoneYet(v: View, from: string, at: Route, ixs: Route, out: seq<Edges>)
    requires ArePositions(v.edges, from, ParentsOf(v.edges, from), ixs)
    ensures IsRoute(v, ixs) && Increasing(ixs) && |ixs| == |ParentsOf(v.edges, from)|
    ensures Gathered(v, at, ixs, 0, []) && Appended(v, out, [], out)
  {
  }

  lemma RouteExtended(v: View, from: string, at: Route, ixs: Route, i: nat)
    requires ArePositions(v.edges, from, ParentsOf(v.edges, from), ixs) && i < |ixs| && IsRoute(v, at)
    ensures 0 <= ixs[i] < |v.edges| && v.edges[ixs[i]] == ParentsOf(v.edges, from)[i] && IsRoute(v, at + [ixs[i]])
    ensures EdgesOf(v, at + [ixs[i]]) == EdgesOf(v, at) + [v.edges[ixs[i]]]
  {
    hide ParentsOf, Increasing;
  }

  /** Every chain is that of some route. */
  lemma {:induction false} RouteOf(v: View, from: string, ls: Edges) returns (p: Route)
    requires IsChain(v, from, ls)
    ensures IsRoute(v, p) && EdgesOf(v, p) == ls
    decreases |ls|
  {
    if ls == [] {
      p := [];
    } else {
      var k :| 0 <= k < |v.edges| && v.edges[k] == ls[0];
      var rest := RouteOf(v, ls[0].parent, ls[1..]);
      p := [k] + rest;
      assert EdgesOf(v, p) == [ls[0]] + EdgesOf(v, rest);
    }
  }

  /** The members of the list are the verification paths. */
  lemma ListMembers(v: View, signer: string, routes: seq<Route>, list: seq<Edges>)
    requires ListsPaths(v, signer, routes, list)
    ensures forall ls :: ls in list <==> IsVerificationPath(v, signer, ls)
  {
    forall ls
      ensures ls in list <==> IsVerificationPath(v, signer, ls)
    {
      hide IsChain, Sorted;
      if ls in list {
        var k :| 0 <= k < |list| && list[k] == ls;
        assert routes[k] in routes;
        assert EdgesOf(v, routes[k])[0..] == ls;
      }
      if IsVerificationPath(v, signer, ls) {
        var p := RouteOf(v, signer, ls);
        assert EdgesOf(v, p)[0..] == ls;
        assert Extends(v, signer, [], p);
        var k :| 0 <= k < |routes| && routes[k] == p;
        assert list[0 + k] == ls;
      }
    }
  }

  /** A graph and a signer leave one list to return. */
  lemma ListUnique(v: View, signer: string, rs: seq<Route>, list: seq<Edges>, ts: seq<Route>, other: seq<Edges>)
    requires ListsPaths(v, signer, rs, list) && ListsPaths(v, signer, ts, other)
    ensures list == other
  {
    hide Extends;
    SortedUnique(rs, ts);
    forall k | 0 <= k < |rs|
      ensures list[k] == other[k]
    {
      assert list[0 + k] == EdgesOf(v, rs[k]);
    }
  }

  // ---------- what the links of a result say ----------

  /** The ends of a link of a chain are nodes. */
  lemma {:induction false} ChainEnds(v: View, from: string, ls: Edges, i: nat)
    requires IsChain(v, from, ls) && i < |ls|
    ensures ls[i] in v.edges && ls[i].parent in v.nodes && ls[i].child in v.nodes
    decreases |ls|
  {
    if i > 0 { ChainEnds(v, ls[0].parent, ls[1..], i - 1); }
  }

  /** A chain may stop at any of its links. */
  lemma {:induction false} ChainStops(v: View, from: string, ls: Edges, n: nat)
    requires IsChain(v, from, ls) && n <= |ls|
    ensures IsChain(v, from, ls[..n])
    decreases n
  {
    if n > 0 {
      ChainStops(v, ls[0].parent, ls[1..], n - 1);
      assert ls[..n][1..] == ls[1..][..n - 1];
    }
  }

  /** The parent signed the child, and the child's scope narrows the parent's. */
  ghost predicate Delegates(v: View, e: DelegationEdge)
  {
    && e.parent in v.nodes && e.child in v.nodes
    && v.signed(v.nodes[e.parent], v.nodes[e.child], e.signature)
    && Narrows(v.nodes[e.child].scope, v.nodes[e.parent].scope)
  }

  lemma GoodDelegates(v: View, e: DelegationEdge)
    requires e.parent in v.nodes && e.child in v.nodes
    ensures LinkGood(v, e) <==> Delegates(v, e)
  {
    hide Narrows;
  }

  /** Every link above a node is good if and only if each of them delegates. */
  lemma GoodMeansDelegates(v: View, from: string)
    ensures AllLinksGood(v, from) <==> forall ls, i :: IsChain(v, from, ls) && 0 <= i < |ls| ==> Delegates(v, ls[i])
  {
    hide LinkGood, IsChain, Delegates;
    forall ls, i: int | IsChain(v, from, ls) && 0 <= i < |ls|
      ensures LinkGood(v, ls[i]) <==> Delegates(v, ls[i])
      ensures IsChain(v, from, ls[..i + 1])
    {
      ChainEnds(v, from, ls, i);
      ChainStops(v, from, ls, i + 1);
      GoodDelegates(v, ls[i]);
    }
    if AllLinksGood(v, from) {
      forall ls, i: int | IsChain(v, from, ls) && 0 <= i < |ls|
        ensures Delegates(v, ls[i])
      {
        var short := ls[..i + 1];
        assert short != [] && short[|short| - 1] == ls[i];
      }
    }
  }

  /** An edge above a node that its parent did not sign, or a signed one that widens the scope. */
  ghost predicate Breaks(v: View, from: string, ls: Edges, i: nat, error: GraphError)
  {
    && IsChain(v, from, ls) && i < |ls| && ls[i].parent in v.nodes && ls[i].child in v.nodes
    && var (p, c) := (v.nodes[ls[i].parent], v.nodes[ls[i].child]);
      if v.signed(p, c, ls[i].signature)
      then error == ScopeWidening(ls[i].parent, ls[i].child) && !Narrows(c.scope, p.scope)
      else error == BadSignature(ls[i].parent, ls[i].child)
  }

  lemma ErrorMeansBroken(v: View, from: string, error: GraphError)
    requires NamesLink(v, from, error)
    ensures exists ls, i :: Breaks(v, from, ls, i, error)
  {
    hide Narrows, IsChain, Earlier;
    var p :| FirstBad(v, from, p, error);
    var (ls, i) := (EdgesOf(v, p), |p| - 1);
    assert ls[i] == LinkAt(v, p);
    ChainEnds(v, from, ls, i);
    assert Breaks(v, from, ls, i, error);
  }

  lemma PathIsChain(v: View, from: string, ls: Edges)
    requires IsVerificationPath(v, from, ls)
    ensures IsChain(v, from, ls)
  {
  }

  /** All verification paths of a signer. */
  method FindPaths(v: View, signer: string) returns (r: Result<seq<Edges>, GraphError>)
    requires ValidView(v)
    ensures signer !in v.nodes ==> r == Err(NoPath)
    ensures signer in v.nodes ==> (r.Ok? <==> AllLinksGood(v, signer)) && (r.Err? ==> NamesLink(v, signer, r.error))
    ensures signer in v.nodes ==>
      (r.Ok? <==> forall ls, i :: IsChain(v, signer, ls) && 0 <= i < |ls| ==> Delegates(v, ls[i]))
    ensures signer in v.nodes && r.Err? ==> exists ls, i :: Breaks(v, signer, ls, i, r.error)
    ensures r.Ok? ==> exists routes :: ListsPaths(v, signer, routes, r.value)
    ensures r.Ok? ==> forall ls :: ls in r.value <==> IsVerificationPath(v, signer, ls)
    ensures r.Ok? ==> forall ls, i :: ls in r.value && 0 <= i < |ls| ==> Delegates(v, ls[i])
  {
    hide IsChain, AllLinksGood, NamesLink, ValidView, Delegates, Breaks, IsVerificationPath;
    if signer !in v.nodes {
      return Err(NoPath);
    }
    OneNode(v, signer);
    ghost var routes;
    r, routes := Walk(v, signer, [], [], signer, []);
    GoodMeansDelegates(v, signer);
    if r.Ok? {
      ListMembers(v, signer, routes, r.value);
      forall ls | ls in r.value
        ensures IsChain(v, signer, ls)
      {
        PathIsChain(v, signer, ls);
      }
    } else {
      ErrorMeansBroken(v, signer, r.error);
    }
  }

  lemma OneNode(v: View, signer: string)
    requires signer in v.nodes
    ensures IsChain(v, signer, [])
  {
  }
}
