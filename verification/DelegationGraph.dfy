/**
 Directed graphs given by a successor list, walks and cycles in them, and the
 depth-first search with grey and black marks that looks for a cycle.
 */
module DelegationGraph {
  import opened Common

  // ---------- walks ----------

  ghost predicate IsWalk<N(!new)>(succ: N -> seq<N>, w: seq<N>)
  {
    |w| > 0 && forall i :: 0 <= i < |w| - 1 ==> w[i + 1] in succ(w[i])
  }

  ghost predicate IsCycle<N(!new)>(succ: N -> seq<N>, w: seq<N>)
  {
    |w| > 1 && IsWalk(succ, w) && w[0] == w[|w| - 1]
  }

  ghost predicate HasCycle<N(!new)>(succ: N -> seq<N>)
  {
    exists w: seq<N> :: IsCycle(succ, w)
  }

  /** A walk from x to the beginning of a cycle. */
  ghost predicate LeadsTo<N(!new)>(succ: N -> seq<N>, x: N, w: seq<N>, c: seq<N>)
  {
    IsWalk(succ, w) && w[0] == x && IsCycle(succ, c) && c[0] == w[|w| - 1]
  }

  /** Going on from x one can run into a cycle. */
  ghost predicate MeetsCycle<N(!new)>(succ: N -> seq<N>, x: N)
  {
    exists w, c :: LeadsTo(succ, x, w, c)
  }

  /** If every node with successors is listed, a cycle is one met from a listed node. */
  lemma CycleIsMet<N(!new)>(succ: N -> seq<N>, ids: seq<N>)
    requires forall x :: succ(x) != [] ==> x in ids
    ensures HasCycle(succ) <==> exists i :: 0 <= i < |ids| && MeetsCycle(succ, ids[i])
  {
    if HasCycle(succ) {
      var c :| IsCycle(succ, c);
      assert c[0 + 1] in succ(c[0]);
      var i :| 0 <= i < |ids| && ids[i] == c[0];
      assert LeadsTo(succ, c[0], [c[0]], c);
    }
    if i :| 0 <= i < |ids| && MeetsCycle(succ, ids[i]) {
      var w, c :| LeadsTo(succ, ids[i], w, c);
    }
  }

  lemma SameCycles<N(!new)>(f: N -> seq<N>, g: N -> seq<N>)
    requires forall x :: f(x) == g(x)
    ensures HasCycle(f) ==> HasCycle(g)
  {
    if HasCycle(f) {
      var w :| IsCycle(f, w);
      assert IsCycle(g, w);
    }
  }

  lemma WalkTail<N(!new)>(succ: N -> seq<N>, w: seq<N>)
    requires IsWalk(succ, w) && |w| > 1
    ensures IsWalk(succ, w[1..])
  {
    var rest := w[1..];
    forall i | 0 <= i < |rest| - 1
      ensures rest[i + 1] in succ(rest[i])
    {
      assert rest[i] == w[i + 1];
    }
  }

  /** The nodes of a walk in a graph without cycles are pairwise different. */
  lemma WalkIsSimple<N(!new)>(succ: N -> seq<N>, w: seq<N>)
    requires !HasCycle(succ) && IsWalk(succ, w)
    ensures forall i, j :: 0 <= i < j < |w| ==> w[i] != w[j]
  {
    forall i, j | 0 <= i < j < |w|
      ensures w[i] != w[j]
    {
      var c := w[i..j + 1];
      assert forall k :: 0 <= k < |c| - 1 ==> c[k] == w[i + k] && w[i + k + 1] in succ(w[i + k]);
      assert w[i] == w[j] ==> IsCycle(succ, c);
    }
  }

  lemma {:induction false} SimpleSize<N>(w: seq<N>, s: set<N>)
    requires (forall i, j :: 0 <= i < j < |w| ==> w[i] != w[j]) && forall i :: 0 <= i < |w| ==> w[i] in s
    ensures |w| <= |s|
    decreases |w|
  {
    if |w| > 0 {
      var last := w[|w| - 1];
      SimpleSize(w[..|w| - 1], s - {last});
    }
  }

  /** A walk without cycles inside a finite set has at most as many nodes. */
  lemma WalkBounded<N(!new)>(succ: N -> seq<N>, w: seq<N>, s: set<N>)
    requires !HasCycle(succ) && IsWalk(succ, w) && forall i :: 0 <= i < |w| ==> w[i] in s
    ensures |w| <= |s|
  {
    WalkIsSimple(succ, w);
    SimpleSize(w, s);
  }

  // ---------- topological orders ----------

  /** Every successor of a listed node is listed before it. */
  ghost predicate IsTopological<N(!new)>(succ: N -> seq<N>, order: seq<N>)
  {
    forall i, p :: 0 <= i < |order| && p in succ(order[i]) ==> p in order[..i]
  }

  lemma {:induction false} WalkDescends<N(!new)>(succ: N -> seq<N>, order: seq<N>, w: seq<N>, i: nat) returns (j: nat)
    requires IsTopological(succ, order) && IsWalk(succ, w) && i < |order| && order[i] == w[0]
    ensures j < |order| && order[j] == w[|w| - 1] && j + |w| - 1 <= i
    decreases |w|
  {
    if |w| == 1 {
      j := i;
    } else {
      assert w[1] in order[..i];
      var k :| 0 <= k < i && order[k] == w[1];
      WalkTail(succ, w);
      j := WalkDescends(succ, order, w[1..], k);
    }
  }

  ghost function FirstIndex<N>(s: seq<N>, x: N): (i: nat)
    requires x in s
    ensures i < |s| && s[i] == x && forall k :: 0 <= k < i ==> s[k] != x
  {
    if s[0] == x then 0 else 1 + FirstIndex(s[1..], x)
  }

  /** A topological order of all nodes with successors rules out cycles. */
  lemma TopologicalIsAcyclic<N(!new)>(succ: N -> seq<N>, order: seq<N>)
    requires IsTopological(succ, order) && forall x :: succ(x) != [] ==> x in order
    ensures !HasCycle(succ)
  {
    if HasCycle(succ) {
      var w: seq<N> :| IsCycle(succ, w);
      assert w[0 + 1] in succ(w[0]);
      var i := FirstIndex(order, w[0]);
      var j := WalkDescends(succ, order, w, i);
    }
  }

  /** From a node of a topological order no cycle is met. */
  lemma TopologicalMeetsNone<N(!new)>(succ: N -> seq<N>, order: seq<N>, x: N)
    requires IsTopological(succ, order) && x in order
    ensures !MeetsCycle(succ, x)
  {
    hide IsTopological;
    if MeetsCycle(succ, x) {
      var w, c :| LeadsTo(succ, x, w, c);
      var k := WalkDescends(succ, order, w, FirstIndex(order, x));
      assert order[k] == c[0];
      var i := FirstIndex(order, c[0]);
      var j := WalkDescends(succ, order, c, i);
    }
  }

  // ---------- depth-first search ----------

  datatype Mark = Grey | Black

  /** Grey nodes are the walk from the start node to the current one; black
      nodes are finished, in topological order. */
  ghost predicate SearchState<N(!new)>(succ: N -> seq<N>, marks: map<N, Mark>, stack: seq<N>, finished: seq<N>)
  {
    && (forall x :: x in stack ==> x in marks && marks[x].Grey?)
    && (forall x :: x in finished ==> x in marks && marks[x].Black?)
    && (forall x :: x in marks ==> if marks[x].Grey? then x in stack else x in finished)
    && IsTopological(succ, finished)
    && (stack != [] ==> IsWalk(succ, stack))
  }

  /** Where a search may go next. */
  ghost predicate Extends<N(!new)>(succ: N -> seq<N>, stack: seq<N>, id: N)
  {
    stack != [] ==> id in succ(stack[|stack| - 1])
  }

  /** A known node is finished, or closes a cycle. */
  lemma Known<N(!new)>(succ: N -> seq<N>, marks: map<N, Mark>, stack: seq<N>, finished: seq<N>, id: N)
    requires SearchState(succ, marks, stack, finished) && Extends(succ, stack, id) && id in marks
    ensures if marks[id].Grey? then stack != [] && MeetsCycle(succ, stack[0]) else id in finished
  {
    hide MeetsCycle;
    if marks[id].Grey? { GreyClosesCycle(succ, stack, id); }
  }

  lemma Enter<N(!new)>(succ: N -> seq<N>, marks: map<N, Mark>, stack: seq<N>, finished: seq<N>, id: N, universe: set<N>)
    requires SearchState(succ, marks, stack, finished) && Extends(succ, stack, id) && id !in marks
    requires id in universe && Closed(succ, universe)
    ensures SearchState(succ, marks[id := Grey], stack + [id], finished)
    ensures forall j :: 0 <= j < |succ(id)| ==> succ(id)[j] in universe && Extends(succ, stack + [id], succ(id)[j])
    ensures id !in stack && (stack != [] ==> IsWalk(succ, stack))
  {
    WalkExtended(succ, stack, id);
  }

  lemma Leave<N(!new)>(succ: N -> seq<N>, marks: map<N, Mark>, stack: seq<N>, finished: seq<N>, id: N)
    requires SearchState(succ, marks, stack + [id], finished) && id !in stack
    requires stack != [] ==> IsWalk(succ, stack)
    requires Listed(succ(id), |succ(id)|, finished)
    ensures SearchState(succ, marks[id := Black], stack, finished + [id])
  {
    assert id in stack + [id];
    TopologicalExtended(succ, finished, id);
  }

  /** The first n elements of xs occur in s. */
  ghost predicate Listed<N>(xs: seq<N>, n: nat, s: seq<N>)
  {
    n <= |xs| && forall j :: 0 <= j < n ==> xs[j] in s
  }

  lemma ListedNone<N>(xs: seq<N>, s: seq<N>)
    ensures Listed(xs, 0, s)
  {
  }

  lemma ListedGrows<N>(xs: seq<N>, n: nat, s: seq<N>, t: seq<N>)
    requires n < |xs| && Listed(xs, n, s) && s <= t && xs[n] in t
    ensures Listed(xs, n + 1, t)
  {
    forall j | 0 <= j < n + 1
      ensures xs[j] in t
    {
      if j < n {
        var k :| 0 <= k < |s| && s[k] == xs[j];
        assert t[k] == xs[j];
      }
    }
  }

  ghost predicate Closed<N(!new)>(succ: N -> seq<N>, universe: set<N>)
  {
    forall x, p :: x in universe && p in succ(x) ==> p in universe
  }

  class CycleSearch<N(==, !new)> {
    const succ: N -> seq<N>
    var marks: map<N, Mark>
    ghost var finished: seq<N>

    constructor (succ: N -> seq<N>)
      ensures this.succ == succ && SearchState(succ, marks, [], finished)
    {
      this.succ := succ;
      marks, finished := map[], [];
    }

    /** Visit a node: false means that a cycle was met. */
    method Visit(id: N, ghost stack: seq<N>, ghost universe: set<N>) returns (ok: bool)
      requires SearchState(succ, marks, stack, finished) && Extends(succ, stack, id)
      requires id in universe && Closed(succ, universe)
      modifies this
      ensures !ok ==> MeetsCycle(succ, if stack == [] then id else stack[0])
      ensures ok ==> SearchState(succ, marks, stack, finished) && id in finished
      ensures ok ==> Grown(old(finished), old(marks), finished, marks)
      decreases |universe - marks.Keys|
    {
      hide *;
      if id in marks {
        Known(succ, marks, stack, finished, id);
        NotYetGrown(finished, marks);
        return marks[id].Black?;
      }
      Enter(succ, marks, stack, finished, id, universe);
      var parents := succ(id);
      marks := marks[id := Grey];
      var i := 0;
      ListedNone(parents, finished);
      ghost var entered := marks;
      NotYetGrown(finished, marks);
      while i < |parents|
        invariant 0 <= i <= |parents|
        invariant SearchState(succ, marks, stack + [id], finished)
        invariant Grown(old(finished), entered, finished, marks) && Listed(parents, i, finished)
      {
        FewerUnvisited(universe, old(finished), old(marks), finished, marks, id);
        ghost var before, known := finished, marks;
        ok := Visit(parents[i], stack + [id], universe);
        if !ok {
          return;
        }
        StillGrown(old(finished), entered, before, known, finished, marks);
        ListedGrows(parents, i, before, finished);
        i := i + 1;
        assert SearchState(succ, marks, stack + [id], finished);
        assert Listed(parents, i, finished);
      }
      Leave(succ, marks, stack, finished, id);
      Finished(old(finished), old(marks), finished, marks, id);
      marks := marks[id := Black];
      finished := finished + [id];
      ok := true;
    }

    /** Visit every node of a list, sharing the marks: true exactly when no cycle is met from any. */
    method VisitAll(ids: seq<N>, ghost universe: set<N>) returns (ok: bool)
      requires SearchState(succ, marks, [], finished) && Closed(succ, universe)
      requires forall i :: 0 <= i < |ids| ==> ids[i] in universe
      modifies this
      ensures ok <==> forall j :: 0 <= j < |ids| ==> !MeetsCycle(succ, ids[j])
    {
      var i := 0;
      while i < |ids|
        invariant 0 <= i <= |ids| && SearchState(succ, marks, [], finished)
        invariant Listed(ids, i, finished)
      {
        ghost var before := finished;
        ok := Visit(ids[i], [], universe);
        if !ok {
          return;
        }
        assert before <= finished;
        ListedGrows(ids, i, before, finished);
        i := i + 1;
      }
      forall j | 0 <= j < |ids|
        ensures !MeetsCycle(succ, ids[j])
      {
        TopologicalMeetsNone(succ, finished, ids[j]);
      }
      ok := true;
    }
  }

  /** Finished nodes and marks only become more. */
  ghost predicate Grown<N>(f: seq<N>, m: map<N, Mark>, g: seq<N>, n: map<N, Mark>)
  {
    f <= g && m.Keys <= n.Keys
  }

  lemma NotYetGrown<N>(f: seq<N>, m: map<N, Mark>)
    ensures Grown(f, m, f, m)
  {
  }

  lemma StillGrown<N>(f: seq<N>, m: map<N, Mark>, g: seq<N>, n: map<N, Mark>, k: seq<N>, o: map<N, Mark>)
    requires Grown(f, m, g, n) && Grown(g, n, k, o)
    ensures Grown(f, m, k, o) && g <= k
  {
  }

  lemma Finished<N>(f: seq<N>, m: map<N, Mark>, g: seq<N>, n: map<N, Mark>, id: N)
    requires Grown(f, m[id := Grey], g, n)
    ensures Grown(f, m, g + [id], n[id := Black]) && id in g + [id]
  {
    assert (g + [id])[|g|] == id;
  }

  lemma FewerUnvisited<N>(universe: set<N>, f: seq<N>, m: map<N, Mark>, g: seq<N>, n: map<N, Mark>, id: N)
    requires Grown(f, m[id := Grey], g, n) && id in universe && id !in m
    ensures |universe - n.Keys| < |universe - m.Keys|
  {
    assert id in universe - m.Keys;
    SubsetSize(universe - n.Keys, universe - m.Keys);
  }

  lemma GreyClosesCycle<N(!new)>(succ: N -> seq<N>, stack: seq<N>, id: N)
    requires IsWalk(succ, stack) && id in stack && id in succ(stack[|stack| - 1])
    ensures MeetsCycle(succ, stack[0])
  {
    var k :| 0 <= k < |stack| && stack[k] == id;
    var c := stack[k..] + [id];
    forall i | 0 <= i < |c| - 1
      ensures c[i + 1] in succ(c[i])
    {
      assert c[i] == stack[k + i];
    }
    assert LeadsTo(succ, stack[0], stack[..k + 1], c);
  }

  lemma WalkExtended<N(!new)>(succ: N -> seq<N>, stack: seq<N>, id: N)
    requires stack != [] ==> IsWalk(succ, stack) && id in succ(stack[|stack| - 1])
    ensures IsWalk(succ, stack + [id])
  {
    var w := stack + [id];
    forall i | 0 <= i < |w| - 1
      ensures w[i + 1] in succ(w[i])
    {
      assert w[i] == stack[i];
    }
  }

  lemma TopologicalExtended<N(!new)>(succ: N -> seq<N>, order: seq<N>, id: N)
    requires IsTopological(succ, order) && forall j :: 0 <= j < |succ(id)| ==> succ(id)[j] in order
    ensures IsTopological(succ, order + [id])
  {
    var o := order + [id];
    forall i, p | 0 <= i < |o| && p in succ(o[i])
      ensures p in o[..i]
    {
      if i < |order| {
        assert o[..i] == order[..i];
      } else {
        assert o[..i] == order;
      }
    }
  }
}
