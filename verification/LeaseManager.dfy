/**
 The in-memory lock manager: time-limited leases with fencing tokens. Every call
 carries the clock reading it makes; the laws are about whole runs of calls.
 */
module LeaseManager {
  import opened Common

  datatype Lease = Lease(holder: string, fencingToken: nat, acquiredAt: int, expiresAt: int)

  datatype Call =
    | TryAcquire(resource: string, holder: string, ttl: int)
    | Release(resource: string, holder: string)
    | Renew(resource: string, holder: string, ttl: int)
    | PurgeExpired

  datatype Event = Event(now: int, call: Call)

  datatype Reply = Token(token: nat) | Expiry(at: int) | Released | Purged(count: nat) | Refused

  datatype State = State(leases: map<string, Lease>, nextToken: nat)

  // ----- one call -----

  /** A grant is refused only to someone other than the holder of an unexpired lease. */
  predicate MayAcquire(m: State, now: int, resource: string, holder: string)
  {
    resource in m.leases ==> m.leases[resource].holder == holder || m.leases[resource].expiresAt <= now
  }

  predicate IsHolder(m: State, resource: string, holder: string)
  {
    resource in m.leases && m.leases[resource].holder == holder
  }

  function Active(m: State, now: int): (s: set<string>)
  {
    set r | r in m.leases && m.leases[r].expiresAt > now
  }

  function Kept(leases: map<string, Lease>, now: int): (kept: map<string, Lease>)
  {
    map r | r in leases && leases[r].expiresAt > now :: leases[r]
  }

  function Next(m: State, e: Event): (r: (State, Reply))
  {
    match e.call
    case TryAcquire(resource, holder, ttl) =>
      if MayAcquire(m, e.now, resource, holder) then
        var lease := Lease(holder, m.nextToken, e.now, e.now + ttl);
        (State(m.leases[resource := lease], m.nextToken + 1), Token(m.nextToken))
      else (m, Refused)
    case Release(resource, holder) =>
      if IsHolder(m, resource, holder) then (m.(leases := m.leases - {resource}), Released) else (m, Refused)
    case Renew(resource, holder, ttl) =>
      if IsHolder(m, resource, holder) then
        var lease := m.leases[resource].(expiresAt := e.now + ttl);
        (m.(leases := m.leases[resource := lease]), Expiry(e.now + ttl))
      else (m, Refused)
    case PurgeExpired =>
      KeptIsSubset(m.leases, e.now);
      (m.(leases := Kept(m.leases, e.now)), Purged(|m.leases| - |Kept(m.leases, e.now)|))
  }

  lemma KeptIsSubset(leases: map<string, Lease>, now: int)
    ensures |Kept(leases, now)| <= |leases|
  {
    SubsetSize(Kept(leases, now).Keys, leases.Keys);
  }

  // ----- runs -----

  const START: State := State(map[], 1)

  /** The state after the calls es, beginning in m. */
  function RunFrom(m: State, es: seq<Event>): (m': State)
  {
    if es == [] then m else Next(RunFrom(m, es[..|es| - 1]), es[|es| - 1]).0
  }

  function After(es: seq<Event>): (m: State)
  {
    RunFrom(START, es)
  }

  function ReplyAt(es: seq<Event>, i: nat): (r: Reply)
    requires i < |es|
  {
    Next(After(es[..i]), es[i]).1
  }

  /** No clock reading but possibly the first is later than now. */
  predicate NoneLater(es: seq<Event>, now: int)
  {
    forall i :: 1 <= i < |es| ==> es[i].now <= now
  }

  /** The expiry last reported, for each holder and resource. */
  type Reports = map<(string, string), int>

  ghost function Report(t: Reports, e: Event, reply: Reply): (t': Reports)
  {
    match e.call
    case TryAcquire(resource, holder, ttl) =>
      if reply.Token? then t[(holder, resource) := e.now + ttl] else t
    case Release(resource, holder) =>
      if reply.Released? then t - {(holder, resource)} else t
    case Renew(resource, holder, ttl) =>
      if reply.Expiry? then t[(holder, resource) := reply.at] else t
    case PurgeExpired => t
  }

  /** For each holder and resource, the expiry last reported to that holder, until the
      holder's release succeeds. Clients know this much; the manager does not keep it. */
  ghost function Told(es: seq<Event>): (t: Reports)
  {
    if es == [] then map[]
    else
      var n := |es| - 1;
      Report(Told(es[..n]), es[n], Next(After(es[..n]), es[n]).1)
  }

  ghost predicate Valid(t: Reports, holder: string, resource: string, now: int)
  {
    (holder, resource) in t && t[(holder, resource)] > now
  }

  /** The holder may still act on the resource: told an expiry later than now. */
  ghost predicate MayAct(es: seq<Event>, holder: string, resource: string, now: int)
  {
    Valid(Told(es), holder, resource, now)
  }

  ghost predicate Stores(m: State, t: Reports, holder: string, resource: string)
  {
    && IsHolder(m, resource, holder)
    && (holder, resource) in t && m.leases[resource].expiresAt == t[(holder, resource)]
  }

  /** One call keeps every report that is valid at now stored, if the call is not later than now. */
  lemma StoresStep(m: State, t: Reports, e: Event, holder: string, resource: string, now: int)
    requires e.now <= now
    requires forall h :: Valid(t, h, resource, now) ==> Stores(m, t, h, resource)
    requires Valid(Report(t, e, Next(m, e).1), holder, resource, now)
    ensures Stores(Next(m, e).0, Report(t, e, Next(m, e).1), holder, resource)
  {
    assert Valid(t, holder, resource, now) ==> Stores(m, t, holder, resource);
  }

  lemma FirstStep(e: Event, holder: string, resource: string, now: int)
    requires Valid(Report(map[], e, Next(START, e).1), holder, resource, now)
    ensures Stores(Next(START, e).0, Report(map[], e, Next(START, e).1), holder, resource)
  {
  }

  /** Whoever may act has the stored lease, with the expiry last reported. */
  lemma {:induction false} HolderIsStored(es: seq<Event>, holder: string, resource: string, now: int)
    requires NoneLater(es, now) && MayAct(es, holder, resource, now)
    ensures Stores(After(es), Told(es), holder, resource)
  {
    hide Next, Report, Stores;
    var n := |es| - 1;
    var before := es[..n];
    var (m, t, e) := (After(before), Told(before), es[n]);
    if n == 0 {
      FirstStep(e, holder, resource, now);
    } else {
      forall h | Valid(t, h, resource, now)
        ensures Stores(m, t, h, resource)
      {
        HolderIsStored(before, h, resource, now);
      }
      StoresStep(m, t, e, holder, resource, now);
    }
  }

  /** No two holders may act on one resource at now. */
  ghost predicate Excludes(es: seq<Event>, now: int)
  {
    forall a, b, resource :: MayAct(es, a, resource, now) && MayAct(es, b, resource, now) ==> a == b
  }

  lemma ToldStep(m: State, t: Reports, e: Event, resource: string)
    requires resource in m.leases ==> Stores(m, t, m.leases[resource].holder, resource)
    requires resource in Next(m, e).0.leases
    ensures
      var m' := Next(m, e).0;
      Stores(m', Report(t, e, Next(m, e).1), m'.leases[resource].holder, resource)
  {
    match e.call
    case TryAcquire(r, holder, ttl) =>
    case Release(r, holder) =>
    case Renew(r, holder, ttl) =>
      assert r != resource ==> Next(m, e).0.leases[resource] == m.leases[resource];
    case PurgeExpired =>
      assert Next(m, e).0.leases[resource] == m.leases[resource];
  }

  /** Every stored lease is one its holder was told of. */
  lemma {:induction false} StoredIsTold(es: seq<Event>, resource: string)
    requires resource in After(es).leases
    ensures Stores(After(es), Told(es), After(es).leases[resource].holder, resource)
  {
    hide Next, Report, Stores;
    if es != [] {
      var before := es[..|es| - 1];
      if resource in After(before).leases { StoredIsTold(before, resource); }
      ToldStep(After(before), Told(before), es[|es| - 1], resource);
    }
  }

  /** A request is granted exactly when nobody else may act: everybody else was never
      told of a lease, has released it, or was last told an expiry that has passed. */
  ghost predicate GrantsExactly(es: seq<Event>, now: int)
  {
    forall resource, holder ::
      MayAcquire(After(es), now, resource, holder) <==>
      forall other :: other != holder ==> !MayAct(es, other, resource, now)
  }

  /** Whoever may act at now has the stored lease. */
  ghost predicate ActorsStored(es: seq<Event>, now: int)
  {
    forall holder, resource :: MayAct(es, holder, resource, now) ==> Stores(After(es), Told(es), holder, resource)
  }

  lemma StoredActorsExclude(es: seq<Event>, now: int)
    requires ActorsStored(es, now)
    ensures Excludes(es, now)
  {
    hide MayAct, Told, After;
    forall a, b, resource | MayAct(es, a, resource, now) && MayAct(es, b, resource, now)
      ensures a == b
    {
      assert Stores(After(es), Told(es), a, resource) && Stores(After(es), Told(es), b, resource);
    }
  }

  lemma StoredActorsGrant(es: seq<Event>, now: int)
    requires ActorsStored(es, now)
    ensures GrantsExactly(es, now)
  {
    hide Told, After;
    forall resource, holder
      ensures MayAcquire(After(es), now, resource, holder) <==>
        forall other :: other != holder ==> !MayAct(es, other, resource, now)
    {
      forall other | other != holder && MayAct(es, other, resource, now)
        ensures !MayAcquire(After(es), now, resource, holder)
      {
        assert Stores(After(es), Told(es), other, resource);
      }
      if !MayAcquire(After(es), now, resource, holder) {
        StoredIsTold(es, resource);
        assert MayAct(es, After(es).leases[resource].holder, resource, now);
      }
    }
  }

  lemma NoneLaterStores(es: seq<Event>, now: int)
    requires NoneLater(es, now)
    ensures ActorsStored(es, now)
  {
    hide MayAct, Told, After, NoneLater, Stores;
    forall holder, resource | MayAct(es, holder, resource, now)
      ensures Stores(After(es), Told(es), holder, resource)
    {
      HolderIsStored(es, holder, resource, now);
    }
  }

  lemma MutualExclusion(es: seq<Event>, now: int)
    requires NoneLater(es, now)
    ensures Excludes(es, now)
  {
    hide *;
    NoneLaterStores(es, now);
    StoredActorsExclude(es, now);
  }

  lemma GrantExactly(es: seq<Event>, now: int)
    requires NoneLater(es, now)
    ensures GrantsExactly(es, now)
  {
    hide *;
    NoneLaterStores(es, now);
    StoredActorsGrant(es, now);
  }

  // ----- exactly which clocks keep these laws -----

  ghost predicate HasReadings(es: seq<Event>, ts: seq<int>)
  {
    |es| == |ts| && forall i :: 0 <= i < |es| ==> es[i].now == ts[i]
  }

  /** Acquired by a at reading i until ea, by b at reading j until eb, and otherwise only
      releases that are refused. */
  function OverlapEvent(ts: seq<int>, i: nat, ea: int, j: nat, eb: int, k: nat): (e: Event)
    requires i < |ts| && j < |ts| && k < |ts|
  {
    Event(ts[k],
          if k == i then TryAcquire("r", "a", ea - ts[i])
          else if k == j then TryAcquire("r", "b", eb - ts[j])
          else Release("z", "z"))
  }

  function OverlapRun(ts: seq<int>, i: nat, ea: int, j: nat, eb: int, n: nat): (es: seq<Event>)
    requires i < |ts| && j < |ts| && n <= |ts|
    ensures |es| == n
    ensures forall k :: 0 <= k < n ==> es[k] == OverlapEvent(ts, i, ea, j, eb, k)
  {
    if n == 0 then [] else OverlapRun(ts, i, ea, j, eb, n - 1) + [OverlapEvent(ts, i, ea, j, eb, n - 1)]
  }

  /** What is stored and told after n calls of that run. */
  ghost predicate OverlapAt(m: State, t: Reports, i: nat, ea: int, j: nat, eb: int, n: nat)
  {
    && (n <= i ==> m.leases.Keys == {})
    && (n > i ==> m.leases.Keys == {"r"} && ("a", "r") in t && t[("a", "r")] == ea)
    && (i < n <= j ==> m.leases["r"].expiresAt == ea)
    && (n > i && n > j ==> m.leases["r"].holder == "b" && ("b", "r") in t && t[("b", "r")] == eb)
  }

  lemma OverlapStep(m: State, t: Reports, ts: seq<int>, i: nat, ea: int, j: nat, eb: int, n: nat)
    requires i < j < |ts| && ea <= ts[j] && n < |ts| && OverlapAt(m, t, i, ea, j, eb, n)
    ensures
      var e := OverlapEvent(ts, i, ea, j, eb, n);
      OverlapAt(Next(m, e).0, Report(t, e, Next(m, e).1), i, ea, j, eb, n + 1)
  {
    assert "z" != "r" by { assert "z"[0] != "r"[0]; }
    assert "a" != "b" by { assert "a"[0] != "b"[0]; }
  }

  lemma {:induction false} OverlapReached(ts: seq<int>, i: nat, ea: int, j: nat, eb: int, n: nat)
    requires i < j < |ts| && ea <= ts[j] && n <= |ts|
    ensures
      var es := OverlapRun(ts, i, ea, j, eb, n);
      OverlapAt(After(es), Told(es), i, ea, j, eb, n)
  {
    hide Next, Report, OverlapEvent, OverlapAt;
    var es := OverlapRun(ts, i, ea, j, eb, n);
    if n == 0 {
      OverlapBegins(i, ea, j, eb);
      assert es == [];
    } else {
      assert es[..n - 1] == OverlapRun(ts, i, ea, j, eb, n - 1);
      OverlapReached(ts, i, ea, j, eb, n - 1);
      OverlapStep(After(es[..n - 1]), Told(es[..n - 1]), ts, i, ea, j, eb, n - 1);
    }
  }

  lemma OverlapBegins(i: nat, ea: int, j: nat, eb: int)
    ensures OverlapAt(START, map[], i, ea, j, eb, 0)
  {
  }

  /** If a's lease ends by the time b asks, and both expiries lie beyond now, both may act at
      now, and b is granted more. */
  lemma Overlaps(ts: seq<int>, i: nat, ea: int, j: nat, eb: int, now: int)
    requires i < j < |ts| && now < ea <= ts[j] && now < eb
    ensures
      var es := OverlapRun(ts, i, ea, j, eb, |ts|);
      HasReadings(es, ts) && !Excludes(es, now) && !GrantsExactly(es, now)
  {
    hide After, OverlapRun, Told;
    var es := OverlapRun(ts, i, ea, j, eb, |ts|);
    OverlapReached(ts, i, ea, j, eb, |ts|);
    assert MayAct(es, "a", "r", now) && MayAct(es, "b", "r", now);
    assert "a" != "b" by { assert "a"[0] != "b"[0]; }
    assert MayAcquire(After(es), now, "r", "b");
  }

  /** Over all runs with given clock readings, two holders are kept apart at now if and
      only if no reading but the first is later than now; and so for the grants. */
  lemma ExclusionExactly(ts: seq<int>, now: int)
    ensures (forall es :: HasReadings(es, ts) ==> Excludes(es, now)) <==> forall j :: 1 <= j < |ts| ==> ts[j] <= now
    ensures (forall es :: HasReadings(es, ts) ==> GrantsExactly(es, now)) <==> forall j :: 1 <= j < |ts| ==> ts[j] <= now
  {
    hide Excludes, GrantsExactly;
    if forall j :: 1 <= j < |ts| ==> ts[j] <= now {
      forall es | HasReadings(es, ts)
        ensures Excludes(es, now) && GrantsExactly(es, now)
      {
        MutualExclusion(es, now);
        GrantExactly(es, now);
      }
    } else {
      var j :| 1 <= j < |ts| && ts[j] > now;
      var es := OverlapRun(ts, 0, now + 1, j, now + 1, |ts|);
      Overlaps(ts, 0, now + 1, j, now + 1, now);
      assert HasReadings(es, ts);
    }
  }

  lemma TokenStep(m: State, e: Event)
    ensures m.nextToken <= Next(m, e).0.nextToken
    ensures Next(m, e).1.Token? ==> Next(m, e).1.token == m.nextToken < Next(m, e).0.nextToken
  {
  }

  lemma {:induction false} TokensGrow(es: seq<Event>, i: nat)
    requires i <= |es|
    ensures After(es[..i]).nextToken <= After(es).nextToken
  {
    hide Next;
    if i == |es| {
      assert es[..i] == es;
    } else {
      var before := es[..|es| - 1];
      TokenStep(After(before), es[|es| - 1]);
      TokensGrow(before, i);
      assert before[..i] == es[..i];
    }
  }

  /** Later grants carry larger tokens, whatever the resource, holder and clock. */
  lemma TokensIncrease(es: seq<Event>, i: nat, j: nat)
    requires i < j < |es| && ReplyAt(es, i).Token? && ReplyAt(es, j).Token?
    ensures ReplyAt(es, i).token < ReplyAt(es, j).token
  {
    hide Next;
    TokensGrow(es[..j], i + 1);
    TokenStep(After(es[..i]), es[i]);
    TokenStep(After(es[..j]), es[j]);
    assert es[..j][..i + 1] == es[..i + 1];
    assert es[..i + 1][..i] == es[..i];
  }

  lemma {:induction false} StoredTokensBelow(es: seq<Event>, resource: string)
    requires resource in After(es).leases
    ensures After(es).leases[resource].fencingToken < After(es).nextToken
  {
    if es != [] {
      var before := es[..|es| - 1];
      if resource in After(before).leases { StoredTokensBelow(before, resource); }
    }
  }

  // ----- the manager -----

  class DistributedLockManager {
    var leases: map<string, Lease>
    var nextToken: nat

    ghost function View(): (m: State)
      reads this
    {
      State(leases, nextToken)
    }

    constructor ()
      ensures View() == After([])
    {
      leases := map[];
      nextToken := 1;
    }

    method TryAcquire(now: int, resource: string, holder: string, ttl: int) returns (r: Option<nat>)
      modifies this
      ensures (View(), if r.Some? then Token(r.value) else Refused) ==
        Next(old(View()), Event(now, Call.TryAcquire(resource, holder, ttl)))
    {
      if resource in leases {
        var existing := leases[resource];
        if existing.holder != holder && existing.expiresAt > now {
          return None;
        }
      }
      var token := nextToken;
      nextToken := nextToken + 1;
      leases := leases[resource := Lease(holder, token, now, now + ttl)];
      return Some(token);
    }

    method Release(now: int, resource: string, holder: string) returns (released: bool)
      modifies this
      ensures (View(), if released then Released else Refused) ==
        Next(old(View()), Event(now, Call.Release(resource, holder)))
    {
      if resource in leases && leases[resource].holder == holder {
        leases := leases - {resource};
        return true;
      }
      return false;
    }

    method Renew(now: int, resource: string, holder: string, ttl: int) returns (r: Option<int>)
      modifies this
      ensures (View(), if r.Some? then Expiry(r.value) else Refused) ==
        Next(old(View()), Event(now, Call.Renew(resource, holder, ttl)))
    {
      if resource !in leases || leases[resource].holder != holder {
        return None;
      }
      leases := leases[resource := leases[resource].(expiresAt := now + ttl)];
      return Some(leases[resource].expiresAt);
    }

    method PurgeExpired(now: int) returns (count: nat)
      modifies this
      ensures (View(), Purged(count)) == Next(old(View()), Event(now, Call.PurgeExpired))
    {
      var before := |leases|;
      KeptIsSubset(leases, now);
      leases := Kept(leases, now);
      count := before - |leases|;
    }

    method IsLocked(now: int, resource: string) returns (locked: bool)
      ensures locked <==> resource in Active(View(), now)
    {
      locked := resource in leases && leases[resource].expiresAt > now;
    }

    method ActiveCount(now: int) returns (count: nat)
      ensures count == |Active(View(), now)|
    {
      count := 0;
      var todo := leases.Keys;
      ghost var found: set<string> := {};
      while todo != {}
        invariant todo <= leases.Keys && count == |found|
        invariant found == (set r | r in leases.Keys - todo && leases[r].expiresAt > now)
        decreases |todo|
      {
        var r :| r in todo;
        if leases[r].expiresAt > now {
          count := count + 1;
          found := found + {r};
        }
        todo := todo - {r};
      }
      assert found == Active(View(), now);
    }
  }
}
