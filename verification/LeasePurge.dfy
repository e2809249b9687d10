/**
 What purging expired leases changes: a run with a purge against the same run
 without it, from any state on and under any clock.
 */
module LeasePurge {
  import opened LeaseManager

  /** The leases a purge at the given time takes away. */
  function Dropped(leases: map<string, Lease>, at: int): (gone: map<string, Lease>)
  {
    map r | r in leases && leases[r].expiresAt <= at :: leases[r]
  }

  predicate IsGone(gone: map<string, Lease>, resource: string, holder: string)
  {
    resource in gone && gone[resource].holder == holder
  }

  /** The call meets a lease that is gone: its holder releases or renews it, or somebody
      else asks for the resource at a time before the expiry. */
  predicate Meets(gone: map<string, Lease>, e: Event)
  {
    match e.call
    case TryAcquire(r, holder, _) => r in gone && gone[r].holder != holder && e.now < gone[r].expiresAt
    case Release(r, holder) => IsGone(gone, r, holder)
    case Renew(r, holder, _) => IsGone(gone, r, holder)
    case PurgeExpired => false
  }

  /** A renewal of a lease that is gone, for a time still to come. */
  predicate Revives(gone: map<string, Lease>, e: Event)
  {
    e.call.Renew? && IsGone(gone, e.call.resource, e.call.holder) && e.call.ttl > 0
  }

  /** What the run without the purge still has and the run with it has not, after a call. */
  function GoneNext(gone: map<string, Lease>, e: Event): (g: map<string, Lease>)
  {
    match e.call
    case TryAcquire(r, _, _) => gone - {r}
    case Release(r, holder) => if IsGone(gone, r, holder) then gone - {r} else gone
    case Renew(r, holder, ttl) =>
      if IsGone(gone, r, holder) then gone[r := gone[r].(expiresAt := e.now + ttl)] else gone
    case PurgeExpired => Kept(gone, e.now)
  }

  function GoneAfter(gone: map<string, Lease>, es: seq<Event>): (g: map<string, Lease>)
  {
    if es == [] then gone else GoneNext(GoneAfter(gone, es[..|es| - 1]), es[|es| - 1])
  }

  function ReplyFrom(m: State, es: seq<Event>, k: nat): (r: Reply)
    requires k < |es|
  {
    Next(RunFrom(m, es[..k]), es[k]).1
  }

  function Purge(m: State, at: int): (m': State)
  {
    Next(m, Event(at, PurgeExpired)).0
  }

  /** The second state is the first with the leases that are gone still there. */
  ghost predicate Ahead(m: State, m': State, gone: map<string, Lease>)
  {
    && m.nextToken == m'.nextToken
    && (forall r :: r in m'.leases <==> r in m.leases || r in gone)
    && (forall r :: r in m.leases ==> r !in gone && m'.leases[r] == m.leases[r])
    && (forall r :: r in gone ==> m'.leases[r] == gone[r])
  }

  lemma AheadAtPurge(m: State, at: int)
    ensures Ahead(Purge(m, at), m, Dropped(m.leases, at))
  {
  }

  lemma AheadAcquire(m: State, m': State, gone: map<string, Lease>, e: Event)
    requires Ahead(m, m', gone) && e.call.TryAcquire? && !Meets(gone, e)
    ensures Ahead(Next(m, e).0, Next(m', e).0, GoneNext(gone, e))
  {
    var r := e.call.resource;
    assert MayAcquire(m, e.now, r, e.call.holder) <==> MayAcquire(m', e.now, r, e.call.holder);
  }

  lemma AheadRelease(m: State, m': State, gone: map<string, Lease>, e: Event)
    requires Ahead(m, m', gone) && e.call.Release?
    ensures Ahead(Next(m, e).0, Next(m', e).0, GoneNext(gone, e))
  {
  }

  lemma AheadRenew(m: State, m': State, gone: map<string, Lease>, e: Event)
    requires Ahead(m, m', gone) && e.call.Renew?
    ensures Ahead(Next(m, e).0, Next(m', e).0, GoneNext(gone, e))
  {
  }

  lemma AheadPurge(m: State, m': State, gone: map<string, Lease>, e: Event)
    requires Ahead(m, m', gone) && e.call.PurgeExpired?
    ensures Ahead(Next(m, e).0, Next(m', e).0, GoneNext(gone, e))
  {
  }

  lemma AheadStep(m: State, m': State, gone: map<string, Lease>, e: Event)
    requires Ahead(m, m', gone) && !(e.call.TryAcquire? && Meets(gone, e))
    ensures Ahead(Next(m, e).0, Next(m', e).0, GoneNext(gone, e))
  {
    hide *;
    match e.call
    case TryAcquire(_, _, _) => AheadAcquire(m, m', gone, e);
    case Release(_, _) => AheadRelease(m, m', gone, e);
    case Renew(_, _, _) => AheadRenew(m, m', gone, e);
    case PurgeExpired => AheadPurge(m, m', gone, e);
  }

  /** Replies differ exactly at the calls that meet a lease that is gone. */
  lemma ReplyStep(m: State, m': State, gone: map<string, Lease>, e: Event)
    requires Ahead(m, m', gone) && !e.call.PurgeExpired?
    ensures Next(m, e).1 == Next(m', e).1 <==> !Meets(gone, e)
  {
  }

  ghost predicate NoneMet(gone: map<string, Lease>, es: seq<Event>, n: nat)
    requires n <= |es|
  {
    forall k :: 0 <= k < n ==> !Meets(GoneAfter(gone, es[..k]), es[k])
  }

  /** No lease that is gone runs beyond the given time. */
  predicate AllBy(gone: map<string, Lease>, at: int)
  {
    forall r :: r in gone ==> gone[r].expiresAt <= at
  }

  lemma {:induction false} AheadWhileNoneMet(m: State, at: int, es: seq<Event>, n: nat)
    requires n <= |es| && NoneMet(Dropped(m.leases, at), es, n)
    ensures
      var gone := GoneAfter(Dropped(m.leases, at), es[..n]);
      Ahead(RunFrom(Purge(m, at), es[..n]), RunFrom(m, es[..n]), gone) && AllBy(gone, at)
  {
    hide Next, Ahead, Meets, Purge;
    if n == 0 {
      AheadAtPurge(m, at);
    } else {
      AheadWhileNoneMet(m, at, es, n - 1);
      var (before, e) := (es[..n - 1], es[n - 1]);
      assert es[..n][..n - 1] == before;
      var gone := GoneAfter(Dropped(m.leases, at), before);
      AheadStep(RunFrom(Purge(m, at), before), RunFrom(m, before), gone, e);
      StillBy(gone, e, at);
    }
  }

  lemma StillBy(gone: map<string, Lease>, e: Event, at: int)
    requires AllBy(gone, at) && !Meets(gone, e)
    ensures AllBy(GoneNext(gone, e), at)
  {
  }

  lemma SameActive(m: State, m': State, gone: map<string, Lease>, now: int)
    requires Ahead(m, m', gone) && AllBy(gone, now)
    ensures Active(m, now) == Active(m', now)
  {
  }

  /** All later replies, counts of purges aside, are those of the run without the purge if
      and only if no later call meets a purged lease; from the purge on, locks and counts
      are then the same as well. */
  lemma PurgeUnseenExactly(m: State, at: int, es: seq<Event>)
    ensures
      (forall k :: 0 <= k < |es| && !es[k].call.PurgeExpired? ==> ReplyFrom(Purge(m, at), es, k) == ReplyFrom(m, es, k))
      <==> NoneMet(Dropped(m.leases, at), es, |es|)
    ensures NoneMet(Dropped(m.leases, at), es, |es|) ==>
      forall k, now :: 0 <= k <= |es| && at <= now ==>
        Active(RunFrom(Purge(m, at), es[..k]), now) == Active(RunFrom(m, es[..k]), now)
  {
    hide Next, Ahead, Meets, Purge, Dropped, GoneAfter, Active, RunFrom;
    var gone := Dropped(m.leases, at);
    if NoneMet(gone, es, |es|) {
      forall k | 0 <= k < |es| && !es[k].call.PurgeExpired?
        ensures ReplyFrom(Purge(m, at), es, k) == ReplyFrom(m, es, k)
      {
        AheadWhileNoneMet(m, at, es, k);
        ReplyStep(RunFrom(Purge(m, at), es[..k]), RunFrom(m, es[..k]), GoneAfter(gone, es[..k]), es[k]);
      }
      forall k, now | 0 <= k <= |es| && at <= now
        ensures Active(RunFrom(Purge(m, at), es[..k]), now) == Active(RunFrom(m, es[..k]), now)
      {
        AheadWhileNoneMet(m, at, es, k);
        SameActive(RunFrom(Purge(m, at), es[..k]), RunFrom(m, es[..k]), GoneAfter(gone, es[..k]), now);
      }
    } else {
      var k := FirstMet(gone, es, |es|);
      AheadWhileNoneMet(m, at, es, k);
      ReplyStep(RunFrom(Purge(m, at), es[..k]), RunFrom(m, es[..k]), GoneAfter(gone, es[..k]), es[k]);
    }
  }

  lemma FirstMet(gone: map<string, Lease>, es: seq<Event>, n: nat) returns (k: nat)
    requires n <= |es| && !NoneMet(gone, es, n)
    ensures k < n && NoneMet(gone, es, k) && Meets(GoneAfter(gone, es[..k]), es[k]) && !es[k].call.PurgeExpired?
  {
    k := 0;
    while !Meets(GoneAfter(gone, es[..k]), es[k])
      invariant k < n && NoneMet(gone, es, k)
      decreases n - k
    {
      assert NoneMet(gone, es, k + 1);
      assert k + 1 < n;
      k := k + 1;
    }
  }

  // ----- what a purge does to locks -----

  /** The time before call k: that of the call before it, or of the purge. */
  function TimeBefore(at: int, es: seq<Event>, k: nat): (t: int)
    requires k <= |es|
  {
    if k == 0 then at else es[k - 1].now
  }

  predicate OrderedFrom(at: int, es: seq<Event>)
  {
    forall k :: 0 <= k < |es| ==> TimeBefore(at, es, k) <= es[k].now
  }

  ghost predicate NoneRevived(gone: map<string, Lease>, es: seq<Event>, n: nat)
    requires n <= |es|
  {
    forall k :: 0 <= k < n ==> !Revives(GoneAfter(gone, es[..k]), es[k])
  }

  lemma {:induction false} AheadWhileNoneRevived(m: State, at: int, es: seq<Event>, n: nat)
    requires n <= |es| && OrderedFrom(at, es) && NoneRevived(Dropped(m.leases, at), es, n)
    ensures
      var gone := GoneAfter(Dropped(m.leases, at), es[..n]);
      && Ahead(RunFrom(Purge(m, at), es[..n]), RunFrom(m, es[..n]), gone)
      && AllBy(gone, TimeBefore(at, es, n))
  {
    hide Next, Ahead, Revives, Purge, Meets, GoneNext;
    if n == 0 {
      AheadAtPurge(m, at);
    } else {
      AheadWhileNoneRevived(m, at, es, n - 1);
      var (before, e) := (es[..n - 1], es[n - 1]);
      assert es[..n][..n - 1] == before;
      var gone := GoneAfter(Dropped(m.leases, at), before);
      BySoon(gone, e, TimeBefore(at, es, n - 1));
      AheadStep(RunFrom(Purge(m, at), before), RunFrom(m, before), gone, e);
    }
  }

  lemma BySoon(gone: map<string, Lease>, e: Event, at: int)
    requires AllBy(gone, at) && at <= e.now
    ensures !(e.call.TryAcquire? && Meets(gone, e))
    ensures !Revives(gone, e) ==> AllBy(GoneNext(gone, e), e.now)
  {
  }

  /** Locks and counts of active leases, after each call and at any time from that call on. */
  ghost predicate SameLocks(m: State, at: int, es: seq<Event>)
  {
    forall k, now :: 0 <= k <= |es| && TimeBefore(at, es, k) <= now ==>
      Active(RunFrom(Purge(m, at), es[..k]), now) == Active(RunFrom(m, es[..k]), now)
  }

  /** While time does not run backwards, a purge changes no lock and no count if and only if no
      later call renews a purged lease for a time still to come. */
  lemma LocksUnchangedExactly(m: State, at: int, es: seq<Event>)
    requires OrderedFrom(at, es)
    ensures SameLocks(m, at, es) <==> NoneRevived(Dropped(m.leases, at), es, |es|)
  {
    hide Next, Ahead, Revives, Purge, Dropped, GoneAfter, Active, RunFrom, OrderedFrom;
    var gone := Dropped(m.leases, at);
    if NoneRevived(gone, es, |es|) {
      forall k, now | 0 <= k <= |es| && TimeBefore(at, es, k) <= now
        ensures Active(RunFrom(Purge(m, at), es[..k]), now) == Active(RunFrom(m, es[..k]), now)
      {
        AheadWhileNoneRevived(m, at, es, k);
        SameActive(RunFrom(Purge(m, at), es[..k]), RunFrom(m, es[..k]), GoneAfter(gone, es[..k]), now);
      }
    } else {
      var k := FirstRevived(gone, es, |es|);
      AheadWhileNoneRevived(m, at, es, k);
      var (w, m') := (RunFrom(Purge(m, at), es[..k]), RunFrom(m, es[..k]));
      RevivedIsActive(w, m', GoneAfter(gone, es[..k]), es[k]);
      RunStep(Purge(m, at), es, k);
      RunStep(m, es, k);
    }
  }

  lemma RunStep(m: State, es: seq<Event>, k: nat)
    requires k < |es|
    ensures RunFrom(m, es[..k + 1]) == Next(RunFrom(m, es[..k]), es[k]).0
  {
    hide Next;
    assert es[..k + 1][..k] == es[..k];
  }

  lemma RevivedIsActive(m: State, m': State, gone: map<string, Lease>, e: Event)
    requires Ahead(m, m', gone) && Revives(gone, e)
    ensures Active(Next(m, e).0, e.now) != Active(Next(m', e).0, e.now)
  {
    var r := e.call.resource;
    assert r !in m.leases;
    assert r !in Active(Next(m, e).0, e.now) && r in Active(Next(m', e).0, e.now);
  }

  lemma FirstRevived(gone: map<string, Lease>, es: seq<Event>, n: nat) returns (k: nat)
    requires n <= |es| && !NoneRevived(gone, es, n)
    ensures k < n && NoneRevived(gone, es, k) && Revives(GoneAfter(gone, es[..k]), es[k])
  {
    k := 0;
    while !Revives(GoneAfter(gone, es[..k]), es[k])
      invariant k < n && NoneRevived(gone, es, k)
      decreases n - k
    {
      assert NoneRevived(gone, es, k + 1);
      assert k + 1 < n;
      k := k + 1;
    }
  }

  /** Acquired by a until 10, then a renewal at 21: a purge at 20 in between unlocks the resource
      at 22, where b is then granted what it is refused without the purge. */
  lemma RenewalShowsPurge()
    ensures
      var m := After([Event(0, TryAcquire("r", "a", 10))]);
      var renewal := [Event(21, Renew("r", "a", 10))];
      && "r" in Active(RunFrom(m, renewal), 22) && "r" !in Active(RunFrom(Purge(m, 20), renewal), 22)
      && !MayAcquire(RunFrom(m, renewal), 22, "r", "b") && MayAcquire(RunFrom(Purge(m, 20), renewal), 22, "r", "b")
  {
    var first := Event(0, TryAcquire("r", "a", 10));
    var renewal := [Event(21, Renew("r", "a", 10))];
    assert [first][..0] == [] && renewal[..0] == [];
    var m := After([first]);
    assert RunFrom(START, []) == START;
    assert m == Next(START, first).0;
    assert m == State(map["r" := Lease("a", 1, 0, 10)], 2);
    assert "r" !in Purge(m, 20).leases;
    assert "a" != "b" by { assert "a"[0] != "b"[0]; }
  }
}
