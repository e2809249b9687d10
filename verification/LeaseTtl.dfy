/**
 Which clocks keep lease holders apart when every requested time to live is
 positive: late readings then do no harm as long as each is at most all earlier
 ones.
 */
module LeaseTtl {
  import opened LeaseManager

  ghost predicate PositiveTtl(e: Event)
  {
    (e.call.TryAcquire? ==> e.call.ttl > 0) && (e.call.Renew? ==> e.call.ttl > 0)
  }

  ghost predicate AllPositive(es: seq<Event>)
  {
    forall i :: 0 <= i < |es| ==> PositiveTtl(es[i])
  }

  /** Every reading after now is at most all readings before it. */
  predicate LateOnlyFalling(ts: seq<int>, now: int)
  {
    forall i, j :: 0 <= i < j < |ts| && ts[j] > now ==> ts[j] <= ts[i]
  }

  ghost function Readings(es: seq<Event>): (ts: seq<int>)
    ensures HasReadings(es, ts)
  {
    seq(|es|, i requires 0 <= i < |es| => es[i].now)
  }

  // ----- while the clock only falls, nothing expires -----

  /** Everything told is stored, and nothing stored has expired at the given time. */
  ghost predicate AllHeld(m: State, t: Reports, at: int)
  {
    && (forall h, r :: (h, r) in t ==> Stores(m, t, h, r))
    && (forall r :: r in m.leases ==> m.leases[r].expiresAt > at)
  }

  lemma HeldStep(m: State, t: Reports, at: int, e: Event)
    requires AllHeld(m, t, at) && e.now <= at && PositiveTtl(e)
    ensures AllHeld(Next(m, e).0, Report(t, e, Next(m, e).1), e.now)
  {
    var (m', t') := (Next(m, e).0, Report(t, e, Next(m, e).1));
    forall h, r | (h, r) in t'
      ensures Stores(m', t', h, r)
    {
      assert (h, r) in t ==> Stores(m, t, h, r);
    }
  }

  lemma HeldFirst(e: Event)
    requires PositiveTtl(e)
    ensures AllHeld(Next(START, e).0, Report(map[], e, Next(START, e).1), e.now)
  {
  }

  lemma {:induction false} FallingHolds(es: seq<Event>)
    requires es != [] && AllPositive(es) && forall i, j :: 0 <= i < j < |es| ==> es[j].now <= es[i].now
    ensures AllHeld(After(es), Told(es), es[|es| - 1].now)
  {
    hide Next, Report, AllHeld, PositiveTtl;
    var n := |es| - 1;
    var before := es[..n];
    if n == 0 {
      assert before == [];
      HeldFirst(es[0]);
    } else {
      FallingHolds(before);
      HeldStep(After(before), Told(before), es[n - 1].now, es[n]);
    }
  }

  // ----- in general -----

  lemma {:induction false} HolderIsStoredToo(es: seq<Event>, holder: string, resource: string, now: int)
    requires AllPositive(es) && LateOnlyFalling(Readings(es), now) && MayAct(es, holder, resource, now)
    ensures Stores(After(es), Told(es), holder, resource)
  {
    hide Next, Report, Stores;
    var n := |es| - 1;
    var (before, e) := (es[..n], es[n]);
    if e.now > now {
      FallingThroughout(es, now);
      FallingHolds(es);
    } else {
      assert forall i :: 0 <= i < n ==> Readings(before)[i] == Readings(es)[i];
      forall h | Valid(Told(before), h, resource, now)
        ensures Stores(After(before), Told(before), h, resource)
      {
        HolderIsStoredToo(before, h, resource, now);
      }
      StoresStep(After(before), Told(before), e, holder, resource, now);
    }
  }

  lemma FallingThroughout(es: seq<Event>, now: int)
    requires es != [] && LateOnlyFalling(Readings(es), now) && es[|es| - 1].now > now
    ensures forall i, j :: 0 <= i < j < |es| ==> es[j].now <= es[i].now
  {
    var ts := Readings(es);
    forall i, j | 0 <= i < j < |es|
      ensures es[j].now <= es[i].now
    {
      assert ts[|es| - 1] > now;
      assert j < |es| - 1 ==> ts[|es| - 1] <= ts[j];
    }
  }

  lemma ExcludesToo(es: seq<Event>, now: int)
    requires AllPositive(es) && LateOnlyFalling(Readings(es), now)
    ensures Excludes(es, now) && GrantsExactly(es, now)
  {
    hide MayAct, Told, After, LateOnlyFalling, AllPositive, Stores, Excludes, GrantsExactly;
    forall holder, resource | MayAct(es, holder, resource, now)
      ensures Stores(After(es), Told(es), holder, resource)
    {
      HolderIsStoredToo(es, holder, resource, now);
    }
    StoredActorsExclude(es, now);
    StoredActorsGrant(es, now);
  }

  ghost predicate RunWith(es: seq<Event>, ts: seq<int>)
  {
    HasReadings(es, ts) && AllPositive(es)
  }

  /** Over all runs with given clock readings and positive times to live, two holders are kept
      apart at now, and grants are exact, if and only if every reading after now is at most
      all readings before it. */
  lemma ExclusionExactlyPositive(ts: seq<int>, now: int)
    ensures (forall es :: RunWith(es, ts) ==> Excludes(es, now)) <==> LateOnlyFalling(ts, now)
    ensures (forall es :: RunWith(es, ts) ==> GrantsExactly(es, now)) <==> LateOnlyFalling(ts, now)
  {
    hide Excludes, GrantsExactly;
    if LateOnlyFalling(ts, now) {
      forall es | RunWith(es, ts)
        ensures Excludes(es, now) && GrantsExactly(es, now)
      {
        assert Readings(es) == ts;
        ExcludesToo(es, now);
      }
    } else {
      var i, j :| 0 <= i < j < |ts| && ts[j] > now && ts[j] > ts[i];
      var ea := if ts[i] < now then now + 1 else ts[i] + 1;
      var es := OverlapRun(ts, i, ea, j, ts[j] + 1, |ts|);
      Overlaps(ts, i, ea, j, ts[j] + 1, now);
      assert RunWith(es, ts);
    }
  }
}
