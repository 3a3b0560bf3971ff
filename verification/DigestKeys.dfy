/** Which slots of the digest table share a key over a run. */
module DigestKeys {
  import opened DigestTable
  import opened DigestRuns

  ghost predicate Keyed(t: seq<Slot>) {
    UniqueKeys(t) && ShortIds(t)
  }

  // ---------------------------------------------------------------- requests and deletions

  lemma SameKeys(t: seq<Slot>, u: seq<Slot>)
    requires SameChallenges(t, u)
    ensures UniqueKeys(t) <==> UniqueKeys(u)
    ensures ShortIds(t) <==> ShortIds(u)
  {
    KeysCarryOver(t, u);
    forall i | 0 <= i < |u| ensures SameChallenge(u[i], t[i]) {
      assert SameChallenge(t[i], u[i]);
    }
    KeysCarryOver(u, t);
  }

  lemma KeysCarryOver(t: seq<Slot>, u: seq<Slot>)
    requires SameChallenges(t, u)
    ensures UniqueKeys(t) ==> UniqueKeys(u)
    ensures ShortIds(t) ==> ShortIds(u)
  {
    forall i | 0 <= i < |t| ensures t[i].callId == u[i].callId && t[i].wa == u[i].wa {
      assert SameChallenge(t[i], u[i]);
    }
    if UniqueKeys(t) {
      forall i, j | 0 <= i < j < |u| && InUse(u[i]) && InUse(u[j]) ensures !ForKey(u[j], u[i].callId, u[i].wa.realm) {
        assert !ForKey(t[j], t[i].callId, t[i].wa.realm);
      }
    }
  }

  // ---------------------------------------------------------------- stores

  /** Two slots that share a key go on sharing it when a challenge is stored. */
  lemma StoredStaysShared(t: seq<Slot>, callId: string, c: Challenge, code: int)
    requires !UniqueKeys(t)
    ensures !UniqueKeys(Stored(t, callId, c, code))
  {
    var i, j :| 0 <= i < j < |t| && InUse(t[i]) && InUse(t[j]) && ForKey(t[j], t[i].callId, t[i].wa.realm);
    var r := Stored(t, callId, c, code);
    hide Stored;
    SlotKeepsKey(t, callId, c, code, i);
    SlotKeepsKey(t, callId, c, code, j);
    assert ForKey(r[j], r[i].callId, r[i].wa.realm);
  }

  lemma SlotKeepsKey(t: seq<Slot>, callId: string, c: Challenge, code: int, i: nat)
    requires i < |t| && InUse(t[i])
    ensures var r := Stored(t, callId, c, code);
            r[i].callId == t[i].callId && SameRealm(r[i].wa.realm, t[i].wa.realm)
  {
  }

  /** No store of these challenges is cut to a key already there. */
  ghost predicate StoresApart(t: seq<Slot>, callId: string, cs: seq<Challenge>, keep: bool, code: int, env: Setting)
    decreases |cs|
  {
    cs == [] || !Answerable(cs[0], env) || !keep ||
    (!Collides(t, callId, cs[0].realm) && StoresApart(Stored(t, callId, cs[0], code), callId, cs[1..], keep, code, env))
  }

  lemma {:induction false} NothingKept(t: seq<Slot>, callId: string, cs: seq<Challenge>, code: int, env: Setting)
    ensures StoredAll(t, callId, cs, false, code, env) == t
    decreases |cs|
  {
    if cs != [] && Answerable(cs[0], env) {
      NothingKept(t, callId, cs[1..], code, env);
    }
  }

  lemma {:induction false} StoredAllStaysShared(t: seq<Slot>, callId: string, cs: seq<Challenge>, keep: bool,
                                                code: int, env: Setting)
    requires !UniqueKeys(t)
    ensures !UniqueKeys(StoredAll(t, callId, cs, keep, code, env))
    decreases |cs|
  {
    if cs != [] && Answerable(cs[0], env) {
      StoredStaysShared(t, callId, cs[0], code);
      hide Stored, UniqueKeys;
      StoredAllStaysShared(if keep then Stored(t, callId, cs[0], code) else t, callId, cs[1..], keep, code, env);
    }
  }

  /** The challenges of one kind keep all keys distinct exactly when no store collides. */
  lemma {:induction false} StoredAllKeys(t: seq<Slot>, callId: string, cs: seq<Challenge>, keep: bool, code: int,
                                         env: Setting)
    requires Keyed(t)
    ensures UniqueKeys(StoredAll(t, callId, cs, keep, code, env)) <==> StoresApart(t, callId, cs, keep, code, env)
    ensures var u := StoredAll(t, callId, cs, keep, code, env);
            UniqueKeys(u) ==> ShortIds(u)
    decreases |cs|
  {
    if !keep {
      NothingKept(t, callId, cs, code, env);
    } else if cs != [] && Answerable(cs[0], env) {
      StoredKeepsKeys(t, callId, cs[0], code);
      hide Stored, UniqueKeys, ShortIds, Collides;
      var r := Stored(t, callId, cs[0], code);
      if Collides(t, callId, cs[0].realm) {
        StoredAllStaysShared(r, callId, cs[1..], keep, code, env);
      } else {
        StoredAllKeys(r, callId, cs[1..], keep, code, env);
      }
    }
  }

  // ---------------------------------------------------------------- events

  ghost predicate EventApart(t: seq<Slot>, ev: Event) {
    match ev
    case Challenged(callId, www, proxy, keep, env) =>
      && StoresApart(t, callId, www, keep, 401, env)
      && (AllAnswerable(www, env) ==>
            StoresApart(StoredAll(t, callId, www, keep, 401, env), callId, proxy, keep, 407, env))
    case _ => true
  }

  lemma AfterKeys(t: seq<Slot>, ev: Event)
    requires Keyed(t)
    ensures UniqueKeys(TableAfter(t, ev)) <==> EventApart(t, ev)
    ensures UniqueKeys(TableAfter(t, ev)) ==> ShortIds(TableAfter(t, ev))
  {
    hide UniqueKeys, ShortIds, StoresApart, StoredAll;
    match ev
    case Challenged(callId, www, proxy, keep, env) =>
      StoredAllKeys(t, callId, www, keep, 401, env);
      var t1 := StoredAll(t, callId, www, keep, 401, env);
      if UniqueKeys(t1) {
        StoredAllKeys(t1, callId, proxy, keep, 407, env);
      } else {
        StoredAllStaysShared(t1, callId, proxy, keep, 407, env);
      }
    case Request(_, _) =>
    case Delete(callId) =>
      DeletedKeepsKeys(t, callId);
  }

  /** An event keeps all keys distinct exactly when none of its stores collides. */
  lemma NextKeys(w: World, ev: Event)
    requires Keyed(w.table)
    ensures UniqueKeys(Next(w, ev).table) <==> EventApart(w.table, ev)
    ensures UniqueKeys(Next(w, ev).table) ==> Keyed(Next(w, ev).table)
  {
    NextTable(w, ev);
    SameKeys(Next(w, ev).table, TableAfter(w.table, ev));
    AfterKeys(w.table, ev);
    hide Next, TableAfter, EventApart, SameChallenges, UniqueKeys, ShortIds;
  }

  // ---------------------------------------------------------------- every run

  /** No store of the run collides. */
  ghost predicate RunApart(w: World, events: seq<Event>)
    decreases |events|
  {
    events == [] || (EventApart(w.table, events[0]) && RunApart(Next(w, events[0]), events[1..]))
  }

  ghost predicate AlwaysUnique(w: World, events: seq<Event>) {
    forall m :: 0 <= m <= |events| ==> UniqueKeys(After(w, events, m).table)
  }

  function After(w: World, events: seq<Event>, m: nat): World
    requires m <= |events|
  {
    Run(w, events[..m])
  }

  lemma AfterStep(w: World, events: seq<Event>, m: nat)
    requires events != [] && 0 < m <= |events|
    ensures After(w, events, m) == After(Next(w, events[0]), events[1..], m - 1)
  {
    assert events[..m][0] == events[0] && events[..m][1..] == events[1..][..m - 1];
  }

  lemma {:induction false} KeysOverRun(w: World, events: seq<Event>)
    requires Keyed(w.table)
    ensures AlwaysUnique(w, events) <==> RunApart(w, events)
    decreases |events|
  {
    assert After(w, events, 0) == w;
    hide Next, EventApart, UniqueKeys, ShortIds, After;
    if events != [] {
      var v := Next(w, events[0]);
      NextKeys(w, events[0]);
      AfterStep(w, events, 1);
      StartsThere(v, events[1..]);
      if UniqueKeys(v.table) {
        KeysOverRun(v, events[1..]);
        forall m | 0 < m <= |events|
          ensures UniqueKeys(After(w, events, m).table) <==> UniqueKeys(After(v, events[1..], m - 1).table)
        {
          AfterStep(w, events, m);
        }
        if AlwaysUnique(w, events) {
          forall m | 0 <= m <= |events[1..]| ensures UniqueKeys(After(v, events[1..], m).table) {
            AfterStep(w, events, m + 1);
          }
        }
      } else {
        assert !UniqueKeys(After(w, events, 1).table);
      }
    }
  }

  lemma StartsThere(w: World, events: seq<Event>)
    ensures After(w, events, 0) == w
  {
  }

  lemma StartIsKeyed()
    ensures Keyed(START.table)
  {
  }

  /**
   * From the empty table on, no two slots in use share Call-ID and realm at any time exactly when no store collides.
   */
  lemma KeysStayDistinct(events: seq<Event>)
    ensures AlwaysUnique(START, events) <==> RunApart(START, events)
  {
    StartIsKeyed();
    KeysOverRun(START, events);
  }

  // ---------------------------------------------------------------- short and long Call-IDs

  /** No Call-ID of a challenged request is too long for its field. */
  ghost predicate ShortRun(events: seq<Event>) {
    forall i :: 0 <= i < |events| && events[i].Challenged? ==> |events[i].callId| < CALL_ID_SIZE
  }

  lemma {:induction false} ShortStoresApart(t: seq<Slot>, callId: string, cs: seq<Challenge>, keep: bool, code: int,
                                            env: Setting)
    requires |callId| < CALL_ID_SIZE
    ensures StoresApart(t, callId, cs, keep, code, env)
    decreases |cs|
  {
    if cs != [] && Answerable(cs[0], env) && keep {
      ShortStoresApart(Stored(t, callId, cs[0], code), callId, cs[1..], keep, code, env);
    }
  }

  /** Where every Call-ID fits its field, no store collides. */
  lemma {:induction false} RunKeepsKeys(w: World, events: seq<Event>)
    requires Keyed(w.table) && ShortRun(events)
    ensures RunApart(w, events) && Keyed(Run(w, events).table)
    decreases |events|
  {
    if events != [] {
      var ev := events[0];
      if ev.Challenged? {
        ShortStoresApart(w.table, ev.callId, ev.www, ev.keep, 401, ev.env);
        var t := StoredAll(w.table, ev.callId, ev.www, ev.keep, 401, ev.env);
        ShortStoresApart(t, ev.callId, ev.proxy, ev.keep, 407, ev.env);
      }
      assert EventApart(w.table, ev);
      hide Next, EventApart, StoresApart, UniqueKeys, ShortIds, StoredAll;
      NextKeys(w, ev);
      RunKeepsKeys(Next(w, ev), events[1..]);
    }
  }

  lemma OneStored(w: World, callId: string, c: Challenge, env: Setting)
    requires Answerable(c, env)
    ensures Next(w, Challenged(callId, [c], [], true, env)).table == Stored(w.table, callId, c, 401)
  {
    AnsweredTable(w, callId, [c], true, 401, env);
    AllGranted(w, callId, [c], true, 401, env);
    assert [c][1..] == [];
    var w' := Answered(w, callId, [c], true, 401, env).0;
    assert Answered(w', callId, [], true, 407, env) == (w', Success);
    assert StoredAll(Stored(w.table, callId, c, 401), callId, [], true, 401, env) == Stored(w.table, callId, c, 401);
    hide Stored, Answered;
  }

  /** A Call-ID too long for its field that is challenged twice for the same realm ends up in two slots of one key. */
  lemma SharedKey(callId: string, c: Challenge, d: Challenge, env: Setting)
    requires |callId| >= CALL_ID_SIZE && SameRealm(c.realm, d.realm) && Answerable(c, env) && Answerable(d, env)
    ensures var events := [Challenged(callId, [c], [], true, env), Challenged(callId, [d], [], true, env)];
            !UniqueKeys(Run(START, events).table)
  {
    var first, second := Challenged(callId, [c], [], true, env), Challenged(callId, [d], [], true, env);
    var w1 := Next(START, first);
    OneStored(START, callId, c, env);
    OneStored(w1, callId, d, env);
    assert [first, second][1..] == [second] && [second][1..] == [];
    assert Run(Next(w1, second), []) == Next(w1, second);
    assert Run(w1, [second]) == Next(w1, second) && Run(START, [first, second]) == Run(w1, [second]);
    hide Next, Run;
    StoredFirst(callId, c);
    StoredSecond(w1.table, callId, c, d);
  }

  lemma StoredFirst(callId: string, c: Challenge)
    requires |callId| >= CALL_ID_SIZE
    ensures Stored(EmptyTable(), callId, c, 401) == EmptyTable()[0 := Slot(Kept(callId), c, CNONCE, 1, 401)]
  {
    var t := EmptyTable();
    LongIdMatchesNothing(t, callId, c.realm);
    assert FirstEmpty(t) == 0;
  }

  lemma StoredSecond(t: seq<Slot>, callId: string, c: Challenge, d: Challenge)
    requires |callId| >= CALL_ID_SIZE && SameRealm(c.realm, d.realm)
    requires t == EmptyTable()[0 := Slot(Kept(callId), c, CNONCE, 1, 401)]
    ensures !UniqueKeys(Stored(t, callId, d, 401))
  {
    assert Keyed(t);
    assert ForKey(t[0], Kept(callId), d.realm);
    assert FirstKey(t, Kept(callId), d.realm) == 0;
    assert !InUse(t[1]) && FirstEmpty(t) <= 1;
    StoredKeepsKeys(t, callId, d, 401);
  }
}
