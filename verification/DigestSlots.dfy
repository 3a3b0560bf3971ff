/**
 * What one store, one deletion and one request do, slot by slot and told without the search for the slot; and that what
 * is deleted stays unused.
 */
module DigestSlots {
  import opened CaseFolding
  import opened DigestTable
  import opened DigestRuns
  import opened DigestCounts

  // ---------------------------------------------------------------- slots

  /** The slot is in use for this call, whatever the case of the letters. */
  ghost predicate Answers(s: Slot, callId: string) {
    s.callId != "" && SameLetters(s.callId, callId)
  }

  ghost predicate AnswersFor(s: Slot, callId: string, realm: Option<string>) {
    && Answers(s, callId)
    && (s.wa.realm.None? <==> realm.None?)
    && (s.wa.realm.Some? && realm.Some? ==> SameLetters(s.wa.realm.value, realm.value))
  }

  lemma CallIs(s: Slot, callId: string)
    ensures ForCall(s, callId) <==> Answers(s, callId)
  {
    SameTextIs(s.callId, callId);
    hide SameText;
  }

  lemma KeyIs(s: Slot, callId: string, realm: Option<string>)
    ensures ForKey(s, callId, realm) <==> AnswersFor(s, callId, realm)
  {
    CallIs(s, callId);
    if s.wa.realm.Some? && realm.Some? {
      SameTextIs(s.wa.realm.value, realm.value);
    }
    hide SameText, ForCall, Answers;
  }

  ghost predicate NoneAnswers(t: seq<Slot>, callId: string) {
    forall i :: 0 <= i < |t| ==> !Answers(t[i], callId)
  }

  /** Slot k and no other was changed. */
  ghost predicate OnlyAt(t: seq<Slot>, r: seq<Slot>, k: nat) {
    k < |t| == |r| && forall j :: 0 <= j < |t| && j != k ==> r[j] == t[j]
  }

  // ---------------------------------------------------------------- deleting

  /** Slot k was the first of the call, and is empty now. */
  ghost predicate Cleared(t: seq<Slot>, r: seq<Slot>, callId: string, k: nat) {
    && OnlyAt(t, r, k) && Answers(t[k], callId) && r[k].callId == ""
    && forall j :: 0 <= j < k ==> !Answers(t[j], callId)
  }

  /** How many slots answer to the Call-ID. */
  ghost function CallSlots(t: seq<Slot>, callId: string): nat {
    if t == [] then 0 else (if Answers(t[0], callId) then 1 else 0) + CallSlots(t[1..], callId)
  }

  lemma {:induction false} ClearedCounts(t: seq<Slot>, r: seq<Slot>, callId: string, k: nat)
    requires OnlyAt(t, r, k) && Answers(t[k], callId) && r[k].callId == ""
    ensures CallSlots(r, callId) + 1 == CallSlots(t, callId)
    decreases k
  {
    if k > 0 {
      assert r[0] == t[0];
      assert OnlyAt(t[1..], r[1..], k - 1);
      ClearedCounts(t[1..], r[1..], callId, k - 1);
    } else {
      assert r[1..] == t[1..];
    }
  }

  lemma FirstCallIs(t: seq<Slot>, callId: string)
    ensures var k := FirstCall(t, callId);
            && k <= |t| && (k < |t| ==> Answers(t[k], callId))
            && forall j :: 0 <= j < k ==> !Answers(t[j], callId)
  {
    var k := FirstCall(t, callId);
    if k < |t| {
      CallIs(t[k], callId);
    }
    forall j | 0 <= j < k ensures !Answers(t[j], callId) {
      CallIs(t[j], callId);
    }
  }

  /**
   * A deletion clears exactly the first slot of the call; there is a slot fewer that answers, and room for a new
   * call.
   */
  lemma DeletedSlot(t: seq<Slot>, callId: string)
    ensures var r := Deleted(t, callId);
            if NoneAnswers(t, callId) then r == t
            else && (exists k :: 0 <= k < |t| && Cleared(t, r, callId, k))
                 && CallSlots(r, callId) + 1 == CallSlots(t, callId) && FirstEmpty(r) < |r|
  {
    var k, r := FirstCall(t, callId), Deleted(t, callId);
    FirstCallIs(t, callId);
    if k < |t| {
      assert Cleared(t, r, callId, k);
      ClearedCounts(t, r, callId, k);
      assert !InUse(r[k]);
    }
  }

  // ---------------------------------------------------------------- storing

  /**
   * Slot k was the first of the call and realm; it holds the new challenge from count 1 on and keeps everything else.
   */
  ghost predicate Updated(t: seq<Slot>, r: seq<Slot>, callId: string, c: Challenge, k: nat) {
    && OnlyAt(t, r, k) && AnswersFor(t[k], callId, c.realm) && r[k].wa == c && r[k].nonceCount == 1
    && r[k].callId == t[k].callId && r[k].cnonce == t[k].cnonce && r[k].answerCode == t[k].answerCode
    && forall j :: 0 <= j < k ==> !AnswersFor(t[j], callId, c.realm)
  }

  /** Slot k was the first empty one; it holds the first 63 characters of the Call-ID, the challenge and its kind. */
  ghost predicate Taken(t: seq<Slot>, r: seq<Slot>, callId: string, c: Challenge, code: int, k: nat) {
    && OnlyAt(t, r, k) && t[k].callId == "" && r[k].wa == c && r[k].nonceCount == 1
    && r[k].callId == (if |callId| <= 63 then callId else callId[..63])
    && r[k].cnonce == "0a4f113b" && r[k].answerCode == code
    && forall j :: 0 <= j < k ==> t[j].callId != ""
  }

  ghost predicate NoneForKey(t: seq<Slot>, callId: string, realm: Option<string>) {
    forall i :: 0 <= i < |t| ==> !AnswersFor(t[i], callId, realm)
  }

  lemma StoredSlot(t: seq<Slot>, callId: string, c: Challenge, code: int)
    ensures var r := Stored(t, callId, c, code);
            if !NoneForKey(t, callId, c.realm) then exists k :: 0 <= k < |t| && Updated(t, r, callId, c, k)
            else if exists i :: 0 <= i < |t| && t[i].callId == ""
            then exists k :: 0 <= k < |t| && Taken(t, r, callId, c, code, k)
            else r == t
  {
    var k, e, r := FirstKey(t, callId, c.realm), FirstEmpty(t), Stored(t, callId, c, code);
    forall j | 0 <= j < |t| ensures ForKey(t[j], callId, c.realm) <==> AnswersFor(t[j], callId, c.realm) {
      KeyIs(t[j], callId, c.realm);
    }
    hide ForKey, AnswersFor;
    if k < |t| {
      assert Updated(t, r, callId, c, k);
    } else if e < |t| {
      assert Taken(t, r, callId, c, code, e);
    } else {
      assert forall i :: 0 <= i < |t| ==> InUse(t[i]);
    }
  }

  // ---------------------------------------------------------------- room

  /** How many slots are empty. */
  function FreeSlots(t: seq<Slot>): nat {
    if t == [] then 0 else (if t[0].callId == "" then 1 else 0) + FreeSlots(t[1..])
  }

  lemma {:induction false} FreeChanges(t: seq<Slot>, r: seq<Slot>, k: nat)
    requires OnlyAt(t, r, k)
    ensures FreeSlots(r) + (if t[k].callId == "" then 1 else 0) == FreeSlots(t) + if r[k].callId == "" then 1 else 0
    decreases k
  {
    if k > 0 {
      assert r[0] == t[0];
      assert OnlyAt(t[1..], r[1..], k - 1);
      FreeChanges(t[1..], r[1..], k - 1);
    } else {
      assert r[1..] == t[1..];
    }
  }

  lemma {:induction false} FreeSome(t: seq<Slot>)
    ensures FreeSlots(t) > 0 <==> exists i :: 0 <= i < |t| && t[i].callId == ""
  {
    if t != [] {
      FreeSome(t[1..]);
      if i :| 0 <= i < |t| && t[i].callId == "" {
        assert i > 0 ==> t[1..][i - 1].callId == "";
      }
    }
  }

  lemma {:induction false} AllFree(t: seq<Slot>)
    requires forall i :: 0 <= i < |t| ==> t[i].callId == ""
    ensures FreeSlots(t) == |t|
  {
    if t != [] {
      AllFree(t[1..]);
    }
  }

  /**
   * Room is conserved: 100 slots are free at first; a new call and realm takes one as long as there is one, a known one
   * none; a deletion of a known call gives one back.
   */
  lemma RoomKept(t: seq<Slot>, callId: string, c: Challenge, code: int)
    requires callId != ""
    ensures FreeSlots(EmptyTable()) == 100
    ensures FreeSlots(Stored(t, callId, c, code)) ==
            if NoneForKey(t, callId, c.realm) && FreeSlots(t) > 0 then FreeSlots(t) - 1 else FreeSlots(t)
    ensures FreeSlots(Deleted(t, callId)) == FreeSlots(t) + if NoneAnswers(t, callId) then 0 else 1
  {
    hide FreeSlots, Stored, Deleted, AnswersFor, Answers;
    AllFree(EmptyTable());
    FreeSome(t);
    StoredRoom(t, callId, c, code);
    DeletedRoom(t, callId);
  }

  lemma StoredRoom(t: seq<Slot>, callId: string, c: Challenge, code: int)
    requires callId != ""
    ensures FreeSlots(Stored(t, callId, c, code)) ==
            if NoneForKey(t, callId, c.realm) && FreeSlots(t) > 0 then FreeSlots(t) - 1 else FreeSlots(t)
  {
    hide FreeSlots, Stored, NoneForKey;
    var r := Stored(t, callId, c, code);
    StoredSlot(t, callId, c, code);
    FreeSome(t);
    if !NoneForKey(t, callId, c.realm) {
      var k :| 0 <= k < |t| && Updated(t, r, callId, c, k);
      FreeChanges(t, r, k);
    } else if i :| 0 <= i < |t| && t[i].callId == "" {
      var k :| 0 <= k < |t| && Taken(t, r, callId, c, code, k);
      FreeChanges(t, r, k);
    }
  }

  lemma DeletedRoom(t: seq<Slot>, callId: string)
    ensures FreeSlots(Deleted(t, callId)) == FreeSlots(t) + if NoneAnswers(t, callId) then 0 else 1
  {
    hide FreeSlots, Deleted, NoneAnswers;
    var r := Deleted(t, callId);
    DeletedSlot(t, callId);
    if !NoneAnswers(t, callId) {
      var k :| 0 <= k < |t| && Cleared(t, r, callId, k);
      FreeChanges(t, r, k);
    }
  }

  /** A challenge of one kind is stored with the code of its response: 401, or 407 from a proxy. */
  lemma CodesStored(w: World, callId: string, c: Challenge, env: Setting)
    requires Ready(c, env)
    ensures Next(w, Challenged(callId, [c], [], true, env)).table == Stored(w.table, callId, c, 401)
    ensures Next(w, Challenged(callId, [], [c], true, env)).table == Stored(w.table, callId, c, 407)
  {
    hide Stored;
    assert [c][1..] == [];
    var a, b := AnsweredOne(w, callId, c, true, 401), AnsweredOne(w, callId, c, true, 407);
    assert Answered(a, callId, [], true, 401, env) == (a, Success);
    assert Answered(a, callId, [], true, 407, env) == (a, Success);
    assert Answered(b, callId, [], true, 407, env) == (b, Success);
    assert Answered(w, callId, [], true, 401, env) == (w, Success);
    assert Answered(w, callId, [c], true, 401, env) == (a, Success);
    assert Answered(w, callId, [c], true, 407, env) == (b, Success);
  }

  // ---------------------------------------------------------------- how a request ends

  /** There are credentials for the challenge, the URI prints and the header can be built. */
  predicate Ready(c: Challenge, env: Setting) {
    c.realm in env.known && env.uriOk && c.usable
  }

  /** The first challenge that is not ready ends a request: without credentials it is not found, else it failed. */
  predicate EndsAt(c: Challenge, env: Setting, r: Status) {
    !Ready(c, env) && r == if c.realm in env.known then Failed else NotFound
  }

  /** Slot k is the first of the call from `pos` on whose challenge is not ready. */
  ghost predicate StopsAt(t: seq<Slot>, pos: nat, callId: string, env: Setting, k: nat, r: Status)
    requires k < |t|
  {
    && pos <= k && Answers(t[k], callId) && EndsAt(t[k].wa, env, r)
    && forall j :: pos <= j < k && Answers(t[j], callId) ==> Ready(t[j].wa, env)
  }

  ghost predicate AllReady(t: seq<Slot>, pos: nat, callId: string, env: Setting) {
    forall j :: pos <= j < |t| && Answers(t[j], callId) ==> Ready(t[j].wa, env)
  }

  ghost predicate EndsAs(t: seq<Slot>, pos: nat, callId: string, env: Setting, r: Status) {
    if r == Success then AllReady(t, pos, callId, env)
    else exists k :: 0 <= k < |t| && StopsAt(t, pos, callId, env, k, r)
  }

  /** A request succeeds exactly when every slot of its call is ready, and otherwise tells what the first lacks. */
  lemma {:induction false} RequestEnds(w: World, pos: nat, callId: string, env: Setting)
    ensures EndsAs(w.table, pos, callId, env, Requested(w, pos, callId, env).1)
    decreases |w.table| - pos
  {
    if pos < |w.table| {
      var s, r := w.table[pos], Requested(w, pos, callId, env).1;
      CallIs(s, callId);
      if !Answers(s, callId) {
        RequestEnds(w, pos + 1, callId, env);
        EndsLater(w.table, pos, callId, env, r);
      } else if Ready(s.wa, env) {
        var v := Counted(w, pos);
        RequestEnds(v, pos + 1, callId, env);
        SameEnd(w.table, v.table, pos + 1, callId, env, r);
        EndsLater(w.table, pos, callId, env, r);
      } else {
        assert StopsAt(w.table, pos, callId, env, pos, r);
      }
    }
  }

  lemma EndsLater(t: seq<Slot>, pos: nat, callId: string, env: Setting, r: Status)
    requires pos < |t| && EndsAs(t, pos + 1, callId, env, r)
    requires Answers(t[pos], callId) ==> Ready(t[pos].wa, env)
    ensures EndsAs(t, pos, callId, env, r)
  {
    hide Answers, Ready;
    if r != Success {
      var k :| 0 <= k < |t| && StopsAt(t, pos + 1, callId, env, k, r);
      assert StopsAt(t, pos, callId, env, k, r);
    }
  }

  lemma SameEnd(t: seq<Slot>, u: seq<Slot>, pos: nat, callId: string, env: Setting, r: Status)
    requires |t| == |u| && EndsAs(u, pos, callId, env, r)
    requires forall j :: 0 <= j < |t| ==> u[j].callId == t[j].callId && u[j].wa == t[j].wa
    ensures EndsAs(t, pos, callId, env, r)
  {
    hide Ready;
    if r != Success {
      var k :| 0 <= k < |u| && StopsAt(u, pos, callId, env, k, r);
      assert StopsAt(t, pos, callId, env, k, r);
    }
  }

  /** The reply to the challenges of one kind, in the same way. */
  lemma {:induction false} ReplyEnds(w: World, callId: string, cs: seq<Challenge>, keep: bool, code: int, env: Setting)
    ensures var r := Answered(w, callId, cs, keep, code, env).1;
            if r == Success then forall i :: 0 <= i < |cs| ==> Ready(cs[i], env)
            else exists k :: 0 <= k < |cs| && EndsAt(cs[k], env, r) && forall j :: 0 <= j < k ==> Ready(cs[j], env)
    decreases |cs|
  {
    if cs != [] && Ready(cs[0], env) {
      var v, later := AnsweredOne(w, callId, cs[0], keep, code), cs[1..];
      ReplyEnds(v, callId, later, keep, code, env);
      hide AnsweredOne;
      var r := Answered(w, callId, cs, keep, code, env).1;
      if r != Success {
        var k :| 0 <= k < |later| && EndsAt(later[k], env, r) && forall j :: 0 <= j < k ==> Ready(later[j], env);
        assert EndsAt(cs[k + 1], env, r);
        forall j | 0 <= j < k + 1 ensures Ready(cs[j], env) {
          assert j > 0 ==> cs[j] == later[j - 1];
        }
      } else {
        forall j | 0 <= j < |cs| ensures Ready(cs[j], env) {
          assert j > 0 ==> cs[j] == later[j - 1];
        }
      }
    }
  }

  // ---------------------------------------------------------------- what is deleted stays unused

  /** No slot counts this nonce. */
  ghost predicate Unheld(t: seq<Slot>, n: string) {
    forall i :: 0 <= i < |t| && Counts(t[i]) ==> t[i].wa.nonce != n
  }

  lemma StoredUnheld(t: seq<Slot>, callId: string, c: Challenge, code: int, n: string)
    requires Unheld(t, n) && n !in Own(c)
    ensures Unheld(Stored(t, callId, c, code), n)
  {
  }

  lemma {:induction false} StoredAllUnheld(t: seq<Slot>, callId: string, cs: seq<Challenge>, keep: bool, code: int,
                                           env: Setting, n: string)
    requires Unheld(t, n) && n !in Granted(cs, env)
    ensures Unheld(StoredAll(t, callId, cs, keep, code, env), n)
    decreases |cs|
  {
    if cs != [] && Answerable(cs[0], env) {
      StoredUnheld(t, callId, cs[0], code, n);
      hide Stored, Unheld;
      StoredAllUnheld(if keep then Stored(t, callId, cs[0], code) else t, callId, cs[1..], keep, code, env, n);
    }
  }

  lemma {:induction false} RequestUnheld(t: seq<Slot>, pos: nat, callId: string, env: Setting, n: string)
    requires Unheld(t, n)
    ensures RequestUses(t, pos, callId, env, n) == 0
    decreases |t| - pos
  {
    if pos < |t| {
      RequestUnheld(t, pos + 1, callId, env, n);
    }
  }

  lemma EventUnheld(t: seq<Slot>, ev: Event, n: string)
    requires Unheld(t, n) && n !in GrantedIn(ev)
    ensures UsesIn(t, ev, n) == 0 && Unheld(TableAfter(t, ev), n)
  {
    match ev
    case Challenged(callId, www, proxy, keep, env) =>
      StoredAllUnheld(t, callId, www, keep, 401, env, n);
      if AllAnswerable(www, env) {
        StoredAllUnheld(StoredAll(t, callId, www, keep, 401, env), callId, proxy, keep, 407, env, n);
      }
    case Request(callId, env) => RequestUnheld(t, 0, callId, env, n);
    case Delete(_) =>
  }

  lemma {:induction false} UnheldUnused(t: seq<Slot>, events: seq<Event>, n: string)
    requires Unheld(t, n) && n !in GrantedOver(events)
    ensures UsesOver(t, events, n) == 0
    decreases |events|
  {
    hide Unheld, UsesIn, TableAfter, GrantedIn;
    if events != [] {
      EventUnheld(t, events[0], n);
      UnheldUnused(TableAfter(t, events[0]), events[1..], n);
    }
  }

  /** Only the first slot of the call counts this nonce. */
  ghost predicate HeldOnlyFirst(t: seq<Slot>, callId: string, n: string) {
    forall i :: 0 <= i < |t| && Counts(t[i]) && t[i].wa.nonce == n ==>
      Answers(t[i], callId) && forall j :: 0 <= j < i ==> !Answers(t[j], callId)
  }

  lemma DeletedUnheld(t: seq<Slot>, callId: string, n: string)
    requires HeldOnlyFirst(t, callId, n)
    ensures Unheld(Deleted(t, callId), n)
  {
    FirstCallIs(t, callId);
  }

  /**
   * A nonce held only in the slot that a deletion clears is used by no later event, requests of its call included,
   * until it is answered in a challenge again.
   */
  lemma DeletedStaysUnused(w: World, callId: string, later: seq<Event>, n: string)
    requires HeldOnlyFirst(w.table, callId, n) && n !in GrantedOver(later)
    ensures Uses(Run(Next(w, Delete(callId)), later).sent, n) == Uses(w.sent, n)
  {
    var v := Next(w, Delete(callId));
    DeletedUnheld(w.table, callId, n);
    RunUses(v, later, n);
    UnheldUnused(v.table, later, n);
  }

  lemma {:induction false} NothingToAdd(w: World, pos: nat, callId: string, env: Setting)
    requires NoneAnswers(w.table, callId)
    ensures Requested(w, pos, callId, env) == (w, Success)
    decreases |w.table| - pos
  {
    if pos < |w.table| {
      CallIs(w.table[pos], callId);
      NothingToAdd(w, pos + 1, callId, env);
    }
  }

  lemma {:induction false} NoSlots(t: seq<Slot>, callId: string)
    ensures CallSlots(t, callId) == 0 <==> NoneAnswers(t, callId)
  {
    if t != [] {
      NoSlots(t[1..], callId);
      assert NoneAnswers(t, callId) <==> !Answers(t[0], callId) && NoneAnswers(t[1..], callId) by {
        assert t == [t[0]] + t[1..];
      }
    }
  }

  /** A call with one slot: once it is deleted, a request of that call carries nothing and changes nothing. */
  lemma EndedCall(w: World, callId: string, env: Setting)
    requires CallSlots(w.table, callId) == 1
    ensures var v := Next(w, Delete(callId)); Requested(v, 0, callId, env) == (v, Success)
  {
    var v := Next(w, Delete(callId));
    NoSlots(w.table, callId);
    DeletedSlot(w.table, callId);
    NoSlots(v.table, callId);
    NothingToAdd(v, 0, callId, env);
  }

  // ---------------------------------------------------------------- which challenges are counted

  /** No qop, or one of fewer than four characters. */
  predicate Uncounted(c: Challenge) {
    c.qop.None? || |c.qop.value| < 4
  }

  ghost predicate AllUncounted(cs: seq<Challenge>) {
    forall i :: 0 <= i < |cs| ==> Uncounted(cs[i])
  }

  ghost predicate PlainRun(events: seq<Event>) {
    forall i :: 0 <= i < |events| && events[i].Challenged? ==>
      AllUncounted(events[i].www) && AllUncounted(events[i].proxy)
  }

  lemma {:induction false} UncountedGranted(cs: seq<Challenge>, env: Setting)
    requires AllUncounted(cs)
    ensures Granted(cs, env) == []
  {
    if cs != [] {
      assert Uncounted(cs[0]);
      forall i | 0 <= i < |cs[1..]| ensures Uncounted(cs[1..][i]) {
        assert Uncounted(cs[i + 1]);
      }
      UncountedGranted(cs[1..], env);
    }
  }

  lemma {:induction false} PlainGranted(events: seq<Event>)
    requires PlainRun(events)
    ensures GrantedOver(events) == []
  {
    if events != [] {
      var ev := events[0];
      if ev.Challenged? {
        UncountedGranted(ev.www, ev.env);
        UncountedGranted(ev.proxy, ev.env);
      }
      forall i | 0 <= i < |events[1..]| && events[1..][i].Challenged?
        ensures AllUncounted(events[1..][i].www) && AllUncounted(events[1..][i].proxy)
      {
        assert events[i + 1].Challenged?;
      }
      hide AllUncounted;
      PlainGranted(events[1..]);
    }
  }

  /** A run without such a qop sends no count at all. */
  lemma PlainRunSendsNone(events: seq<Event>, n: string)
    requires PlainRun(events)
    ensures Uses(Run(START, events).sent, n) == 0
  {
    PlainGranted(events);
    assert Unheld(EmptyTable(), n);
    UnheldUnused(EmptyTable(), events, n);
    RunUses(START, events, n);
    assert Uses([], n) == 0;
    hide UsesOver, Run, GrantedOver, Uses;
  }

  /** A challenge with a longer qop is answered with count 1, then with 2 in a later request of its call. */
  lemma CountedFromOne(callId: string, c: Challenge, env: Setting)
    requires callId != "" && |callId| < 64 && Ready(c, env) && c.qop.Some? && |c.qop.value| >= 4
    ensures var w := Next(START, Challenged(callId, [c], [], true, env));
            w.sent == [Pair(c.nonce, 1)] && Next(w, Request(callId, env)).sent == [Pair(c.nonce, 1), Pair(c.nonce, 2)]
  {
    var w := Next(START, Challenged(callId, [c], [], true, env));
    OneAnswered(callId, c, env);
    var t, s := EmptyTable(), Slot(callId, c, CNONCE, 1, 401);
    OneStored(t, callId, c);
    assert w == World(t[0 := s], [Pair(c.nonce, 1)]);
    OneRequested(w, callId, c, env);
  }

  lemma OneAnswered(callId: string, c: Challenge, env: Setting)
    requires Ready(c, env) && c.qop.Some? && |c.qop.value| >= 4
    ensures Next(START, Challenged(callId, [c], [], true, env))
         == World(Stored(EmptyTable(), callId, c, 401), [Pair(c.nonce, 1)])
  {
    hide Stored, EmptyTable;
    assert [c][1..] == [];
    assert [] + Header(c, 1) == [Pair(c.nonce, 1)];
    var w := AnsweredOne(START, callId, c, true, 401);
    assert Answered(w, callId, [], true, 401, env) == (w, Success);
    assert Answered(w, callId, [], true, 407, env) == (w, Success);
    assert Answered(START, callId, [c], true, 401, env) == (w, Success);
  }

  lemma OneStored(t: seq<Slot>, callId: string, c: Challenge)
    requires t == EmptyTable() && |callId| < 64
    ensures Stored(t, callId, c, 401) == t[0 := Slot(callId, c, CNONCE, 1, 401)]
  {
    assert !InUse(t[0]) && FirstEmpty(t) == 0;
    assert FirstKey(t, callId, c.realm) == |t|;
  }

  lemma OneRequested(w: World, callId: string, c: Challenge, env: Setting)
    requires callId != "" && Ready(c, env) && c.qop.Some? && |c.qop.value| >= 4
    requires w == World(EmptyTable()[0 := Slot(callId, c, CNONCE, 1, 401)], [Pair(c.nonce, 1)])
    ensures Requested(w, 0, callId, env).0.sent == [Pair(c.nonce, 1), Pair(c.nonce, 2)]
  {
    var v := Counted(w, 0);
    CallIs(w.table[0], callId);
    assert SameLetters(callId, callId);
    NoneBehind(v, 1, callId, env);
    assert Requested(w, 0, callId, env) == Requested(v, 1, callId, env);
  }

  lemma {:induction false} NoneBehind(w: World, pos: nat, callId: string, env: Setting)
    requires forall i :: pos <= i < |w.table| ==> !InUse(w.table[i])
    ensures Requested(w, pos, callId, env) == (w, Success)
    decreases |w.table| - pos
  {
    if pos < |w.table| {
      NoneBehind(w, pos + 1, callId, env);
    }
  }
}
