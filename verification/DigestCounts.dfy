/** How often each nonce is used over a run, and what the printed counts make of that. */
module DigestCounts {
  import opened DigestTable
  import opened DigestRuns
  import opened Sequences

  /** The first count with a ninth digit. */
  const PRINTABLE: nat := 100000000

  // ---------------------------------------------------------------- uses, told by the events

  /** How many headers with this nonce and a count a request adds. */
  function RequestUses(t: seq<Slot>, pos: nat, callId: string, env: Setting, n: string): nat
    decreases |t| - pos
  {
    if pos >= |t| then 0
    else
      var s := t[pos];
      if !ForCall(s, callId) then RequestUses(t, pos + 1, callId, env, n)
      else if s.wa.realm !in env.known || !env.uriOk || !s.wa.usable then 0
      else (if Counting(s.wa) && s.wa.nonce == n then 1 else 0) + RequestUses(t, pos + 1, callId, env, n)
  }

  /** How often an event uses a nonce, when these challenges are held. */
  function UsesIn(t: seq<Slot>, ev: Event, n: string): nat {
    match ev
    case Challenged(_, _, _, _, _) => multiset(GrantedIn(ev))[n]
    case Request(callId, env) => RequestUses(t, 0, callId, env, n)
    case Delete(_) => 0
  }

  /** How often a run uses a nonce: the challenges held follow from the events, without regard to counts. */
  function UsesOver(t: seq<Slot>, events: seq<Event>, n: string): nat
    decreases |events|
  {
    if events == [] then 0 else UsesIn(t, events[0], n) + UsesOver(TableAfter(t, events[0]), events[1..], n)
  }

  lemma {:induction false} SameRequestUses(t: seq<Slot>, u: seq<Slot>, pos: nat, callId: string, env: Setting,
                                           n: string)
    requires SameChallenges(t, u)
    ensures RequestUses(t, pos, callId, env, n) == RequestUses(u, pos, callId, env, n)
    decreases |t| - pos
  {
    if pos < |t| {
      assert SameChallenge(t[pos], u[pos]);
      SameRequestUses(t, u, pos + 1, callId, env, n);
    }
  }

  lemma {:induction false} SameUses(t: seq<Slot>, u: seq<Slot>, events: seq<Event>, n: string)
    requires SameChallenges(t, u)
    ensures UsesOver(t, events, n) == UsesOver(u, events, n)
    decreases |events|
  {
    hide TableAfter, GrantedIn;
    if events != [] {
      var ev := events[0];
      if ev.Request? {
        SameRequestUses(t, u, 0, ev.callId, ev.env, n);
      }
      SameAfter(t, u, ev);
      SameUses(TableAfter(t, ev), TableAfter(u, ev), events[1..], n);
    }
  }

  lemma {:induction false} AnsweredUses(w: World, callId: string, cs: seq<Challenge>, keep: bool, code: int,
                                        env: Setting, n: string)
    ensures Uses(Answered(w, callId, cs, keep, code, env).0.sent, n) == Uses(w.sent, n) + multiset(Granted(cs, env))[n]
    decreases |cs|
  {
    if cs != [] && Answerable(cs[0], env) {
      var w' := AnsweredOne(w, callId, cs[0], keep, code);
      UsesMore(w.sent, Pair(cs[0].nonce, 1), n);
      assert !Counting(cs[0]) ==> w'.sent == w.sent;
      hide Uses, Stored;
      AnsweredUses(w', callId, cs[1..], keep, code, env, n);
    }
  }

  lemma {:induction false} RequestedUses(w: World, pos: nat, callId: string, env: Setting, n: string)
    ensures Uses(Requested(w, pos, callId, env).0.sent, n) ==
            Uses(w.sent, n) + RequestUses(w.table, pos, callId, env, n)
    decreases |w.table| - pos
  {
    hide Uses;
    if pos < |w.table| {
      var s := w.table[pos];
      if !ForCall(s, callId) {
        RequestedUses(w, pos + 1, callId, env, n);
      } else if s.wa.realm in env.known && env.uriOk {
        var v := Counted(w, pos);
        UsesMore(w.sent, Pair(s.wa.nonce, s.nonceCount + 1), n);
        assert !(s.wa.usable && Counting(s.wa)) ==> v.sent == w.sent;
        RequestedUses(v, pos + 1, callId, env, n);
        SameRequestUses(v.table, w.table, pos + 1, callId, env, n);
      }
    }
  }

  lemma NextUses(w: World, ev: Event, n: string)
    ensures Uses(Next(w, ev).sent, n) == Uses(w.sent, n) + UsesIn(w.table, ev, n)
  {
    hide Uses;
    match ev
    case Challenged(callId, www, proxy, keep, env) =>
      AllGranted(w, callId, www, keep, 401, env);
      AnsweredUses(w, callId, www, keep, 401, env, n);
      AnsweredUses(Answered(w, callId, www, keep, 401, env).0, callId, proxy, keep, 407, env, n);
    case Request(callId, env) =>
      RequestedUses(w, 0, callId, env, n);
    case Delete(_) =>
  }

  /** The uses told by the events are those on the wire. */
  lemma {:induction false} RunUses(w: World, events: seq<Event>, n: string)
    ensures Uses(Run(w, events).sent, n) == Uses(w.sent, n) + UsesOver(w.table, events, n)
    decreases |events|
  {
    hide Uses, UsesIn, Next, TableAfter;
    if events != [] {
      var v := Next(w, events[0]);
      NextUses(w, events[0], n);
      RunUses(v, events[1..], n);
      NextTable(w, events[0]);
      SameUses(v.table, TableAfter(w.table, events[0]), events[1..], n);
    }
  }

  // ---------------------------------------------------------------- the field that is printed

  /** The nc field holds the first eight digits of the count: longer counts lose their last ones. */
  function Printed(count: int): int
    decreases count
  {
    if count < PRINTABLE then count else Printed(count / 10)
  }

  ghost predicate PrintedDistinct(sent: seq<Pair>) {
    forall i, j :: 0 <= i < j < |sent| ==>
      sent[i].nonce != sent[j].nonce || Printed(sent[i].count) != Printed(sent[j].count)
  }

  /** The ninth digit is where printed counts begin to repeat. */
  lemma PrintedCollides(count: nat)
    requires 10000000 <= count < PRINTABLE
    ensures Printed(10 * count) == Printed(count)
  {
    assert Printed(10 * count) == Printed(10 * count / 10);
  }

  /** Where counts run from 1 without a gap, every count up to those used was used. */
  lemma {:induction false} EarlierCount(sent: seq<Pair>, m: nat, nonce: string, d: nat) returns (j: nat)
    requires CountsRun(sent) && m <= |sent| && 1 <= d <= Uses(sent[..m], nonce)
    ensures j < m && sent[j] == Pair(nonce, d)
    decreases m
  {
    assert CountFits(sent, m - 1) && sent[..m][..m - 1] == sent[..m - 1];
    if sent[m - 1] == Pair(nonce, d) {
      j := m - 1;
    } else {
      j := EarlierCount(sent, m - 1, nonce, d);
    }
  }

  lemma LongCountCollides(sent: seq<Pair>, i: nat)
    requires CountsRun(sent) && i < |sent| && sent[i].count >= PRINTABLE
    ensures !PrintedDistinct(sent)
  {
    var n := sent[i].nonce;
    assert CountFits(sent, i) && sent[..i + 1][..i] == sent[..i];
    assert Uses(sent[..i + 1], n) == sent[i].count;
    hide Uses, CountsRun;
    var j := EarlierCount(sent, i + 1, n, 10000000);
    var k := EarlierCount(sent, i + 1, n, PRINTABLE);
    PrintedCollides(10000000);
    RunningCountsDiffer(sent, if j < k then j else k, if j < k then k else j);
  }

  /** No nonce is used as often as needs a ninth digit, as told by the events. */
  ghost predicate UsedBelow(t: seq<Slot>, events: seq<Event>) {
    forall n :: UsesOver(t, events, n) < PRINTABLE
  }

  ghost predicate UsesBelow(sent: seq<Pair>) {
    forall n :: Uses(sent, n) < PRINTABLE
  }

  /** Where counts run from 1 without a gap, what is printed is distinct exactly when no nonce is used too often. */
  lemma PrintedByUses(sent: seq<Pair>)
    requires CountsRun(sent)
    ensures PrintedDistinct(sent) <==> UsesBelow(sent)
  {
    hide Uses, CountsRun;
    if n :| Uses(sent, n) >= PRINTABLE {
      assert sent[..|sent|] == sent;
      var j := EarlierCount(sent, |sent|, n, Uses(sent, n));
      LongCountCollides(sent, j);
    } else {
      forall i, j | 0 <= i < j < |sent| && sent[i].nonce == sent[j].nonce
        ensures Printed(sent[i].count) != Printed(sent[j].count)
      {
        CountBelow(sent, i);
        CountBelow(sent, j);
        RunningCountsDiffer(sent, i, j);
      }
    }
  }

  lemma CountBelow(sent: seq<Pair>, i: nat)
    requires CountsRun(sent) && i < |sent| && Uses(sent, sent[i].nonce) < PRINTABLE
    ensures sent[i].count < PRINTABLE
  {
    CountIsUses(sent, i);
    UsesGrow(sent, i + 1, |sent|, sent[i].nonce);
    assert sent[..|sent|] == sent;
  }

  lemma CountIsUses(sent: seq<Pair>, i: nat)
    requires CountsRun(sent) && i < |sent|
    ensures Uses(sent[..i + 1], sent[i].nonce) == sent[i].count
  {
    assert CountFits(sent, i) && sent[..i + 1][..i] == sent[..i];
  }

  /**
   * What is printed is not sent twice exactly when no nonce is answered with a count in two challenges and no nonce
   * is used as often as needs a ninth digit.
   */
  lemma NothingPrintedTwice(events: seq<Event>)
    ensures PrintedDistinct(Run(START, events).sent) <==>
            Distinct(GrantedOver(events)) && UsedBelow(EmptyTable(), events)
  {
    var sent := Run(START, events).sent;
    NoPairSentTwice(events);
    UsesFromStart(events);
    hide UsesOver, Run, GrantedOver, CountsRun, Uses, Distinct, PrintedDistinct, EmptyTable;
    if CountsRun(sent) {
      PrintedByUses(sent);
    } else if PrintedDistinct(sent) {
      PrintedOnceSentOnce(sent);
    }
  }

  lemma UsesFromStart(events: seq<Event>)
    ensures UsesBelow(Run(START, events).sent) <==> UsedBelow(EmptyTable(), events)
  {
    var sent, t := Run(START, events).sent, EmptyTable();
    hide Uses, UsesOver, Run, EmptyTable;
    if UsesBelow(sent) {
      forall n ensures UsesOver(t, events, n) < PRINTABLE {
        OneFromStart(events, n);
        assert Uses(sent, n) < PRINTABLE;
      }
    }
    if UsedBelow(t, events) {
      forall n ensures Uses(sent, n) < PRINTABLE {
        OneFromStart(events, n);
        assert UsesOver(t, events, n) < PRINTABLE;
      }
    }
  }

  lemma OneFromStart(events: seq<Event>, n: string)
    ensures Uses(Run(START, events).sent, n) == UsesOver(EmptyTable(), events, n)
  {
    RunUses(START, events, n);
    assert Uses([], n) == 0;
    hide Uses, UsesOver, Run, EmptyTable;
  }

  lemma PrintedOnceSentOnce(sent: seq<Pair>)
    requires PrintedDistinct(sent)
    ensures Distinct(sent)
  {
  }

  // ---------------------------------------------------------------- a bound any caller can check

  lemma {:induction false} RequestUsesOnce(t: seq<Slot>, pos: nat, callId: string, env: Setting, n: string)
    requires NoncesDistinct(t)
    ensures RequestUses(t, pos, callId, env, n) <= 1
    ensures RequestUses(t, pos, callId, env, n) > 0 ==> exists i :: pos <= i < |t| && Counts(t[i]) && t[i].wa.nonce == n
    decreases |t| - pos
  {
    if pos < |t| {
      RequestUsesOnce(t, pos + 1, callId, env, n);
    }
  }

  /** As long as no nonce is answered twice, each event uses it at most once. */
  lemma {:induction false} UsesWithinEvents(w: World, events: seq<Event>, ns: seq<string>, n: string)
    requires Inv(w, ns) && Distinct(ns + GrantedOver(events))
    ensures UsesOver(w.table, events, n) <= |events|
    decreases |events|
  {
    if events != [] {
      var ev, later := events[0], GrantedOver(events[1..]);
      ConcatAssociative(ns, GrantedIn(ev), later);
      DistinctFront(ns + GrantedIn(ev), later);
      UsedOnce(w.table, ev, ns, n);
      NextKeepsInv(w, ev, ns);
      NextTable(w, ev);
      hide Inv, UsesIn, Next, TableAfter, GrantedIn, GrantedOver, Distinct, SameChallenges;
      UsesWithinEvents(Next(w, ev), events[1..], ns + GrantedIn(ev), n);
      SameUses(Next(w, ev).table, TableAfter(w.table, ev), events[1..], n);
    }
  }

  lemma UsedOnce(t: seq<Slot>, ev: Event, ns: seq<string>, n: string)
    requires NoncesDistinct(t) && Distinct(ns + GrantedIn(ev))
    ensures UsesIn(t, ev, n) <= 1
  {
    if ev.Challenged? {
      DistinctOnce(ns + GrantedIn(ev), n);
    } else if ev.Request? {
      RequestUsesOnce(t, 0, ev.callId, ev.env, n);
    }
  }

  /** Fewer events than eight digits can count, and nonces answered once each: nothing is printed twice. */
  lemma FewEvents(events: seq<Event>)
    requires Distinct(GrantedOver(events)) && |events| < PRINTABLE
    ensures PrintedDistinct(Run(START, events).sent)
  {
    StartKeepsInv();
    NothingPrintedTwice(events);
    hide UsesOver, Run, GrantedOver, Inv, PrintedDistinct, EmptyTable;
    assert [] + GrantedOver(events) == GrantedOver(events);
    forall n ensures UsesOver(EmptyTable(), events, n) < PRINTABLE {
      UsesWithinEvents(START, events, [], n);
    }
  }
}
