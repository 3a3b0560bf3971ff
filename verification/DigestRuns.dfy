/**
 * How stored challenges and nonce counts are used over a run: replies to challenges, later requests of the same call,
 * and deletions.
 */
module DigestRuns {
  import opened DigestTable
  import opened Sequences

  /** The table, and the pairs of nonce and count sent so far. */
  datatype World = World(table: seq<Slot>, sent: seq<Pair>)

  datatype Status = Success | NotFound | SyntaxError | Failed

  /**
   * What the rest of the program answers: for which realms there are credentials, and whether the URI can be printed.
   */
  datatype Setting = Setting(known: set<Option<string>>, uriOk: bool)

  // ---------------------------------------------------------------- a request of a known call

  /** All slots of the Call-ID from `pos` on: each adds a header with its next count. */
  function Requested(w: World, pos: nat, callId: string, env: Setting): (r: (World, Status))
    ensures |r.0.table| == |w.table|
    decreases |w.table| - pos
  {
    if pos >= |w.table| then (w, Success)
    else
      var s := w.table[pos];
      if !ForCall(s, callId) then Requested(w, pos + 1, callId, env)
      else if s.wa.realm !in env.known then (w, NotFound)
      else if !env.uriOk then (w, Failed)
      else
        var w' := Counted(w, pos);
        if s.wa.usable then Requested(w', pos + 1, callId, env) else (w', Failed)
  }

  /** Slot `pos` counts up, whatever the header carries; the header is sent when it can be built. */
  function Counted(w: World, pos: nat): (r: World)
    requires pos < |w.table|
    ensures |r.table| == |w.table|
  {
    var s := w.table[pos];
    var n := s.nonceCount + 1;
    World(w.table[pos := s.(nonceCount := n)], w.sent + if s.wa.usable then Header(s.wa, n) else [])
  }

  // ---------------------------------------------------------------- the reply to a challenge

  /**
   * The challenges of one kind in a response: each is answered with count 1, and stored when the method asks for it.
   */
  function Answered(w: World, callId: string, cs: seq<Challenge>, keep: bool, code: int,
                    env: Setting): (r: (World, Status))
    ensures |r.0.table| == |w.table|
    decreases |cs|
  {
    if cs == [] then (w, Success)
    else if cs[0].realm !in env.known then (w, NotFound)
    else if !env.uriOk || !cs[0].usable then (w, Failed)
    else Answered(AnsweredOne(w, callId, cs[0], keep, code), callId, cs[1..], keep, code, env)
  }

  function AnsweredOne(w: World, callId: string, c: Challenge, keep: bool, code: int): World {
    World(if keep then Stored(w.table, callId, c, code) else w.table, w.sent + Header(c, 1))
  }

  function Replied(w: World, callId: string, www: seq<Challenge>, proxy: seq<Challenge>, keep: bool, env: Setting)
    : (r: (World, Status))
    ensures |r.0.table| == |w.table|
  {
    if www == [] && proxy == [] then (w, SyntaxError)
    else
      var (w1, s1) := Answered(w, callId, www, keep, 401, env);
      if s1 != Success then (w1, s1) else Answered(w1, callId, proxy, keep, 407, env)
  }

  // ---------------------------------------------------------------- which challenges are answered

  ghost predicate Distinct<T>(s: seq<T>) {
    forall i, j :: 0 <= i < j < |s| ==> s[i] != s[j]
  }

  /** A challenge that can be answered: there are credentials, and the header can be built. */
  predicate Answerable(c: Challenge, env: Setting) {
    c.realm in env.known && env.uriOk && c.usable
  }

  predicate AllAnswerable(cs: seq<Challenge>, env: Setting) {
    forall i :: 0 <= i < |cs| ==> Answerable(cs[i], env)
  }

  /** The nonces answered with a count, for challenges of one kind: those before the first that cannot be answered. */
  function Granted(cs: seq<Challenge>, env: Setting): seq<string> {
    if cs == [] || !Answerable(cs[0], env) then []
    else Own(cs[0]) + Granted(cs[1..], env)
  }

  function Own(c: Challenge): seq<string> {
    if Counting(c) then [c.nonce] else []
  }

  /** Proxy challenges are answered only when all of the other kind were. */
  function GrantedIn(ev: Event): seq<string> {
    if !ev.Challenged? then []
    else Granted(ev.www, ev.env) + if AllAnswerable(ev.www, ev.env) then Granted(ev.proxy, ev.env) else []
  }

  function GrantedOver(events: seq<Event>): seq<string> {
    if events == [] then [] else GrantedIn(events[0]) + GrantedOver(events[1..])
  }

  lemma {:induction false} AllGranted(w: World, callId: string, cs: seq<Challenge>, keep: bool, code: int, env: Setting)
    ensures Answered(w, callId, cs, keep, code, env).1 == Success <==> AllAnswerable(cs, env)
    decreases |cs|
  {
    if cs != [] {
      AllGranted(AnsweredOne(w, callId, cs[0], keep, code), callId, cs[1..], keep, code, env);
      assert cs == [cs[0]] + cs[1..];
      assert AllAnswerable(cs, env) <==> Answerable(cs[0], env) && AllAnswerable(cs[1..], env);
    }
  }

  // ---------------------------------------------------------------- the invariant

  /** How often a nonce was used. */
  function Uses(sent: seq<Pair>, nonce: string): nat {
    if sent == [] then 0
    else Uses(sent[..|sent| - 1], nonce) + if sent[|sent| - 1].nonce == nonce then 1 else 0
  }

  lemma UsesMore(sent: seq<Pair>, p: Pair, nonce: string)
    ensures Uses(sent + [p], nonce) == Uses(sent, nonce) + if p.nonce == nonce then 1 else 0
  {
    assert (sent + [p])[..|sent|] == sent;
  }

  lemma {:induction false} Unused(sent: seq<Pair>, nonce: string)
    requires forall i :: 0 <= i < |sent| ==> sent[i].nonce != nonce
    ensures Uses(sent, nonce) == 0
  {
    if sent != [] {
      Unused(sent[..|sent| - 1], nonce);
    }
  }

  /** The counts sent with each nonce are 1, 2, 3 and so on, without a gap (what nc means in RFC 2617). */
  ghost predicate CountsRun(sent: seq<Pair>) {
    forall i :: 0 <= i < |sent| ==> CountFits(sent, i)
  }

  predicate CountFits(sent: seq<Pair>, i: nat)
    requires i < |sent|
  {
    sent[i].count == Uses(sent[..i], sent[i].nonce) + 1
  }

  lemma CountsRunOn(sent: seq<Pair>, p: Pair)
    requires CountsRun(sent) && p.count == Uses(sent, p.nonce) + 1
    ensures CountsRun(sent + [p])
  {
    var r := sent + [p];
    forall i | 0 <= i < |r| ensures CountFits(r, i) {
      if i < |sent| {
        assert CountFits(sent, i) && r[..i] == sent[..i];
      } else {
        assert r[..i] == sent;
      }
    }
  }

  /** A slot in use whose headers carry a count. */
  predicate Counts(s: Slot) {
    InUse(s) && Counting(s.wa)
  }

  /** All nonces sent or stored to be counted are among those answered. */
  ghost predicate AllAnswered(w: World, ns: seq<string>) {
    && (forall i :: 0 <= i < |w.sent| ==> w.sent[i].nonce in ns)
    && (forall i :: 0 <= i < |w.table| && Counts(w.table[i]) ==> w.table[i].wa.nonce in ns)
  }

  /**
   * A slot in use holds a usable challenge, and where it counts, its count is the number of times its nonce was used.
   */
  ghost predicate CountsKept(w: World) {
    forall i :: 0 <= i < |w.table| && InUse(w.table[i]) ==> CountKept(w.table[i], w.sent)
  }

  predicate CountKept(s: Slot, sent: seq<Pair>) {
    s.wa.usable && (Counting(s.wa) ==> s.nonceCount == Uses(sent, s.wa.nonce))
  }

  ghost predicate NoncesDistinct(t: seq<Slot>) {
    forall i, j :: 0 <= i < j < |t| && Counts(t[i]) && Counts(t[j]) ==> t[i].wa.nonce != t[j].wa.nonce
  }

  /** `ns` are the nonces answered so far. */
  ghost predicate Inv(w: World, ns: seq<string>) {
    CountsRun(w.sent) && AllAnswered(w, ns) && CountsKept(w) && NoncesDistinct(w.table)
  }

  lemma CountedKeepsInv(w: World, pos: nat, ns: seq<string>)
    requires Inv(w, ns) && pos < |w.table| && InUse(w.table[pos])
    ensures Inv(Counted(w, pos), ns)
  {
    hide Uses, CountsRun, CountFits;
    var s, r := w.table[pos], Counted(w, pos);
    assert CountKept(s, w.sent);
    var p := Pair(s.wa.nonce, s.nonceCount + 1);
    if Counting(s.wa) {
      CountsRunOn(w.sent, p);
    } else {
      assert r.sent == w.sent;
    }
    forall i | 0 <= i < |r.table| && InUse(r.table[i]) ensures CountKept(r.table[i], r.sent) {
      assert CountKept(w.table[i], w.sent);
      UsesMore(w.sent, p, r.table[i].wa.nonce);
      assert i < pos || i == pos || pos < i;
    }
    forall i, j | 0 <= i < j < |r.table| && Counts(r.table[i]) && Counts(r.table[j])
      ensures r.table[i].wa.nonce != r.table[j].wa.nonce
    {
      assert r.table[i].wa == w.table[i].wa && r.table[j].wa == w.table[j].wa;
      assert Counts(w.table[i]) && Counts(w.table[j]);
    }
    forall i | 0 <= i < |r.table| && Counts(r.table[i]) ensures r.table[i].wa.nonce in ns {
      assert Counts(w.table[i]);
    }
  }

  /** Every header added to a request uses the next count of its nonce. */
  lemma {:induction false} RequestedKeepsInv(w: World, pos: nat, callId: string, env: Setting, ns: seq<string>)
    requires Inv(w, ns)
    ensures Inv(Requested(w, pos, callId, env).0, ns)
    decreases |w.table| - pos
  {
    if pos < |w.table| {
      var s := w.table[pos];
      if !ForCall(s, callId) {
        RequestedKeepsInv(w, pos + 1, callId, env, ns);
      } else if s.wa.realm in env.known && env.uriOk {
        CountedKeepsInv(w, pos, ns);
        RequestedKeepsInv(Counted(w, pos), pos + 1, callId, env, ns);
      }
    }
  }

  lemma SentOnce(w: World, c: Challenge, ns: seq<string>)
    requires Inv(w, ns) && (Counting(c) ==> c.nonce !in ns)
    ensures Inv(World(w.table, w.sent + Header(c, 1)), ns + Own(c))
    ensures Counting(c) ==> Uses(w.sent + Header(c, 1), c.nonce) == 1
  {
    hide Uses, CountFits;
    var p := Pair(c.nonce, 1);
    if Counting(c) {
      Unused(w.sent, c.nonce);
      UsesMore(w.sent, p, c.nonce);
      CountsRunOn(w.sent, p);
      forall i | 0 <= i < |w.table| && InUse(w.table[i]) ensures CountKept(w.table[i], w.sent + [p]) {
        assert CountKept(w.table[i], w.sent);
        assert Counting(w.table[i].wa) ==> Counts(w.table[i]);
        UsesMore(w.sent, p, w.table[i].wa.nonce);
      }
    } else {
      assert w.sent + [] == w.sent && ns + [] == ns;
    }
  }

  /** A slot that takes the challenge just answered with count 1. */
  lemma TookChallenge(w: World, at: nat, s: Slot, c: Challenge, ns: seq<string>)
    requires Inv(w, ns) && (Counting(c) ==> c.nonce !in ns) && c.usable
    requires at < |w.table| && s.wa == c && s.nonceCount == 1
    ensures Inv(World(w.table[at := s], w.sent + Header(c, 1)), ns + Own(c))
  {
    hide Uses, CountsRun;
    SentOnce(w, c, ns);
    var v, r := World(w.table, w.sent + Header(c, 1)), World(w.table[at := s], w.sent + Header(c, 1));
    forall i | 0 <= i < |r.table| && InUse(r.table[i]) ensures CountKept(r.table[i], r.sent) {
      if i != at {
        assert r.table[i] == v.table[i] && CountKept(v.table[i], v.sent);
      }
    }
    forall i, j | 0 <= i < j < |r.table| && Counts(r.table[i]) && Counts(r.table[j])
      ensures r.table[i].wa.nonce != r.table[j].wa.nonce
    {
      assert i != at ==> r.table[i] == w.table[i] && w.table[i].wa.nonce in ns;
      assert j != at ==> r.table[j] == w.table[j] && w.table[j].wa.nonce in ns;
    }
    forall i | 0 <= i < |r.table| && Counts(r.table[i]) ensures r.table[i].wa.nonce in ns + Own(c) {
      if i != at {
        assert r.table[i] == v.table[i] && Counts(v.table[i]);
      }
    }
  }

  lemma AnsweredOneKeepsInv(w: World, callId: string, c: Challenge, keep: bool, code: int, ns: seq<string>)
    requires Inv(w, ns) && (Counting(c) ==> c.nonce !in ns) && c.usable
    ensures Inv(AnsweredOne(w, callId, c, keep, code), ns + Own(c))
  {
    var t := w.table;
    var k, e := FirstKey(t, callId, c.realm), FirstEmpty(t);
    if keep && k < |t| {
      TookChallenge(w, k, t[k].(wa := c, nonceCount := 1), c, ns);
    } else if keep && e < |t| {
      TookChallenge(w, e, Slot(Kept(callId), c, CNONCE, 1, code), c, ns);
    } else {
      SentOnce(w, c, ns);
    }
  }

  lemma FirstIsNew(ns: seq<string>, c: Challenge, rest: seq<string>)
    requires Distinct(ns + (Own(c) + rest))
    ensures Counting(c) ==> c.nonce !in ns
    ensures (ns + Own(c)) + rest == ns + (Own(c) + rest)
  {
    var all := ns + (Own(c) + rest);
    assert Counting(c) ==> all[|ns|] == c.nonce;
    assert forall i :: 0 <= i < |ns| ==> all[i] == ns[i];
  }

  lemma DistinctFront(a: seq<string>, b: seq<string>)
    requires Distinct(a + b)
    ensures Distinct(a)
  {
    assert forall i :: 0 <= i < |a| ==> (a + b)[i] == a[i];
  }

  lemma {:induction false} AnsweredKeepsInv(w: World, callId: string, cs: seq<Challenge>, keep: bool, code: int,
                                            env: Setting, ns: seq<string>)
    requires Inv(w, ns) && Distinct(ns + Granted(cs, env))
    ensures Inv(Answered(w, callId, cs, keep, code, env).0, ns + Granted(cs, env))
    decreases |cs|
  {
    if cs == [] || !Answerable(cs[0], env) {
      assert ns + [] == ns;
    } else {
      FirstIsNew(ns, cs[0], Granted(cs[1..], env));
      AnsweredOneKeepsInv(w, callId, cs[0], keep, code, ns);
      AnsweredKeepsInv(AnsweredOne(w, callId, cs[0], keep, code), callId, cs[1..], keep, code, env, ns + Own(cs[0]));
    }
  }

  // ---------------------------------------------------------------- every run

  datatype Event =
    | Challenged(callId: string, www: seq<Challenge>, proxy: seq<Challenge>, keep: bool, env: Setting)
    | Request(callId: string, env: Setting)
    | Delete(callId: string)

  function Next(w: World, ev: Event): World {
    match ev
    case Challenged(callId, www, proxy, keep, env) => Replied(w, callId, www, proxy, keep, env).0
    case Request(callId, env) => Requested(w, 0, callId, env).0
    case Delete(callId) => World(Deleted(w.table, callId), w.sent)
  }

  function Run(w: World, events: seq<Event>): World
    decreases |events|
  {
    if events == [] then w else Run(Next(w, events[0]), events[1..])
  }

  lemma RepliedKeepsInv(w: World, ev: Event, ns: seq<string>)
    requires ev.Challenged? && Inv(w, ns) && Distinct(ns + GrantedIn(ev))
    ensures Inv(Next(w, ev), ns + GrantedIn(ev))
  {
    var www, proxy := Granted(ev.www, ev.env), Granted(ev.proxy, ev.env);
    AllGranted(w, ev.callId, ev.www, ev.keep, 401, ev.env);
    if AllAnswerable(ev.www, ev.env) {
      ConcatAssociative(ns, www, proxy);
      DistinctFront(ns + www, proxy);
      AnsweredKeepsInv(w, ev.callId, ev.www, ev.keep, 401, ev.env, ns);
      var w1 := Answered(w, ev.callId, ev.www, ev.keep, 401, ev.env).0;
      AnsweredKeepsInv(w1, ev.callId, ev.proxy, ev.keep, 407, ev.env, ns + www);
    } else {
      assert www + [] == www;
      AnsweredKeepsInv(w, ev.callId, ev.www, ev.keep, 401, ev.env, ns);
    }
  }

  lemma NextKeepsInv(w: World, ev: Event, ns: seq<string>)
    requires Inv(w, ns) && Distinct(ns + GrantedIn(ev))
    ensures Inv(Next(w, ev), ns + GrantedIn(ev))
  {
    match ev
    case Challenged(_, _, _, _, _) =>
      RepliedKeepsInv(w, ev, ns);
    case Request(callId, env) =>
      RequestedKeepsInv(w, 0, callId, env, ns);
      assert ns + [] == ns;
    case Delete(callId) =>
      assert ns + [] == ns;
  }

  lemma {:induction false} RunKeepsInv(w: World, events: seq<Event>, ns: seq<string>)
    requires Inv(w, ns) && Distinct(ns + GrantedOver(events))
    ensures Inv(Run(w, events), ns + GrantedOver(events))
    decreases |events|
  {
    if events == [] {
      assert ns + [] == ns;
    } else {
      var now, later := GrantedIn(events[0]), GrantedOver(events[1..]);
      ConcatAssociative(ns, now, later);
      DistinctFront(ns + now, later);
      NextKeepsInv(w, events[0], ns);
      RunKeepsInv(Next(w, events[0]), events[1..], ns + now);
    }
  }

  function EmptyTable(): (t: seq<Slot>)
    ensures |t| == MAX_HTTP_AUTH && forall i :: 0 <= i < |t| ==> t[i] == EMPTY
  {
    seq(MAX_HTTP_AUTH, _ => EMPTY)
  }

  const START: World := World(EmptyTable(), [])

  // ---------------------------------------------------------------- each answer is sent

  lemma {:induction false} AnsweredSends(w: World, callId: string, cs: seq<Challenge>, keep: bool, code: int,
                                         env: Setting, n: string)
    ensures multiset(Answered(w, callId, cs, keep, code, env).0.sent)[Pair(n, 1)]
         >= multiset(w.sent)[Pair(n, 1)] + multiset(Granted(cs, env))[n]
    decreases |cs|
  {
    if cs != [] && Answerable(cs[0], env) {
      AnsweredSends(AnsweredOne(w, callId, cs[0], keep, code), callId, cs[1..], keep, code, env, n);
    }
  }

  lemma {:induction false} RequestedSends(w: World, pos: nat, callId: string, env: Setting, p: Pair)
    ensures multiset(Requested(w, pos, callId, env).0.sent)[p] >= multiset(w.sent)[p]
    decreases |w.table| - pos
  {
    if pos < |w.table| {
      var s := w.table[pos];
      if !ForCall(s, callId) {
        RequestedSends(w, pos + 1, callId, env, p);
      } else if s.wa.realm in env.known && env.uriOk {
        RequestedSends(Counted(w, pos), pos + 1, callId, env, p);
      }
    }
  }

  lemma NextSends(w: World, ev: Event, n: string)
    ensures multiset(Next(w, ev).sent)[Pair(n, 1)] >= multiset(w.sent)[Pair(n, 1)] + multiset(GrantedIn(ev))[n]
  {
    match ev
    case Challenged(callId, www, proxy, keep, env) =>
      var w1 := Answered(w, callId, www, keep, 401, env).0;
      AllGranted(w, callId, www, keep, 401, env);
      AnsweredSends(w, callId, www, keep, 401, env, n);
      AnsweredSends(w1, callId, proxy, keep, 407, env, n);
    case Request(callId, env) =>
      RequestedSends(w, 0, callId, env, Pair(n, 1));
    case Delete(callId) =>
  }

  /** Each answer to a challenge puts its nonce with count 1 on the wire, and nothing is taken back. */
  lemma {:induction false} RunSends(w: World, events: seq<Event>, n: string)
    ensures multiset(Run(w, events).sent)[Pair(n, 1)] >= multiset(w.sent)[Pair(n, 1)] + multiset(GrantedOver(events))[n]
    decreases |events|
  {
    if events != [] {
      NextSends(w, events[0], n);
      RunSends(Next(w, events[0]), events[1..], n);
    }
  }

  lemma {:induction false} DistinctOnce<T>(s: seq<T>, x: T)
    requires Distinct(s)
    ensures multiset(s)[x] <= 1
  {
    if s != [] {
      var front := s[..|s| - 1];
      assert s == front + [s[|s| - 1]];
      DistinctOnce(front, x);
      if x == s[|s| - 1] {
        assert x !in front;
      }
    }
  }

  lemma PresentTwice<T>(s: seq<T>, i: nat, j: nat)
    requires i < j < |s| && s[i] == s[j]
    ensures multiset(s)[s[i]] >= 2
  {
    assert s == s[..j] + s[j..];
    assert s[..j][i] == s[i] && s[j..][0] == s[j];
  }

  /** A nonce that is answered twice in a run, from whatever table, is sent with the same count again. */
  lemma RepeatedNonce(w: World, events: seq<Event>)
    requires !Distinct(GrantedOver(events))
    ensures !Distinct(Run(w, events).sent)
  {
    var ns, sent := GrantedOver(events), Run(w, events).sent;
    var i, j :| 0 <= i < j < |ns| && ns[i] == ns[j];
    PresentTwice(ns, i, j);
    RunSends(w, events, ns[i]);
    if Distinct(sent) {
      DistinctOnce(sent, Pair(ns[i], 1));
    }
  }

  lemma {:induction false} RunningCountsDiffer(sent: seq<Pair>, i: nat, j: nat)
    requires CountsRun(sent) && i < j < |sent| && sent[i].nonce == sent[j].nonce
    ensures sent[i].count < sent[j].count
  {
    assert CountFits(sent, i) && CountFits(sent, j);
    hide Uses, CountsRun;
    UsesMore(sent[..i], sent[i], sent[i].nonce);
    assert sent[..i] + [sent[i]] == sent[..i + 1];
    UsesGrow(sent, i + 1, j, sent[i].nonce);
  }

  lemma {:induction false} UsesGrow(sent: seq<Pair>, i: nat, j: nat, nonce: string)
    requires i <= j <= |sent|
    ensures Uses(sent[..i], nonce) <= Uses(sent[..j], nonce)
    decreases j
  {
    if i < j {
      assert sent[..j][..j - 1] == sent[..j - 1];
      UsesGrow(sent, i, j - 1, nonce);
    }
  }

  /**
   * In a run from the empty table, no pair of nonce and count is sent twice exactly when no nonce is answered in two
   * challenges; and then the counts sent with each nonce are 1, 2, 3 and so on.
   */
  lemma NoPairSentTwice(events: seq<Event>)
    ensures Distinct(Run(START, events).sent) <==> Distinct(GrantedOver(events))
    ensures CountsRun(Run(START, events).sent) <==> Distinct(GrantedOver(events))
  {
    var sent := Run(START, events).sent;
    StartKeepsInv();
    hide Run, GrantedOver, Distinct, CountsRun, CountsKept, NoncesDistinct, AllAnswered;
    if Distinct(GrantedOver(events)) {
      assert [] + GrantedOver(events) == GrantedOver(events);
      RunKeepsInv(START, events, []);
    } else {
      RepeatedNonce(START, events);
    }
    if CountsRun(sent) {
      CountsRunDistinct(sent);
    }
  }

  lemma StartKeepsInv()
    ensures Inv(START, [])
  {
  }

  lemma CountsRunDistinct(sent: seq<Pair>)
    requires CountsRun(sent)
    ensures Distinct(sent)
  {
    hide CountsRun;
    forall i, j | 0 <= i < j < |sent| ensures sent[i] != sent[j] {
      if sent[i].nonce == sent[j].nonce {
        RunningCountsDiffer(sent, i, j);
      }
    }
  }

  // ---------------------------------------------------------------- the table over a run, without its counts

  /** The table after the challenges of one kind. */
  function StoredAll(t: seq<Slot>, callId: string, cs: seq<Challenge>, keep: bool, code: int,
                     env: Setting): (r: seq<Slot>)
    ensures |r| == |t|
    decreases |cs|
  {
    if cs == [] || !Answerable(cs[0], env) then t
    else StoredAll(if keep then Stored(t, callId, cs[0], code) else t, callId, cs[1..], keep, code, env)
  }

  lemma {:induction false} AnsweredTable(w: World, callId: string, cs: seq<Challenge>, keep: bool, code: int,
                                         env: Setting)
    ensures Answered(w, callId, cs, keep, code, env).0.table == StoredAll(w.table, callId, cs, keep, code, env)
    decreases |cs|
  {
    if cs != [] && Answerable(cs[0], env) {
      AnsweredTable(AnsweredOne(w, callId, cs[0], keep, code), callId, cs[1..], keep, code, env);
    }
  }

  /** What an event does to the challenges held; a request changes only counts. */
  function TableAfter(t: seq<Slot>, ev: Event): (r: seq<Slot>)
    ensures |r| == |t|
  {
    match ev
    case Challenged(callId, www, proxy, keep, env) =>
      var t1 := StoredAll(t, callId, www, keep, 401, env);
      if AllAnswerable(www, env) then StoredAll(t1, callId, proxy, keep, 407, env) else t1
    case Request(_, _) => t
    case Delete(callId) => Deleted(t, callId)
  }

  /** The same but for counts, cnonces and answer codes. */
  ghost predicate SameChallenges(t: seq<Slot>, u: seq<Slot>) {
    |t| == |u| && forall i :: 0 <= i < |t| ==> SameChallenge(t[i], u[i])
  }

  predicate SameChallenge(a: Slot, b: Slot) {
    a.callId == b.callId && a.wa == b.wa
  }

  lemma SameFirst(t: seq<Slot>, u: seq<Slot>, callId: string, realm: Option<string>)
    requires SameChallenges(t, u)
    ensures FirstKey(t, callId, realm) == FirstKey(u, callId, realm)
    ensures FirstEmpty(t) == FirstEmpty(u)
    ensures FirstCall(t, callId) == FirstCall(u, callId)
  {
    hide SameText, SameRealm, FirstKey, FirstEmpty, FirstCall;
    SameAt(t, u, FirstKey(t, callId, realm), FirstKey(u, callId, realm), callId, realm);
    SameAt(t, u, FirstEmpty(t), FirstEmpty(u), callId, realm);
    SameAt(t, u, FirstCall(t, callId), FirstCall(u, callId), callId, realm);
  }

  lemma SameAt(t: seq<Slot>, u: seq<Slot>, i: nat, j: nat, callId: string, realm: Option<string>)
    requires SameChallenges(t, u)
    ensures i < |t| ==> InUse(t[i]) == InUse(u[i]) && ForCall(t[i], callId) == ForCall(u[i], callId)
    ensures i < |t| ==> ForKey(t[i], callId, realm) == ForKey(u[i], callId, realm)
    ensures j < |t| ==> InUse(t[j]) == InUse(u[j]) && ForCall(t[j], callId) == ForCall(u[j], callId)
    ensures j < |t| ==> ForKey(t[j], callId, realm) == ForKey(u[j], callId, realm)
  {
    assert i < |t| ==> SameChallenge(t[i], u[i]);
    assert j < |t| ==> SameChallenge(t[j], u[j]);
  }

  lemma SameStored(t: seq<Slot>, u: seq<Slot>, callId: string, c: Challenge, code: int)
    requires SameChallenges(t, u)
    ensures SameChallenges(Stored(t, callId, c, code), Stored(u, callId, c, code))
  {
    SameFirst(t, u, callId, c.realm);
    hide FirstKey, FirstEmpty, FirstCall;
    var a, b := Stored(t, callId, c, code), Stored(u, callId, c, code);
    forall i | 0 <= i < |a| ensures SameChallenge(a[i], b[i]) {
      assert SameChallenge(t[i], u[i]);
    }
  }

  lemma {:induction false} SameStoredAll(t: seq<Slot>, u: seq<Slot>, callId: string, cs: seq<Challenge>, keep: bool,
                                         code: int, env: Setting)
    requires SameChallenges(t, u)
    ensures SameChallenges(StoredAll(t, callId, cs, keep, code, env), StoredAll(u, callId, cs, keep, code, env))
    decreases |cs|
  {
    if cs != [] && Answerable(cs[0], env) {
      SameStored(t, u, callId, cs[0], code);
      hide Stored, SameChallenges;
      if keep {
        SameStoredAll(Stored(t, callId, cs[0], code), Stored(u, callId, cs[0], code), callId, cs[1..], keep, code, env);
      } else {
        SameStoredAll(t, u, callId, cs[1..], keep, code, env);
      }
    }
  }

  lemma SameAfter(t: seq<Slot>, u: seq<Slot>, ev: Event)
    requires SameChallenges(t, u)
    ensures SameChallenges(TableAfter(t, ev), TableAfter(u, ev))
  {
    match ev
    case Challenged(callId, www, proxy, keep, env) =>
      SameStoredAll(t, u, callId, www, keep, 401, env);
      var t', u' := StoredAll(t, callId, www, keep, 401, env), StoredAll(u, callId, www, keep, 401, env);
      SameStoredAll(t', u', callId, proxy, keep, 407, env);
    case Request(_, _) =>
    case Delete(callId) =>
      SameFirst(t, u, callId, None);
      hide FirstCall;
      var a, b := Deleted(t, callId), Deleted(u, callId);
      forall i | 0 <= i < |a| ensures SameChallenge(a[i], b[i]) {
        assert SameChallenge(t[i], u[i]);
      }
  }

  lemma SameTrans(t: seq<Slot>, u: seq<Slot>, v: seq<Slot>)
    requires SameChallenges(t, u) && SameChallenges(u, v)
    ensures SameChallenges(t, v)
  {
    forall i | 0 <= i < |t| ensures SameChallenge(t[i], v[i]) {
      assert SameChallenge(t[i], u[i]) && SameChallenge(u[i], v[i]);
    }
  }

  lemma {:induction false} RequestedTable(w: World, pos: nat, callId: string, env: Setting)
    ensures SameChallenges(Requested(w, pos, callId, env).0.table, w.table)
    decreases |w.table| - pos
  {
    if pos < |w.table| {
      var s := w.table[pos];
      if !ForCall(s, callId) {
        RequestedTable(w, pos + 1, callId, env);
      } else if s.wa.realm in env.known && env.uriOk {
        RequestedTable(Counted(w, pos), pos + 1, callId, env);
        var r := Requested(Counted(w, pos), pos + 1, callId, env).0.table;
        SameTrans(r, Counted(w, pos).table, w.table);
      }
    }
  }

  lemma NextTable(w: World, ev: Event)
    ensures SameChallenges(Next(w, ev).table, TableAfter(w.table, ev))
  {
    match ev
    case Challenged(callId, www, proxy, keep, env) =>
      AllGranted(w, callId, www, keep, 401, env);
      AnsweredTable(w, callId, www, keep, 401, env);
      AnsweredTable(Answered(w, callId, www, keep, 401, env).0, callId, proxy, keep, 407, env);
    case Request(callId, env) =>
      RequestedTable(w, 0, callId, env);
    case Delete(_) =>
  }
}
