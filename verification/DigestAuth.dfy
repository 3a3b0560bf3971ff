/** The global table in place: the loops of the program over its slots. */
module DigestAuth {
  import opened DigestTable
  import opened DigestRuns

  class HttpAuths {
    const auths: array<Slot>
    var sent: seq<Pair>     // nonces and counts in the headers put on requests

    ghost predicate Valid()
      reads this
    {
      auths.Length == MAX_HTTP_AUTH
    }

    ghost function State(): World
      reads this, auths
    {
      World(auths[..], sent)
    }

    constructor ()
      ensures Valid() && fresh(auths) && State() == START
    {
      auths := new Slot[MAX_HTTP_AUTH](_ => EMPTY);
      sent := [];
      new;
      assert auths[..] == EmptyTable();
    }

    method StoreNonce(callId: string, wa: Challenge, answerCode: int) returns (ok: bool)
      requires Valid()
      modifies auths
      ensures auths[..] == Stored(old(auths[..]), callId, wa, answerCode)
      ensures ok <==>
                FirstKey(old(auths[..]), callId, wa.realm) < MAX_HTTP_AUTH || FirstEmpty(old(auths[..])) < MAX_HTTP_AUTH
    {
      ghost var t := auths[..];
      var pos := 0;
      while pos < auths.Length
        invariant 0 <= pos <= auths.Length && auths[..] == t
        invariant forall j :: 0 <= j < pos ==> !ForKey(t[j], callId, wa.realm)
      {
        if InUse(auths[pos]) && SameText(auths[pos].callId, callId) && SameRealm(auths[pos].wa.realm, wa.realm) {
          assert ForKey(t[pos], callId, wa.realm);
          FirstIs(t, pos, callId, wa.realm);
          auths[pos] := auths[pos].(wa := wa, nonceCount := 1);
          return true;
        }
        pos := pos + 1;
      }
      FirstIs(t, pos, callId, wa.realm);
      pos := 0;
      while pos < auths.Length
        invariant 0 <= pos <= auths.Length && auths[..] == t
        invariant forall j :: 0 <= j < pos ==> InUse(t[j])
      {
        if !InUse(auths[pos]) {
          assert FirstEmpty(t) == pos;
          auths[pos] := Slot(Kept(callId), wa, CNONCE, 1, answerCode);
          return true;
        }
        pos := pos + 1;
      }
      return false;
    }

    lemma FirstIs(t: seq<Slot>, k: nat, callId: string, realm: Option<string>)
      requires k <= |t| && (k < |t| ==> ForKey(t[k], callId, realm))
      requires forall j :: 0 <= j < k ==> !ForKey(t[j], callId, realm)
      ensures FirstKey(t, callId, realm) == k
    {
    }

    method DeleteNonce(callId: string) returns (ok: bool)
      requires Valid()
      modifies auths
      ensures auths[..] == Deleted(old(auths[..]), callId)
      ensures ok <==> FirstCall(old(auths[..]), callId) < MAX_HTTP_AUTH
    {
      ghost var t := auths[..];
      var pos := 0;
      while pos < auths.Length
        invariant 0 <= pos <= auths.Length && auths[..] == t
        invariant forall j :: 0 <= j < pos ==> !ForCall(t[j], callId)
      {
        if InUse(auths[pos]) && SameText(auths[pos].callId, callId) {
          assert ForCall(t[pos], callId) && FirstCall(t, callId) == pos;
          auths[pos] := EMPTY;
          return true;
        }
        pos := pos + 1;
      }
      return false;
    }

    /** A request without a response to answer: credentials for every stored challenge of its call. */
    method AddStored(callId: string, env: Setting) returns (r: Status)
      requires Valid()
      modifies this`sent, auths
      ensures (State(), r) == Requested(old(State()), 0, callId, env)
    {
      ghost var all := Requested(State(), 0, callId, env);
      var pos := 0;
      while pos < auths.Length
        invariant 0 <= pos <= auths.Length
        invariant all == Requested(State(), pos, callId, env)
      {
        var s := auths[pos];
        if InUse(s) && SameText(s.callId, callId) {
          if s.wa.realm !in env.known {
            return NotFound;
          }
          if !env.uriOk {
            return Failed;
          }
          ghost var w := State();
          var n := s.nonceCount + 1;
          auths[pos] := s.(nonceCount := n);
          if s.wa.usable && Counting(s.wa) {
            sent := sent + [Pair(s.wa.nonce, n)];
          }
          assert State() == Counted(w, pos);
          if !s.wa.usable {
            return Failed;
          }
        }
        pos := pos + 1;
      }
      return Success;
    }

    /** The challenges of one kind in a response. */
    method AnswerAll(callId: string, cs: seq<Challenge>, keep: bool, code: int, env: Setting) returns (r: Status)
      requires Valid()
      modifies this`sent, auths
      ensures (State(), r) == Answered(old(State()), callId, cs, keep, code, env)
    {
      ghost var all := Answered(State(), callId, cs, keep, code, env);
      var pos := 0;
      assert cs[0..] == cs;
      while pos < |cs|
        invariant 0 <= pos <= |cs|
        invariant all == Answered(State(), callId, cs[pos..], keep, code, env)
      {
        var c := cs[pos];
        assert cs[pos..][0] == c && cs[pos..][1..] == cs[pos + 1..];
        if c.realm !in env.known {
          return NotFound;
        }
        if !env.uriOk || !c.usable {
          return Failed;
        }
        ghost var w := State();
        if Counting(c) {
          sent := sent + [Pair(c.nonce, 1)];
        }
        if keep {
          var ok := StoreNonce(callId, c, code);
        }
        assert State() == AnsweredOne(w, callId, c, keep, code);
        pos := pos + 1;
      }
      return Success;
    }

    /** A request that answers the challenges of a response. */
    method AddForResponse(callId: string, www: seq<Challenge>, proxy: seq<Challenge>, keep: bool, env: Setting)
      returns (r: Status)
      requires Valid()
      modifies this`sent, auths
      ensures (State(), r) == Replied(old(State()), callId, www, proxy, keep, env)
    {
      if www == [] && proxy == [] {
        return SyntaxError;
      }
      r := AnswerAll(callId, www, keep, 401, env);
      if r != Success {
        return;
      }
      r := AnswerAll(callId, proxy, keep, 407, env);
    }
  }
}
