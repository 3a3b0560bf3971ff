/** The table of stored digest challenges and their nonce counts (RFC 2617 section 3.2.2). */
module DigestTable {
  import opened CaseFolding

  const MAX_HTTP_AUTH: nat := 100
  const CALL_ID_SIZE: nat := 64
  const CNONCE: string := "0a4f113b"

  datatype Option<T> = None | Some(value: T)

  /** `usable` tells whether an authorization header can be built from the challenge. */
  datatype Challenge = Challenge(realm: Option<string>, nonce: string, usable: bool, qop: Option<string>)

  /** The header built from the challenge carries a nonce count. */
  predicate Counting(c: Challenge) {
    c.qop.Some? && |c.qop.value| >= 4
  }

  /** A slot is in use when its Call-ID is not empty. */
  datatype Slot = Slot(callId: string, wa: Challenge, cnonce: string, nonceCount: int, answerCode: int)

  const EMPTY: Slot := Slot("", Challenge(None, "", false, None), "", 0, 0)

  /** A nonce and the count sent with it. */
  datatype Pair = Pair(nonce: string, count: int)

  /** What a header built from the challenge adds to the pairs sent. */
  function Header(c: Challenge, count: int): seq<Pair> {
    if Counting(c) then [Pair(c.nonce, count)] else []
  }

  predicate SameText(a: string, b: string) {
    Lower(a) == Lower(b)
  }

  /** Call-IDs and realms are compared letter by letter, without regard to case. */
  lemma SameTextIs(a: string, b: string)
    ensures SameText(a, b) <==> SameLetters(a, b)
  {
    LowerSame(a, b);
  }

  predicate SameRealm(a: Option<string>, b: Option<string>) {
    if a.None? || b.None? then a.None? && b.None? else SameText(a.value, b.value)
  }

  predicate InUse(s: Slot) {
    s.callId != ""
  }

  predicate ForCall(s: Slot, callId: string) {
    InUse(s) && SameText(s.callId, callId)
  }

  predicate ForKey(s: Slot, callId: string, realm: Option<string>) {
    ForCall(s, callId) && SameRealm(s.wa.realm, realm)
  }

  // ---------------------------------------------------------------- storing and deleting

  function FirstKey(t: seq<Slot>, callId: string, realm: Option<string>): (k: nat)
    ensures k <= |t| && (k < |t| ==> ForKey(t[k], callId, realm))
    ensures forall j :: 0 <= j < k ==> !ForKey(t[j], callId, realm)
  {
    if t == [] || ForKey(t[0], callId, realm) then 0 else 1 + FirstKey(t[1..], callId, realm)
  }

  function FirstEmpty(t: seq<Slot>): (k: nat)
    ensures k <= |t| && (k < |t| ==> !InUse(t[k]))
    ensures forall j :: 0 <= j < k ==> InUse(t[j])
  {
    if t == [] || !InUse(t[0]) then 0 else 1 + FirstEmpty(t[1..])
  }

  function FirstCall(t: seq<Slot>, callId: string): (k: nat)
    ensures k <= |t| && (k < |t| ==> ForCall(t[k], callId))
    ensures forall j :: 0 <= j < k ==> !ForCall(t[j], callId)
  {
    if t == [] || ForCall(t[0], callId) then 0 else 1 + FirstCall(t[1..], callId)
  }

  /** What fits the Call-ID field of a slot. */
  function Kept(callId: string): string {
    if |callId| < CALL_ID_SIZE then callId else callId[..CALL_ID_SIZE - 1]
  }

  /** The slot of the same Call-ID and realm takes the new challenge, else the first empty one; else nothing happens. */
  function Stored(t: seq<Slot>, callId: string, wa: Challenge, code: int): (r: seq<Slot>)
    ensures |r| == |t|
  {
    var k := FirstKey(t, callId, wa.realm);
    if k < |t| then t[k := t[k].(wa := wa, nonceCount := 1)]
    else
      var e := FirstEmpty(t);
      if e < |t| then t[e := Slot(Kept(callId), wa, CNONCE, 1, code)] else t
  }

  /** The first slot of the Call-ID is cleared. */
  function Deleted(t: seq<Slot>, callId: string): (r: seq<Slot>)
    ensures |r| == |t|
  {
    var k := FirstCall(t, callId);
    if k < |t| then t[k := EMPTY] else t
  }

  // ---------------------------------------------------------------- keys

  /** Call-IDs as long as the field can hold. */
  ghost predicate ShortIds(t: seq<Slot>) {
    forall i :: 0 <= i < |t| ==> |t[i].callId| < CALL_ID_SIZE
  }

  ghost predicate UniqueKeys(t: seq<Slot>) {
    forall i, j :: 0 <= i < j < |t| && InUse(t[i]) && InUse(t[j]) ==> !ForKey(t[j], t[i].callId, t[i].wa.realm)
  }

  /** A slot already answers to the truncated Call-ID, though not to the whole one. */
  ghost predicate Collides(t: seq<Slot>, callId: string, realm: Option<string>) {
    |callId| >= CALL_ID_SIZE && FirstEmpty(t) < |t| && FirstKey(t, Kept(callId), realm) < |t|
  }

  lemma LongIdMatchesNothing(t: seq<Slot>, callId: string, realm: Option<string>)
    requires ShortIds(t) && |callId| >= CALL_ID_SIZE
    ensures FirstKey(t, callId, realm) == |t|
  {
    forall i | 0 <= i < |t| ensures !ForKey(t[i], callId, realm) {
      assert |Lower(t[i].callId)| < |Lower(callId)|;
    }
  }

  lemma ForKeySymmetric(a: Slot, b: Slot)
    requires InUse(a) && InUse(b)
    ensures ForKey(a, b.callId, b.wa.realm) == ForKey(b, a.callId, a.wa.realm)
  {
  }

  /**
   * Storing keeps the keys of the slots in use distinct exactly when no Call-ID is cut to one already there.
   */
  lemma StoredKeepsKeys(t: seq<Slot>, callId: string, wa: Challenge, code: int)
    requires UniqueKeys(t) && ShortIds(t)
    ensures ShortIds(Stored(t, callId, wa, code))
    ensures UniqueKeys(Stored(t, callId, wa, code)) <==> !Collides(t, callId, wa.realm)
  {
    var k, e := FirstKey(t, callId, wa.realm), FirstEmpty(t);
    var r := Stored(t, callId, wa, code);
    if k < |t| {
      StoredOverOld(t, callId, wa, code);
      if |callId| >= CALL_ID_SIZE {
        LongIdMatchesNothing(t, callId, wa.realm);
      }
    } else if e < |t| {
      StoredInEmpty(t, callId, wa, code);
    } else {
      assert r == t;
    }
  }

  lemma StoredOverOld(t: seq<Slot>, callId: string, wa: Challenge, code: int)
    requires UniqueKeys(t) && FirstKey(t, callId, wa.realm) < |t|
    ensures UniqueKeys(Stored(t, callId, wa, code))
  {
    var k := FirstKey(t, callId, wa.realm);
    var r := Stored(t, callId, wa, code);
    forall i, j | 0 <= i < j < |r| && InUse(r[i]) && InUse(r[j])
      ensures !ForKey(r[j], r[i].callId, r[i].wa.realm)
    {
      assert ForKey(r[j], r[i].callId, r[i].wa.realm) == ForKey(t[j], t[i].callId, t[i].wa.realm);
    }
  }

  lemma StoredInEmpty(t: seq<Slot>, callId: string, wa: Challenge, code: int)
    requires UniqueKeys(t) && ShortIds(t)
    requires FirstKey(t, callId, wa.realm) == |t| && FirstEmpty(t) < |t|
    ensures UniqueKeys(Stored(t, callId, wa, code)) <==> !Collides(t, callId, wa.realm)
  {
    var e := FirstEmpty(t);
    var r := Stored(t, callId, wa, code);
    var c := FirstKey(t, Kept(callId), wa.realm);
    if c < |t| && |callId| >= CALL_ID_SIZE {
      assert r[c] == t[c] && r[e].callId == Kept(callId) && c != e;
      ForKeySymmetric(r[c], r[e]);
      var i, j := if c < e then c else e, if c < e then e else c;
      assert ForKey(r[j], r[i].callId, r[i].wa.realm);
      assert !UniqueKeys(r);
    } else {
      if |callId| < CALL_ID_SIZE {
        assert Kept(callId) == callId;
      }
      assert c == |t|;
      forall i, j | 0 <= i < j < |r| && InUse(r[i]) && InUse(r[j])
        ensures !ForKey(r[j], r[i].callId, r[i].wa.realm)
      {
        if i == e {
          assert !ForKey(t[j], Kept(callId), wa.realm);
        } else if j == e {
          assert !ForKey(t[i], Kept(callId), wa.realm);
          ForKeySymmetric(r[i], r[j]);
        } else {
          assert r[i] == t[i] && r[j] == t[j];
        }
      }
    }
  }

  lemma DeletedKeepsKeys(t: seq<Slot>, callId: string)
    requires UniqueKeys(t) && ShortIds(t)
    ensures UniqueKeys(Deleted(t, callId)) && ShortIds(Deleted(t, callId))
  {
    var r := Deleted(t, callId);
    forall i, j | 0 <= i < j < |r| && InUse(r[i]) && InUse(r[j])
      ensures !ForKey(r[j], r[i].callId, r[i].wa.realm)
    {
      assert r[i] == t[i] && r[j] == t[j];
    }
  }
}
