/**
 * The decoder's stream with four-byte start codes, and what a missed start code makes of it. However the camera's
 * stream was cut into buffers, the uncut stream's units are the pieces of those the session cuts off; and the decoder
 * sees no difference exactly where each missed code has one zero before it.
 */
module CanonicalStreams {
  import opened Sequences
  import opened AnnexB
  import opened Synchronization
  import opened RtpPackets

  /** Each NAL unit behind a four-byte start code. */
  function CanonicalAll(nals: seq<seq<byte>>): seq<byte> {
    if nals == [] then [] else Canonical(nals[0]) + CanonicalAll(nals[1..])
  }

  lemma {:induction false} CanonicalAppend(a: seq<seq<byte>>, b: seq<seq<byte>>)
    ensures CanonicalAll(a + b) == CanonicalAll(a) + CanonicalAll(b)
  {
    if a == [] {
      assert a + b == b;
    } else {
      assert (a + b)[1..] == a[1..] + b;
      CanonicalAppend(a[1..], b);
    }
  }

  lemma {:induction false} CanonicalGrows(nals: seq<seq<byte>>)
    ensures |CanonicalAll(nals)| >= 4 * |nals|
  {
    if nals != [] {
      CanonicalGrows(nals[1..]);
    }
  }

  /** The form of every unit cut off, with a missed code in it or not. */
  predicate UnitLike(u: seq<byte>) {
    u != [] && u[|u| - 1] != 0
  }

  ghost predicate AllUnits(us: seq<seq<byte>>) {
    forall i :: 0 <= i < |us| ==> UnitLike(us[i])
  }

  ghost predicate AllWellFormed(us: seq<seq<byte>>) {
    forall i :: 0 <= i < |us| ==> WellFormed(us[i])
  }

  // ---------------------------------------------------------------- the pieces of a unit

  const BEHIND: seq<byte> := START_CODE + [1]

  /** The units that a full scan makes of one unit, missed codes and all. */
  function Pieces(u: seq<byte>): seq<seq<byte>> {
    Scan(u + BEHIND, 0).nals
  }

  function PiecesAll(us: seq<seq<byte>>): seq<seq<byte>> {
    if us == [] then [] else Pieces(us[0]) + PiecesAll(us[1..])
  }

  lemma {:induction false} PiecesAppend(a: seq<seq<byte>>, b: seq<seq<byte>>)
    ensures PiecesAll(a + b) == PiecesAll(a) + PiecesAll(b)
  {
    hide Pieces;
    if a == [] {
      assert a + b == b;
    } else {
      assert (a + b)[1..] == a[1..] + b;
      PiecesAppend(a[1..], b);
      ConcatAssociative(Pieces(a[0]), PiecesAll(a[1..]), PiecesAll(b));
    }
  }

  /** The first start code of u and what follows it; |u| when there is none. */
  function FirstCode(u: seq<byte>): nat {
    FindHit(u + BEHIND, 0)
  }

  lemma FirstCodeIs(u: seq<byte>)
    ensures var h := FirstCode(u);
            && (h == |u| || (h + 3 <= |u| && CodeAt(u, h)))
            && forall j :: 0 <= j < h ==> !CodeAt(u, j)
  {
    var s, h := u + BEHIND, FirstCode(u);
    assert HitAt(s, |u|);
    FindHitUpTo(s, |u|);
    FindHitIsFirst(s, 0);
    forall j | 0 <= j < h ensures !CodeAt(u, j) {
      assert CodeAt(u, j) ==> HitAt(s, j);
    }
  }

  lemma PiecesStep(u: seq<byte>)
    requires FirstCode(u) < |u|
    ensures var h := FirstCode(u);
            h + 3 <= |u| && Pieces(u) == UnlessEmpty(StripZeros(u[..h])) + Pieces(u[h + 3..])
  {
    FirstCodeIs(u);
    var h := FirstCode(u);
    SplitOfConcat(u, BEHIND, h);
    SplitOfConcat(u, BEHIND, h + 3);
    ScanFromHit(u + BEHIND, h, StripZeros(u[..h]), u[h + 3..] + BEHIND);
  }

  lemma NoPieces()
    ensures Pieces([]) == []
  {
    assert HitAt([] + BEHIND, 0);
    assert ([] + BEHIND)[..0] == [] && ([] + BEHIND)[3..] == [1];
    OneByteLeft([1]);
  }

  lemma OnePiece(u: seq<byte>)
    requires WellFormed(u)
    ensures Pieces(u) == [u]
  {
    assert BEHIND == Zeros(0) + START_CODE + [1];
    assert Pieces(u) == Scan(u + (Zeros(0) + START_CODE + [1]), 0).nals;
    OneUpToEnd(u, 0, 1);
  }

  lemma {:induction false} PiecesOfWellFormed(us: seq<seq<byte>>)
    requires AllWellFormed(us)
    ensures PiecesAll(us) == us
  {
    hide Pieces;
    if us != [] {
      assert WellFormed(us[0]);
      OnePiece(us[0]);
      forall i | 0 <= i < |us[1..]| ensures WellFormed(us[1..][i]) {
        assert WellFormed(us[i + 1]);
      }
      PiecesOfWellFormed(us[1..]);
    }
  }

  /** Zeros before the next code, and the byte behind it, make no difference to the pieces. */
  lemma {:induction false} PiecesBeforeZeros(u: seq<byte>, z: nat, x: byte)
    requires u == [] || u[|u| - 1] != 0
    ensures Scan(u + (Zeros(z) + START_CODE + [x]), 0).nals == Pieces(u)
    decreases |u|
  {
    var s, h := u + (Zeros(z) + START_CODE + [x]), FirstCode(u);
    FirstCodeIs(u);
    if h == |u| {
      NoCodeAnywhere(u);
      PiecesUpToEnd(u, z, x);
    } else {
      FirstCodeStays(u, Zeros(z) + START_CODE + [x]);
      SplitOfConcat(u, Zeros(z) + START_CODE + [x], h);
      SplitOfConcat(u, Zeros(z) + START_CODE + [x], h + 3);
      PiecesStep(u);
      PiecesBeforeZeros(u[h + 3..], z, x);
      ScanFromHit(s, h, StripZeros(u[..h]), u[h + 3..] + (Zeros(z) + START_CODE + [x]));
    }
  }

  lemma NoCodeAnywhere(u: seq<byte>)
    requires FirstCode(u) == |u|
    ensures !ContainsCode(u)
  {
    FirstCodeIs(u);
  }

  lemma FirstCodeStays(u: seq<byte>, t: seq<byte>)
    requires FirstCode(u) < |u| && t != []
    ensures FindHit(u + t, 0) == FirstCode(u)
  {
    FirstCodeIs(u);
    var h := FirstCode(u);
    assert HitAt(u + t, h);
    forall j | 0 <= j < h ensures !HitAt(u + t, j) {
      assert HitAt(u + t, j) ==> CodeAt(u, j);
    }
    FindHitUnique(u + t, 0, h);
  }

  lemma PiecesUpToEnd(u: seq<byte>, z: nat, x: byte)
    requires (u == [] || u[|u| - 1] != 0) && !ContainsCode(u)
    ensures Scan(u + (Zeros(z) + START_CODE + [x]), 0).nals == Pieces(u)
  {
    if u == [] {
      ZerosHoldNothing(z, x);
    } else {
      assert WellFormed(u);
      hide Scan, Pieces, WellFormed;
      OnePiece(u);
      OneUpToEnd(u, z, x);
    }
  }

  lemma ZerosHoldNothing(z: nat, x: byte)
    ensures Scan([] + (Zeros(z) + START_CODE + [x]), 0).nals == Pieces([])
  {
    hide Scan, Pieces, StripZeros;
    NoPieces();
    OneByteLeft([x]);
    FirstHitBehindNal([], z, [x]);
    ScanFromHit([] + (Zeros(z) + START_CODE + [x]), z, [], [x]);
  }

  lemma OneUpToEnd(u: seq<byte>, z: nat, x: byte)
    requires WellFormed(u)
    ensures Scan(u + (Zeros(z) + START_CODE + [x]), 0).nals == [u]
  {
    hide Scan;
    OneByteLeft([x]);
    ScanOverOneNal(u, z, [x]);
    assert [u] + [] == [u];
  }

  // ---------------------------------------------------------------- sessions refine the uncut stream

  /** What was cut off, taken to pieces, and what a full scan makes of the rest. */
  function Refined(c: Cut): Cut {
    var tail := Scan(c.rest, 0);
    Cut(PiecesAll(c.nals) + tail.nals, tail.rest)
  }

  lemma CleanIsRefined(s: seq<byte>)
    ensures Refined(Scan(s, 0)) == Scan(s, 0)
  {
    var c := Scan(s, 0);
    ScanYieldsWellFormed(s);
    ScanRestHasNoHit(s);
    assert Scan(c.rest, 0) == Cut([], c.rest);
    forall i | 0 <= i < |c.nals| ensures WellFormed(c.nals[i]) {
      assert c.nals[i] in c.nals;
    }
    hide Scan;
    PiecesOfWellFormed(c.nals);
    assert c.nals + [] == c.nals;
  }

  /** The full scan up to a start code with bytes behind it, and of those bytes. */
  lemma ScanBehindCode(s: seq<byte>, k: nat)
    requires HitAt(s, k)
    ensures var tail := Scan(s[k + 3..], 0);
            Scan(s, 0) == Cut(Pieces(StripZeros(s[..k])) + tail.nals, tail.rest)
  {
    hide Scan, Pieces, StripZeros;
    var d, t := BehindCode(s, k);
    LastByteStays(d, k);
    ScanSplit(d, t);
    UpToCode(s, k);
  }

  lemma BehindCode(s: seq<byte>, k: nat) returns (d: seq<byte>, t: seq<byte>)
    requires HitAt(s, k)
    ensures d == s[..k + 4] && d + t == s && d[k + 3..] + t == s[k + 3..]
    ensures CodeAt(d, k) && k + 4 == |d|
  {
    d, t := s[..k + 4], s[k + 4..];
  }

  lemma UpToCode(s: seq<byte>, k: nat)
    requires HitAt(s, k)
    ensures Scan(s[..k + 4], 0).nals == Pieces(StripZeros(s[..k]))
  {
    var u := StripZeros(s[..k]);
    StripZerosIs(s[..k]);
    hide Scan, Pieces, StripZeros;
    assert s[..k + 4] == u + (Zeros(k - |u|) + START_CODE + [s[k + 3]]);
    PiecesBeforeZeros(u, k - |u|, s[k + 3]);
  }

  /** A scan that starts late misses codes only inside its first unit. */
  lemma LateScanRefines(s: seq<byte>, begin: nat)
    ensures Refined(Scan(s, begin)) == Scan(s, 0)
  {
    var k := FindHit(s, begin);
    FindHitIsFirst(s, begin);
    if k == |s| {
      assert Scan(s, begin) == Cut([], s);
      hide Scan;
      assert [] + Scan(s, 0).nals == Scan(s, 0).nals;
    } else {
      var u, tail := StripZeros(s[..k]), Scan(s[k + 3..], 0);
      ScanFromLate(s, begin, k);
      ScanBehindCode(s, k);
      CleanIsRefined(s[k + 3..]);
      hide Scan, Pieces, FindHit, StripZeros;
      OneInFront(u);
      PiecesAppend(UnlessEmpty(u), tail.nals);
      ConcatAssociative(Pieces(u), PiecesAll(tail.nals), Scan(tail.rest, 0).nals);
    }
  }

  lemma ScanFromLate(s: seq<byte>, begin: nat, k: nat)
    requires k == FindHit(s, begin) < |s|
    ensures var tail := Scan(s[k + 3..], 0);
            Scan(s, begin) == Cut(UnlessEmpty(StripZeros(s[..k])) + tail.nals, tail.rest)
  {
  }

  lemma OneInFront(u: seq<byte>)
    ensures PiecesAll(UnlessEmpty(u)) == Pieces(u)
  {
    if u == [] {
      NoPieces();
    } else {
      assert [u][1..] == [];
      assert Pieces(u) + [] == Pieces(u);
    }
  }

  /** One more string behind both: the refinement goes on with what is left. */
  lemma RefinedOn(c: Cut, s: seq<byte>, t: seq<byte>)
    requires Refined(c) == Scan(s, 0)
    ensures var later := Scan(c.rest + t, 0);
            Scan(s + t, 0) == Cut(PiecesAll(c.nals) + later.nals, later.rest)
  {
    ScanSplit(s, t);
    ScanSplit(c.rest, t);
    hide Scan, PiecesAll;
    var a := Scan(c.rest, 0);
    ConcatAssociative(PiecesAll(c.nals), a.nals, Scan(a.rest + t, 0).nals);
  }

  /** A synchronized session, whatever its buffers: the uncut stream yields the pieces of what it yields. */
  lemma {:induction false} RunRefines(p: seq<byte>, bufs: seq<seq<byte>>)
    requires p != []
    ensures Refined(Run(p, bufs)) == Scan(p + Flatten(bufs), 0)
    decreases |bufs|
  {
    if bufs == [] {
      assert p + Flatten(bufs) == p;
      hide Scan;
      assert [] + Scan(p, 0).nals == Scan(p, 0).nals;
    } else {
      var now, more := Feed(p, bufs[0]), Flatten(bufs[1..]);
      LateScanRefines(p + bufs[0], ResumeAt(|p|));
      ScanKeepsSomething(p + bufs[0], ResumeAt(|p|));
      ConcatAssociative(p, bufs[0], more);
      hide Scan, Pieces, Feed;
      RefinedOn(now, p + bufs[0], more);
      var later := Run(now.rest, bufs[1..]);
      RunRefines(now.rest, bufs[1..]);
      PiecesAppend(now.nals, later.nals);
      ConcatAssociative(PiecesAll(now.nals), PiecesAll(later.nals), Scan(later.rest, 0).nals);
    }
  }

  /** The same for a session from its first call on, and the stream from the synchronizing buffer on. */
  lemma SessionRefines(bufs: seq<seq<byte>>, k: nat)
    requires SyncsAt(bufs, k)
    ensures Refined(Run([], bufs)) == OneShot(Flatten(bufs[k..]))
  {
    DroppedBeforeSync(bufs, k);
    var d, later := bufs[k], bufs[k + 1..];
    assert bufs[k..] == [d] + later && ([d] + later)[1..] == later;
    assert Feed([], d) == OneShot(d);
    FlattenAt(bufs, k);
    OneShotSplit(d, Flatten(later));
    RunRefines(OneShot(d).rest, later);
    FirstCallRefined(d);
    var now, run := OneShot(d), Run(OneShot(d).rest, later);
    hide Scan, Pieces, OneShot, SyncsAt;
    PiecesAppend(now.nals, run.nals);
    ConcatAssociative(PiecesAll(now.nals), PiecesAll(run.nals), Scan(run.rest, 0).nals);
  }

  lemma FirstCallRefined(d: seq<byte>)
    requires FindHit(d, 0) < |d|
    ensures PiecesAll(OneShot(d).nals) == OneShot(d).nals
  {
    var s := d[FindHit(d, 0) + 3..];
    ScanYieldsWellFormed(s);
    var nals := Scan(s, 0).nals;
    forall i | 0 <= i < |nals| ensures WellFormed(nals[i]) {
      assert nals[i] in nals;
    }
    hide Scan;
    PiecesOfWellFormed(nals);
  }

  // ---------------------------------------------------------------- what the decoder sees

  /** One zero before a start code, behind a byte that is part of no other. */
  predicate OneZeroBefore(u: seq<byte>, q: int)
    requires 0 <= q < |u|
  {
    q >= 2 && u[q - 1] == 0 && u[q - 2] != 0 && !CodeAt(u, q - 4)
  }

  /** The codes inside a unit read like the four-byte codes between units. */
  ghost predicate Transparent(u: seq<byte>) {
    !EndsInCode(u) && forall q :: 0 <= q < |u| && CodeAt(u, q) ==> OneZeroBefore(u, q)
  }

  ghost predicate AllTransparent(us: seq<seq<byte>>) {
    forall i :: 0 <= i < |us| ==> Transparent(us[i])
  }

  /** The part of u behind its first code, which begins at h. */
  lemma CodesBehind(u: seq<byte>, h: nat, q: nat)
    requires h + 3 <= |u| && CodeAt(u, h)
    ensures CodeAt(u[h + 3..], q) <==> CodeAt(u, h + 3 + q)
    ensures !CodeAt(u, h + 1) && !CodeAt(u, h + 2)
  {
    var b := u[h + 3..];
    if q + 3 <= |b| {
      assert b[q] == u[h + 3 + q] && b[q + 1] == u[h + 4 + q] && b[q + 2] == u[h + 5 + q];
    }
  }

  lemma TransparentTail(u: seq<byte>, h: nat)
    requires h + 3 < |u| && CodeAt(u, h) && Transparent(u)
    ensures Transparent(u[h + 3..])
  {
    var b := u[h + 3..];
    forall q | 0 <= q < |b| && CodeAt(b, q) ensures OneZeroBefore(b, q) {
      CodesBehind(u, h, q);
      assert OneZeroBefore(u, h + 3 + q);
      assert q != 0 && q != 1;
      if q >= 4 {
        CodesBehind(u, h, q - 4);
      }
    }
    if |b| >= 3 {
      CodesBehind(u, h, |b| - 3);
    }
  }

  lemma TransparentWhole(u: seq<byte>, h: nat)
    requires h + 3 < |u| && CodeAt(u, h) && OneZeroBefore(u, h) && Transparent(u[h + 3..])
    requires forall j :: 0 <= j < h ==> !CodeAt(u, j)
    ensures Transparent(u)
  {
    var b := u[h + 3..];
    forall q | 0 <= q < |u| && CodeAt(u, q) ensures OneZeroBefore(u, q) {
      if q != h {
        CodesBehind(u, h, 0);
        assert q >= h + 3;
        CodesBehind(u, h, q - h - 3);
        assert OneZeroBefore(b, q - h - 3);
        assert b[q - h - 4] == u[q - 1] && b[q - h - 5] == u[q - 2];
        if q - 4 >= h + 3 {
          CodesBehind(u, h, q - 4 - h - 3);
        }
      }
    }
    CodesBehind(u, h, 0);
    if |b| >= 3 {
      CodesBehind(u, h, |b| - 3);
    }
  }

  /** A unit cut at its first code, with one zero before it. */
  lemma CutAtFirst(u: seq<byte>, h: nat)
    requires 2 <= h && h + 3 <= |u| && CodeAt(u, h) && u[h - 1] == 0 && u[h - 2] != 0
    ensures StripZeros(u[..h]) == u[..h - 1] != []
    ensures Canonical(u) == Canonical(u[..h - 1]) + Canonical(u[h + 3..])
  {
    var a, b := u[..h - 1], u[h + 3..];
    assert u[..h] == a + Zeros(1);
    ZerosAreStripped(a, 1);
    hide StripZeros;
    assert u == a + (FOUR_BYTE_CODE + b);
    ConcatAssociative(FOUR_BYTE_CODE, a, FOUR_BYTE_CODE + b);
  }

  /** A transparent unit reads like its pieces. */
  lemma {:induction false} TransparentReads(u: seq<byte>)
    requires UnitLike(u) && Transparent(u)
    ensures CanonicalAll(Pieces(u)) == Canonical(u)
    decreases |u|
  {
    var h := FirstCode(u);
    FirstCodeIs(u);
    hide Pieces, FirstCode, StripZeros;
    if h == |u| {
      assert !ContainsCode(u);
      OnePiece(u);
      OneCanonical(u);
    } else {
      assert OneZeroBefore(u, h);
      var a, b := u[..h - 1], u[h + 3..];
      CutAtFirst(u, h);
      TransparentTail(u, h);
      PiecesStep(u);
      hide Transparent, Canonical;
      TransparentReads(b);
      CanonicalAppend([a], Pieces(b));
      OneCanonical(a);
    }
  }

  lemma OneCanonical(u: seq<byte>)
    ensures CanonicalAll([u]) == Canonical(u)
  {
    assert [u][1..] == [];
  }

  /** Two units joined by a missed code read like two exactly when one zero stands before it. */
  lemma JoinedReads(a: seq<byte>, z: nat, b: seq<byte>)
    requires WellFormed(a) && WellFormed(b)
    ensures Transparent(a + (Zeros(z) + START_CODE + b)) <==> z == 1
  {
    var u, h := a + (Zeros(z) + START_CODE + b), |a| + z;
    FirstHitBehindNal(a, z, b);
    FindHitIsFirst(u, 0);
    hide StripZeros, FindHit;
    assert u[h - 1] == if z == 0 then a[|a| - 1] else 0;
    assert z == 1 ==> u[h - 2] == a[|a| - 1];
    assert z >= 2 ==> u[h - 2] == 0;
    assert CodeAt(u, h);
    forall q | 0 <= q < |u| && q != h ensures !CodeAt(u, q) {
      if q < h {
        assert !HitAt(u, q);
      } else if q >= h + 3 {
        CodesBehind(u, h, q - h - 3);
        assert !CodeAt(b, q - h - 3);
      } else {
        CodesBehind(u, h, 0);
      }
    }
  }

  // ---------------------------------------------------------------- reading a stream of units in one way only

  /** Nothing, or something that begins like a unit. */
  predicate Follows(t: seq<byte>) {
    t == [] || FOUR_BYTE_CODE <= t
  }

  lemma CanonicalFollows(us: seq<seq<byte>>)
    ensures Follows(CanonicalAll(us))
  {
  }

  /** A unit without a code ends where the next start code begins, and not before. */
  lemma SameEnd(u: seq<byte>, c: seq<byte>, rest: seq<byte>, more: seq<byte>)
    requires WellFormed(u) && WellFormed(c) && Follows(rest) && Follows(more)
    requires u + rest == c + more
    ensures u == c && rest == more
  {
    if |c| < |u| {
      NotShorter(u, c, rest, more);
    } else if |u| < |c| {
      NotShorter(c, u, more, rest);
    }
    assert |u| == |c|;
    assert (u + rest)[..|u|] == u && (c + more)[..|c|] == c;
    assert (u + rest)[|u|..] == rest && (c + more)[|c|..] == more;
  }

  lemma NotShorter(u: seq<byte>, c: seq<byte>, rest: seq<byte>, more: seq<byte>)
    requires WellFormed(u) && Follows(more) && |c| < |u|
    ensures u + rest != c + more
  {
    var n := |c|;
    if FOUR_BYTE_CODE <= more {
      var t := c + more;
      assert t[n] == more[0] && t[n + 1] == more[1] && t[n + 2] == more[2] && t[n + 3] == more[3];
      CodeOrZeroEnd(u, n);
      assert u <= u + rest;
    }
  }

  /** A well-formed unit that holds the first byte of a four-byte code does not go on like the code. */
  lemma CodeOrZeroEnd(u: seq<byte>, n: nat)
    requires WellFormed(u) && n < |u|
    ensures u[n] != 0 || (n + 1 < |u| && (u[n + 1] != 0 ||
              (n + 2 < |u| && (u[n + 2] != 0 || (n + 3 < |u| && u[n + 3] != 1)))))
  {
    assert !CodeAt(u, n + 1);
  }

  /** A unit with a code inside: the first unit read from it ends one zero before that code. */
  lemma FirstRead(u: seq<byte>, h: nat, c: seq<byte>, rest: seq<byte>, more: seq<byte>)
    requires h + 3 <= |u| && CodeAt(u, h) && forall j :: 0 <= j < h ==> !CodeAt(u, j)
    requires WellFormed(c) && Follows(more) && u + rest == c + more
    ensures |c| == h - 1 && c == u[..h - 1] && h >= 2 && u[h - 1] == 0 && u[h - 2] != 0
    ensures more == FOUR_BYTE_CODE + (u[h + 3..] + rest)
  {
    var s, n := u + rest, |c|;
    assert s[h] == 0 && s[h + 1] == 0 && s[h + 2] == 1;
    assert c <= s && !CodeAt(c, h);
    assert s[n - 1] == c[n - 1] != 0;
    assert |more| > 0;
    assert more[0] == 0 && more[1] == 0 && more[2] == 0 && more[3] == 1;
    assert s[n] == more[0] && s[n + 1] == more[1] && s[n + 2] == more[2] && s[n + 3] == more[3];
    assert u <= s && (n + 1 < h ==> !CodeAt(u, n + 1));
    assert n == h - 1;
    assert s[..n] == c && u[..n] == s[..n];
    assert more == s[n..];
    assert s[n..] == FOUR_BYTE_CODE + s[h + 3..];
    SplitOfConcat(u, rest, h + 3);
  }

  lemma NothingBeginsThere(d: seq<byte>, more: seq<byte>)
    requires WellFormed(d)
    ensures !Follows(d + more)
  {
    assert d <= d + more;
    CodeOrZeroEnd(d, 0);
  }

  lemma HeadOf(us: seq<seq<byte>>, u: seq<byte>, rest: seq<byte>)
    requires CanonicalAll(us) == Canonical(u) + rest
    ensures us != [] && u + rest == us[0] + CanonicalAll(us[1..])
  {
    assert us != [];
    var a, b := u + rest, us[0] + CanonicalAll(us[1..]);
    ConcatAssociative(FOUR_BYTE_CODE, u, rest);
    ConcatAssociative(FOUR_BYTE_CODE, us[0], CanonicalAll(us[1..]));
    assert (FOUR_BYTE_CODE + a)[4..] == a && (FOUR_BYTE_CODE + b)[4..] == b;
  }

  lemma TailsWellFormed(us: seq<seq<byte>>)
    requires AllWellFormed(us) && us != []
    ensures WellFormed(us[0]) && AllWellFormed(us[1..])
  {
    forall i | 0 <= i < |us[1..]| ensures WellFormed(us[1..][i]) {
      assert WellFormed(us[i + 1]);
    }
  }

  /**
   * Where a unit and what follows it read like well-formed units, the unit is transparent and they begin with its
   * pieces.
   */
  lemma {:induction false} ReadsAsPieces(u: seq<byte>, rest: seq<byte>, us: seq<seq<byte>>)
    requires UnitLike(u) && Follows(rest) && AllWellFormed(us)
    requires Canonical(u) + rest == CanonicalAll(us)
    ensures Transparent(u) && Pieces(u) <= us && rest == CanonicalAll(us[|Pieces(u)|..])
    decreases |u|
  {
    HeadOf(us, u, rest);
    TailsWellFormed(us);
    var c, more, h := us[0], CanonicalAll(us[1..]), FirstCode(u);
    CanonicalFollows(us[1..]);
    FirstCodeIs(u);
    hide Pieces, FirstCode, Canonical, CanonicalAll;
    if h == |u| {
      assert !ContainsCode(u);
      SameEnd(u, c, rest, more);
      OnePiece(u);
    } else {
      FirstRead(u, h, c, rest, more);
      CutAtFirst(u, h);
      PiecesStep(u);
      ReadsOn(u, h, rest, us);
    }
  }

  lemma {:induction false} ReadsOn(u: seq<byte>, h: nat, rest: seq<byte>, us: seq<seq<byte>>)
    requires UnitLike(u) && Follows(rest) && us != [] && AllWellFormed(us[1..])
    requires 2 <= h && h + 3 <= |u| && CodeAt(u, h) && u[h - 1] == 0 && u[h - 2] != 0
    requires forall j :: 0 <= j < h ==> !CodeAt(u, j)
    requires us[0] == u[..h - 1] && CanonicalAll(us[1..]) == FOUR_BYTE_CODE + (u[h + 3..] + rest)
    requires Pieces(u) == [u[..h - 1]] + Pieces(u[h + 3..])
    ensures Transparent(u) && Pieces(u) <= us && rest == CanonicalAll(us[|Pieces(u)|..])
    decreases |u|, 0
  {
    hide Pieces, CanonicalAll;
    var b, vs := u[h + 3..], us[1..];
    ConcatAssociative(FOUR_BYTE_CODE, b, rest);
    HeadOf(vs, b, rest);
    TailsWellFormed(vs);
    NothingBeginsThere(vs[0], CanonicalAll(vs[1..]));
    assert b == [] ==> b + rest == rest;
    assert UnitLike(b);
    ReadsAsPieces(b, rest, vs);
    assert OneZeroBefore(u, h);
    hide Follows, UnitLike;
    TransparentWhole(u, h);
    InFrontOf(us, Pieces(b));
  }

  /**
   * Two streams of units read the same exactly when the units of the one are transparent and the other's are their
   * pieces.
   */
  lemma {:induction false} ReadSame(us: seq<seq<byte>>, vs: seq<seq<byte>>)
    requires AllUnits(us) && AllWellFormed(vs)
    ensures CanonicalAll(us) == CanonicalAll(vs) <==> AllTransparent(us) && vs == PiecesAll(us)
    decreases |us|
  {
    if us == [] {
      CanonicalGrows(vs);
    } else {
      var u, rest := us[0], CanonicalAll(us[1..]);
      CanonicalFollows(us[1..]);
      assert AllTransparent(us) <==> Transparent(u) && AllTransparent(us[1..]) by {
        assert us == [u] + us[1..];
      }
      hide Pieces, Transparent, Follows;
      if Canonical(u) + rest == CanonicalAll(vs) {
        ReadsAsPieces(u, rest, vs);
        ReadSame(us[1..], vs[|Pieces(u)|..]);
        assert vs == Pieces(u) + vs[|Pieces(u)|..];
        SameBehind(Pieces(u), vs[|Pieces(u)|..], PiecesAll(us[1..]));
      }
      if AllTransparent(us) && vs == PiecesAll(us) {
        TransparentReads(u);
        PiecesWellFormed(us[1..], Pieces(u), vs);
        ReadSame(us[1..], PiecesAll(us[1..]));
        CanonicalAppend(Pieces(u), PiecesAll(us[1..]));
      }
    }
  }

  lemma InFrontOf(us: seq<seq<byte>>, front: seq<seq<byte>>)
    requires us != [] && front <= us[1..]
    ensures [us[0]] + front <= us && us[|[us[0]] + front|..] == us[1..][|front|..]
  {
  }

  lemma SameBehind(front: seq<seq<byte>>, a: seq<seq<byte>>, b: seq<seq<byte>>)
    ensures front + a == front + b <==> a == b
  {
    assert (front + a)[|front|..] == a && (front + b)[|front|..] == b;
  }

  lemma PiecesWellFormed(us: seq<seq<byte>>, front: seq<seq<byte>>, vs: seq<seq<byte>>)
    requires AllWellFormed(vs) && vs == front + PiecesAll(us)
    ensures AllWellFormed(PiecesAll(us))
  {
    forall i | 0 <= i < |PiecesAll(us)| ensures WellFormed(PiecesAll(us)[i]) {
      assert vs[|front| + i] == PiecesAll(us)[i];
    }
  }

  // ---------------------------------------------------------------- sessions

  lemma {:induction false} ScanUnits(s: seq<byte>, begin: nat)
    ensures AllUnits(Scan(s, begin).nals)
    decreases |s|
  {
    var k := FindHit(s, begin);
    if k < |s| {
      StripZerosIs(s[..k]);
      ScanUnits(s[k + 3..], 0);
    }
  }

  lemma {:induction false} RunUnits(p: seq<byte>, bufs: seq<seq<byte>>)
    ensures AllUnits(Run(p, bufs).nals)
    decreases |bufs|
  {
    if bufs != [] {
      FeedUnits(p, bufs[0]);
      RunUnits(Feed(p, bufs[0]).rest, bufs[1..]);
    }
  }

  lemma FeedUnits(p: seq<byte>, d: seq<byte>)
    ensures AllUnits(Feed(p, d).nals)
  {
    if p != [] {
      ScanUnits(p + d, ResumeAt(|p|));
    } else if FindHit(d, 0) < |d| {
      ScanUnits(d[FindHit(d, 0) + 3..], 0);
    }
  }

  lemma OneShotWellFormed(s: seq<byte>)
    ensures AllWellFormed(OneShot(s).nals)
  {
    var k := FindHit(s, 0);
    if k < |s| {
      ScanYieldsWellFormed(s[k + 3..]);
      var nals := OneShot(s).nals;
      forall i | 0 <= i < |nals| ensures WellFormed(nals[i]) {
        assert nals[i] in nals;
      }
    }
  }

  /** Each code missed inside a unit reads as one, and none missed at the end completes a unit. */
  ghost predicate ReadsAlike(run: Cut) {
    AllTransparent(run.nals) && Scan(run.rest, 0).nals == []
  }

  /**
   * Every session that synchronizes: the units it yields read like those of the stream from the synchronizing buffer
   * on exactly when each code missed inside a unit has one zero before it and something around it, and none missed at
   * the end completes a unit; and like those of the whole stream exactly when, besides, none was lost before.
   */
  lemma SessionReadsAlike(bufs: seq<seq<byte>>, k: nat)
    requires SyncsAt(bufs, k)
    ensures var run := Run([], bufs);
            && (CanonicalAll(run.nals) == CanonicalAll(OneShot(Flatten(bufs[k..])).nals) <==> ReadsAlike(run))
            && (CanonicalAll(run.nals) == CanonicalAll(OneShot(Flatten(bufs)).nals) <==>
                  Lost(bufs, k) == [] && ReadsAlike(run))
  {
    var run, lost, behind := Run([], bufs), Lost(bufs, k), Flatten(bufs[k..]);
    var pieces, tail := PiecesAll(run.nals), Scan(run.rest, 0).nals;
    SessionRefines(bufs, k);
    UncutStream(bufs, k);
    RunUnits([], bufs);
    OneShotWellFormed(Flatten(bufs));
    OneShotWellFormed(behind);
    hide Scan, OneShot, Run, Completed, CanonicalAll, AllTransparent, AllUnits, AllWellFormed, PiecesAll, SyncsAt;
    ReadSame(run.nals, OneShot(behind).nals);
    ReadSame(run.nals, OneShot(Flatten(bufs)).nals);
    Surrounded([], pieces, tail);
    Surrounded(lost, pieces, tail);
    assert [] + (pieces + tail) == pieces + tail;
  }

  lemma Surrounded(a: seq<seq<byte>>, b: seq<seq<byte>>, c: seq<seq<byte>>)
    ensures a + (b + c) == b <==> a == [] && c == []
  {
    assert |a + (b + c)| == |a| + |b| + |c|;
    if a == [] && c == [] {
      assert a + (b + c) == b;
    }
  }
}
