/**
 * What synchronizing costs: buffers before the first one with a start code and a byte behind it are dropped whole, and
 * a start code or a NAL unit that began in them is lost with them.
 */
module Synchronization {
  import opened Sequences
  import opened AnnexB

  /** A start code whose only following byte is the last: that byte alone stays. */
  lemma {:induction false} LastByteStays(s: seq<byte>, q: nat)
    requires CodeAt(s, q) && q + 4 == |s|
    ensures Scan(s, 0).rest == s[q + 3..]
    decreases |s|
  {
    var k := FindHit(s, 0);
    FindHitUpTo(s, q);
    if k == q {
      OneByteLeft(s[q + 3..]);
    } else {
      LastByteStays(s[k + 3..], q - k - 3);
      SliceBehindSlice(s, k + 3, q - k);
    }
  }

  /** The first hit is not behind a given one, and start codes do not overlap. */
  lemma FindHitUpTo(s: seq<byte>, q: nat)
    requires HitAt(s, q)
    ensures var k := FindHit(s, 0);
            && (k == q || k + 3 <= q)
            && (k < q ==> CodeAt(s[k + 3..], q - k - 3))
  {
    FindHitIsFirst(s, 0);
    var k := FindHit(s, 0);
    if k < q {
      assert s[k + 2] == 1 && s[q] == 0 && s[q + 1] == 0;
    }
  }

  lemma OneShotLastByte(s: seq<byte>, q: nat)
    requires CodeAt(s, q) && q + 4 == |s|
    ensures FindHit(s, 0) < |s| && OneShot(s).rest == s[q + 3..]
  {
    var k := FindHit(s, 0);
    FindHitUpTo(s, q);
    assert OneShot(s) == Scan(s[k + 3..], 0);
    if k == q {
      OneByteLeft(s[q + 3..]);
    } else {
      hide Scan, OneShot, FindHit;
      LastByteStays(s[k + 3..], q - k - 3);
      SliceBehindSlice(s, k + 3, q - k);
    }
  }

  lemma OneByteLeft(s: seq<byte>)
    requires |s| == 1
    ensures Scan(s, 0) == Cut([], s)
  {
  }

  lemma SliceBehindSlice(s: seq<byte>, i: nat, j: nat)
    requires i + j <= |s|
    ensures s[i..][j..] == s[i + j..]
  {
  }

  /** The units that bytes `a` and a stream b up to the first byte behind its first start code complete. */
  function Completed(a: seq<byte>, b: seq<byte>): seq<seq<byte>>
    requires FindHit(b, 0) < |b|
  {
    OneShot(a + b[..FindHit(b, 0) + 4]).nals
  }

  /** Bytes in front of a stream with a start code add exactly the units they complete. */
  lemma BytesInFront(a: seq<byte>, b: seq<byte>)
    requires FindHit(b, 0) < |b|
    ensures OneShot(a + b) == Cut(Completed(a, b) + OneShot(b).nals, OneShot(b).rest)
  {
    var d, t, q := CutBehindFirst(a, b);
    OneShotLastByte(d, q);
    OneShotSplit(d, t);
  }

  /** The stream up to the first byte behind the first start code of b, which is at q, and the bytes behind it. */
  lemma CutBehindFirst(a: seq<byte>, b: seq<byte>) returns (d: seq<byte>, t: seq<byte>, q: nat)
    requires FindHit(b, 0) < |b|
    ensures d == a + b[..FindHit(b, 0) + 4] && d + t == a + b
    ensures CodeAt(d, q) && q + 4 == |d| && OneShot(b) == Scan(d[q + 3..] + t, 0)
  {
    var h := FindHit(b, 0);
    FindHitIsFirst(b, 0);
    assert OneShot(b) == Scan(b[h + 3..], 0);
    hide FindHit, Scan, OneShot;
    d, t, q := a + b[..h + 4], b[h + 4..], |a| + h;
    assert d[q] == b[h] && d[q + 1] == b[h + 1] && d[q + 2] == b[h + 2];
    assert d[q + 3..] == [b[h + 3]];
    assert [b[h + 3]] + t == b[h + 3..];
    ConcatAssociative(a, b[..h + 4], t);
    assert b[..h + 4] + t == b;
  }

  /** The units lost because the session synchronizes only with buffer k. */
  function Lost(bufs: seq<seq<byte>>, k: nat): seq<seq<byte>>
    requires k < |bufs| && FindHit(bufs[k], 0) < |bufs[k]|
  {
    Completed(Flatten(bufs[..k]), bufs[k])
  }

  lemma CompletedByPrefix(a: seq<byte>, d: seq<byte>, t: seq<byte>)
    requires FindHit(d, 0) < |d|
    ensures FindHit(d + t, 0) < |d + t| && Completed(a, d + t) == Completed(a, d)
  {
    FindHitPrefix(d, t, 0);
    SplitOfConcat(d, t, FindHit(d, 0) + 4);
  }

  lemma FlattenAt(bufs: seq<seq<byte>>, k: nat)
    requires k < |bufs|
    ensures Flatten(bufs) == Flatten(bufs[..k]) + Flatten(bufs[k..])
    ensures Flatten(bufs[k..]) == bufs[k] + Flatten(bufs[k + 1..])
  {
    assert bufs == bufs[..k] + bufs[k..];
    FlattenAppend(bufs[..k], bufs[k..]);
    assert bufs[k..][1..] == bufs[k + 1..];
  }

  /** The uncut stream yields the units lost, and then what a single call from the synchronizing buffer on yields. */
  lemma UncutStream(bufs: seq<seq<byte>>, k: nat)
    requires SyncsAt(bufs, k)
    ensures var behind := OneShot(Flatten(bufs[k..]));
            OneShot(Flatten(bufs)) == Cut(Lost(bufs, k) + behind.nals, behind.rest)
  {
    FlattenAt(bufs, k);
    CompletedByPrefix(Flatten(bufs[..k]), bufs[k], Flatten(bufs[k + 1..]));
    BytesInFront(Flatten(bufs[..k]), Flatten(bufs[k..]));
  }

  lemma OneShotIsClean(s: seq<byte>)
    ensures !Tainted(OneShot(s))
  {
    var k := FindHit(s, 0);
    if k < |s| {
      NoCodeInNals(s[k + 3..]);
    }
  }

  lemma NothingInFront(front: seq<seq<byte>>, c: Cut)
    ensures Cut(front + c.nals, c.rest) == c <==> front == []
  {
    if front == [] {
      assert front + c.nals == c.nals;
    } else {
      assert |front + c.nals| > |c.nals|;
    }
  }

  /**
   * A whole session against the whole stream: they agree exactly when no buffer behind the synchronizing one begins
   * right behind a start code and the bytes dropped before it complete no unit. Otherwise, as long as no start code
   * is missed, exactly the units of `Lost` are missing.
   */
  lemma SessionIsWholeStream(bufs: seq<seq<byte>>, k: nat)
    requires SyncsAt(bufs, k)
    ensures Run([], bufs) == OneShot(Flatten(bufs)) <==> !CutAfterCode([], bufs[k..]) && Lost(bufs, k) == []
    ensures !CutAfterCode([], bufs[k..]) ==>
              OneShot(Flatten(bufs)) == Cut(Lost(bufs, k) + Run([], bufs).nals, Run([], bufs).rest)
  {
    hide Run, OneShot, Completed, CutAfterCode, Flatten, Tainted;
    UncutStream(bufs, k);
    SessionIsOneShot(bufs, k);
    if CutAfterCode([], bufs[k..]) {
      MissedCodeShowsInSession(bufs, k);
      OneShotIsClean(Flatten(bufs));
    } else {
      NothingInFront(Lost(bufs, k), Run([], bufs));
    }
  }

  /** A session that never synchronizes yields nothing; so does the uncut stream exactly when it holds no start code. */
  lemma NeverSynchronized(bufs: seq<seq<byte>>)
    requires forall j :: 0 <= j < |bufs| ==> FindHit(bufs[j], 0) == |bufs[j]|
    ensures Run([], bufs) == Cut([], [])
    ensures Run([], bufs) == OneShot(Flatten(bufs)) <==> FindHit(Flatten(bufs), 0) == |Flatten(bufs)|
  {
    DroppedBeforeSync(bufs, |bufs|);
    var s := Flatten(bufs);
    var k := FindHit(s, 0);
    if k < |s| {
      ScanKeepsSomething(s[k + 3..], 0);
    }
  }

  // ---------------------------------------------------------------- the loss at real inputs

  /** The start code found first is followed by one NAL unit: synchronization drops what precedes it. */
  lemma OneShotBehindNal(front: seq<byte>, z: nat, nal: seq<byte>)
    requires front == [] || WellFormed(front)
    requires WellFormed(nal)
    ensures var s := front + (Zeros(z) + START_CODE + nal);
            FindHit(s, 0) == |front| + z && OneShot(s) == Cut([], nal)
  {
    FirstHitBehindNal(front, z, nal);
    WellFormedHasNoHit(nal);
  }

  lemma FrontByteHidesCode(a: seq<byte>, b: seq<byte>)
    requires WellFormed(a) && WellFormed(b)
    ensures var s := [1] + a + START_CODE + b;
            FindHit(s, 0) == |a| + 1 && OneShot(s) == Cut([], b)
  {
    forall i | 0 <= i ensures !CodeAt([1] + a, i) {
      assert CodeAt([1] + a, i) ==> CodeAt(a, i - 1);
    }
    assert [1] + a + START_CODE + b == ([1] + a) + (Zeros(0) + START_CODE + b);
    OneShotBehindNal([1] + a, 0, b);
  }

  lemma FrontDropped(front: seq<byte>, z: nat, tail: seq<byte>)
    requires front == [] || WellFormed(front)
    requires tail != []
    ensures OneShot(front + (Zeros(z) + START_CODE + tail)) == Scan(tail, 0)
  {
    FirstHitBehindNal(front, z, tail);
    hide Scan, FindHit, StripZeros, WellFormed;
  }

  lemma ScanOfTwo(a: seq<byte>, b: seq<byte>)
    requires WellFormed(a) && WellFormed(b)
    ensures Scan(a + (Zeros(0) + START_CODE + b), 0) == Cut([a], b)
  {
    ScanOverOneNal(a, 0, b);
    WellFormedHasNoHit(b);
    assert Scan(b, 0) == Cut([], b);
    hide Scan, FindHit, StripZeros, WellFormed;
    assert [a] + [] == [a];
  }

  lemma TwoNals(front: seq<byte>, z: nat, a: seq<byte>, b: seq<byte>)
    requires front == [] || WellFormed(front)
    requires WellFormed(a) && WellFormed(b)
    ensures OneShot(front + (Zeros(z) + START_CODE + (a + (Zeros(0) + START_CODE + b)))) == Cut([a], b)
  {
    hide Scan, OneShot;
    FrontDropped(front, z, a + (Zeros(0) + START_CODE + b));
    ScanOfTwo(a, b);
  }

  lemma TwoNalsBytes(x: byte, a: seq<byte>, b: seq<byte>)
    ensures var s := [x, 0, 0] + ([1] + a + START_CODE + b);
            && (x != 0 ==> s == [x] + (Zeros(0) + START_CODE + (a + (Zeros(0) + START_CODE + b))))
            && (x == 0 ==> s == [] + (Zeros(1) + START_CODE + (a + (Zeros(0) + START_CODE + b))))
  {
  }

  /** A start code cut in two before synchronization is lost, and the NAL unit behind it with it. */
  lemma LostFirstNal(x: byte, a: seq<byte>, b: seq<byte>)
    requires WellFormed(a) && WellFormed(b)
    ensures Run([], [[x, 0, 0], [1] + a + START_CODE + b]) == Cut([], b)
    ensures OneShot([x, 0, 0] + ([1] + a + START_CODE + b)) == Cut([a], b)
  {
    FrontByteHidesCode(a, b);
    RunOfTwo([x, 0, 0], [1] + a + START_CODE + b);
    TwoNalsBytes(x, a, b);
    if x == 0 {
      TwoNals([], 1, a, b);
    } else {
      forall i | 0 <= i ensures !CodeAt([x], i) {
      }
      TwoNals([x], 0, a, b);
    }
  }

  lemma RunOfTwo(a: seq<byte>, d: seq<byte>)
    requires |a| <= 3
    ensures Run([], [a, d]) == OneShot(d)
  {
    assert Feed([], a) == Cut([], []);
    assert [a, d][1..] == [d] && [d][1..] == [];
    assert Feed([], d) == OneShot(d);
    assert Run(OneShot(d).rest, []) == Cut([], OneShot(d).rest);
    assert Run([], [d]) == OneShot(d);
  }
}
