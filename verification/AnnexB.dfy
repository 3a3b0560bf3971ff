/**
 * Byte-stream splitting of H.264 (Annex B of ITU-T H.264) as the camera side does it:
 * what one call cuts off, what it keeps, and what a whole session of calls yields.
 */
module AnnexB {
  import opened Sequences

  const START_CODE: seq<byte> := [0, 0, 1]

  /** A start code stands at position i. */
  predicate CodeAt(s: seq<byte>, i: int) {
    0 <= i && i + 3 <= |s| && s[i] == 0 && s[i + 1] == 0 && s[i + 2] == 1
  }

  ghost predicate ContainsCode(s: seq<byte>) {
    exists i :: 0 <= i && CodeAt(s, i)
  }

  predicate EndsInCode(s: seq<byte>) {
    CodeAt(s, |s| - 3)
  }

  /** What the scan loop looks for: a start code with at least one byte after it. */
  predicate HitAt(s: seq<byte>, i: int) {
    CodeAt(s, i) && i + 3 < |s|
  }

  /** The first hit at or after `begin`; |s| when there is none. */
  function FindHit(s: seq<byte>, begin: nat): (k: nat)
    ensures k == |s| || begin <= k < |s| - 3
    decreases |s| - begin
  {
    if begin + 3 >= |s| then |s|
    else if HitAt(s, begin) then begin
    else FindHit(s, begin + 1)
  }

  function StripZeros(s: seq<byte>): (r: seq<byte>)
    ensures |r| <= |s|
  {
    if s != [] && s[|s| - 1] == 0 then StripZeros(s[..|s| - 1]) else s
  }

  /** What is stripped are zeros, and all of them at the end. */
  lemma {:induction false} StripZerosIs(s: seq<byte>)
    ensures var r := StripZeros(s);
            && r == s[..|r|]
            && (r != [] ==> r[|r| - 1] != 0)
            && forall j :: |r| <= j < |s| ==> s[j] == 0
    decreases |s|
  {
    if s != [] && s[|s| - 1] == 0 {
      StripZerosIs(s[..|s| - 1]);
    }
  }

  /** The NAL units cut off, and the bytes kept for the next call. */
  datatype Cut = Cut(nals: seq<seq<byte>>, rest: seq<byte>)

  function UnlessEmpty(nal: seq<byte>): seq<seq<byte>> {
    if nal == [] then [] else [nal]
  }

  /** The scan loop over a synchronized buffer, looking for its first start code from `begin` on. */
  function Scan(s: seq<byte>, begin: nat): Cut
    decreases |s|
  {
    var k := FindHit(s, begin);
    if k == |s| then Cut([], s)
    else
      var tail := Scan(s[k + 3..], 0);
      Cut(UnlessEmpty(StripZeros(s[..k])) + tail.nals, tail.rest)
  }

  /** Where a call resumes the search in a pending buffer of n bytes. */
  function ResumeAt(n: nat): nat {
    if n < 2 then 0 else n - 2
  }

  /** One call: `pending` is empty until a start code was seen. */
  function Feed(pending: seq<byte>, data: seq<byte>): Cut {
    if pending != [] then Scan(pending + data, ResumeAt(|pending|))
    else OneShot(data)
  }

  /** The whole stream handed over in a single first call. */
  function OneShot(stream: seq<byte>): Cut {
    var k := FindHit(stream, 0);
    if k == |stream| then Cut([], []) else Scan(stream[k + 3..], 0)
  }

  /** A session of calls. */
  function Run(pending: seq<byte>, bufs: seq<seq<byte>>): Cut
    decreases |bufs|
  {
    if bufs == [] then Cut([], pending)
    else
      var now := Feed(pending, bufs[0]);
      var later := Run(now.rest, bufs[1..]);
      Cut(now.nals + later.nals, later.rest)
  }

  // ---------------------------------------------------------------- the search

  lemma {:induction false} FindHitIsFirst(s: seq<byte>, begin: nat)
    ensures var k := FindHit(s, begin);
            && (k < |s| ==> HitAt(s, k))
            && forall j :: begin <= j < k ==> !HitAt(s, j)
    decreases |s| - begin
  {
    if begin + 3 < |s| && !HitAt(s, begin) {
      FindHitIsFirst(s, begin + 1);
    }
  }

  /** FindHit is determined by what it promises. */
  lemma FindHitUnique(s: seq<byte>, begin: nat, k: nat)
    requires k == |s| || (begin <= k && HitAt(s, k))
    requires forall j :: begin <= j < k ==> !HitAt(s, j)
    ensures FindHit(s, begin) == k
  {
    var f := FindHit(s, begin);
    FindHitIsFirst(s, begin);
    assert k < f ==> !HitAt(s, k);
    assert f < k ==> !HitAt(s, f);
  }

  lemma HitInPrefix(s: seq<byte>, t: seq<byte>, i: int)
    requires i + 3 < |s|
    ensures HitAt(s + t, i) == HitAt(s, i)
  {
  }

  lemma FindHitPrefix(s: seq<byte>, t: seq<byte>, begin: nat)
    requires FindHit(s, begin) < |s|
    ensures FindHit(s + t, begin) == FindHit(s, begin)
  {
    var k := FindHit(s, begin);
    FindHitIsFirst(s, begin);
    forall j | begin <= j <= k ensures HitAt(s + t, j) == HitAt(s, j) {
      HitInPrefix(s, t, j);
    }
    FindHitUnique(s + t, begin, k);
  }

  lemma {:induction false} ScanRestHasNoHit(s: seq<byte>)
    ensures FindHit(Scan(s, 0).rest, 0) == |Scan(s, 0).rest|
    ensures s != [] ==> Scan(s, 0).rest != []
    decreases |s|
  {
    var k := FindHit(s, 0);
    if k < |s| {
      ScanRestHasNoHit(s[k + 3..]);
    }
  }

  /** The scan never throws the last byte away, wherever it starts. */
  lemma ScanKeepsSomething(s: seq<byte>, begin: nat)
    requires s != []
    ensures Scan(s, begin).rest != []
  {
    var k := FindHit(s, begin);
    if k < |s| {
      ScanRestHasNoHit(s[k + 3..]);
    }
  }

  // ---------------------------------------------------------------- the scan, one position at a time

  lemma ScanSkips(s: seq<byte>, begin: nat)
    requires begin + 3 < |s| && !HitAt(s, begin)
    ensures Scan(s, begin) == Scan(s, begin + 1)
  {
    FindHitIsFirst(s, begin + 1);
    FindHitUnique(s, begin, FindHit(s, begin + 1));
  }

  lemma ScanCuts(s: seq<byte>, begin: nat)
    requires HitAt(s, begin)
    ensures var tail := Scan(s[begin + 3..], 0);
            Scan(s, begin) == Cut(UnlessEmpty(StripZeros(s[..begin])) + tail.nals, tail.rest)
  {
  }

  lemma ScanEnds(s: seq<byte>, begin: nat)
    requires begin + 3 >= |s|
    ensures Scan(s, begin) == Cut([], s)
  {
  }

  /** Where the loop stands: `out` was cut off, the current NAL unit begins at `nal`, the search is at `i`. */
  ghost predicate LoopState(whole: Cut, out: seq<seq<byte>>, s: seq<byte>, nal: nat, i: nat) {
    && nal <= i && nal <= |s|
    && var tail := Scan(s[nal..], i - nal);
       whole == Cut(out + tail.nals, tail.rest)
  }

  lemma LoopStarts(s: seq<byte>, begin: nat)
    ensures LoopState(Scan(s, begin), [], s, 0, begin)
  {
    assert s[0..] == s;
  }

  lemma LoopSkips(whole: Cut, out: seq<seq<byte>>, s: seq<byte>, nal: nat, i: nat)
    requires LoopState(whole, out, s, nal, i) && i + 3 < |s| && !CodeAt(s, i)
    ensures LoopState(whole, out, s, nal, i + 1)
  {
    ScanSkips(s[nal..], i - nal);
  }

  lemma LoopCuts(whole: Cut, out: seq<seq<byte>>, s: seq<byte>, nal: nat, i: nat)
    requires LoopState(whole, out, s, nal, i) && i + 3 < |s| && CodeAt(s, i)
    ensures var unit := StripZeros(s[nal..i]);
            && LoopState(whole, out + UnlessEmpty(unit), s, i + 3, i + 3)
            && (unit != [] ==> |out| < |whole.nals| && whole.nals[|out|] == unit)
  {
    hide Scan, FindHit, StripZeros;
    var t := s[nal..];
    assert HitAt(t, i - nal);
    ScanCuts(t, i - nal);
    assert t[..i - nal] == s[nal..i] && t[i - nal + 3..] == s[i + 3..];
    assert s[i + 3..][0..] == s[i + 3..];
    ConcatAssociative(out, UnlessEmpty(StripZeros(s[nal..i])), Scan(s[i + 3..], 0).nals);
  }

  lemma LoopEnds(whole: Cut, out: seq<seq<byte>>, s: seq<byte>, nal: nat, i: nat)
    requires LoopState(whole, out, s, nal, i) && i + 3 >= |s|
    ensures whole == Cut(out, s[nal..])
  {
    ScanEnds(s[nal..], i - nal);
    assert out + [] == out;
  }

  // ---------------------------------------------------------------- chunk independence

  /** Cutting s first and the remainder with t later is the same as cutting s + t at once. */
  lemma {:induction false} ScanSplit(s: seq<byte>, t: seq<byte>)
    ensures var a := Scan(s, 0);
            var b := Scan(a.rest + t, 0);
            Scan(s + t, 0) == Cut(a.nals + b.nals, b.rest)
    decreases |s|
  {
    var k := FindHit(s, 0);
    if k < |s| {
      var u := ScanHeads(s, t, k);
      ScanSplit(s[k + 3..], t);
      var a := Scan(s[k + 3..], 0);
      ConcatAssociative(u, a.nals, Scan(a.rest + t, 0).nals);
    }
  }

  /** Bytes appended behind the first start code change nothing before it. */
  lemma ScanHeads(s: seq<byte>, t: seq<byte>, k: nat) returns (u: seq<seq<byte>>)
    requires k == FindHit(s, 0) < |s|
    ensures var a := Scan(s[k + 3..], 0); Scan(s, 0) == Cut(u + a.nals, a.rest)
    ensures var b := Scan(s[k + 3..] + t, 0); Scan(s + t, 0) == Cut(u + b.nals, b.rest)
  {
    u := UnlessEmpty(StripZeros(s[..k]));
    FindHitPrefix(s, t, 0);
    SplitOfConcat(s, t, k);
    SplitOfConcat(s, t, k + 3);
  }

  /** Resuming two bytes before the end of a hit-free buffer misses exactly a code that ends it. */
  lemma ResumeFindsTheSame(p: seq<byte>, t: seq<byte>)
    requires p != [] && FindHit(p, 0) == |p|
    requires t == [] || !EndsInCode(p)
    ensures FindHit(p + t, ResumeAt(|p|)) == FindHit(p + t, 0)
  {
    var k := FindHit(p + t, ResumeAt(|p|));
    FindHitIsFirst(p, 0);
    FindHitIsFirst(p + t, ResumeAt(|p|));
    forall j | 0 <= j < ResumeAt(|p|) ensures !HitAt(p + t, j) {
      if j + 3 < |p| {
        HitInPrefix(p, t, j);
      } else {
        assert j == |p| - 3;
      }
    }
    FindHitUnique(p + t, 0, k);
  }

  /** A code that ends the pending buffer is never seen again: it stays inside what is cut or kept. */
  lemma MissedCodeStays(p: seq<byte>, t: seq<byte>)
    requires EndsInCode(p) && t != []
    ensures Tainted(Scan(p + t, ResumeAt(|p|)))
  {
    assert HitAt(p + t, |p| - 3);
    HitStays(p + t, ResumeAt(|p|), |p| - 3);
  }

  /** The result still holds a start code inside a NAL unit, or one that the next call skips. */
  ghost predicate Tainted(c: Cut) {
    (exists n :: n in c.nals && ContainsCode(n)) || FindHit(c.rest, 0) < |c.rest|
  }

  lemma CodeNotStripped(t: seq<byte>, q: nat)
    requires CodeAt(t, q)
    ensures CodeAt(StripZeros(t), q) && StripZeros(t) != []
  {
    StripZerosIs(t);
  }

  lemma NoCodeBeforeHit(s: seq<byte>, k: nat)
    requires k == FindHit(s, 0) < |s|
    ensures !ContainsCode(StripZeros(s[..k]))
  {
    FindHitIsFirst(s, 0);
    StripZerosIs(s[..k]);
    forall i | 0 <= i ensures !CodeAt(StripZeros(s[..k]), i) {
      assert !HitAt(s, i) || i >= k;
    }
  }

  lemma HitStays(s: seq<byte>, begin: nat, q: nat)
    requires q < begin && HitAt(s, q)
    ensures Tainted(Scan(s, begin))
  {
    var k := FindHit(s, begin);
    FindHitIsFirst(s, begin);
    if k < |s| {
      assert s[k] == 0 && s[k + 1] == 0 && k >= q + 3;
      CodeNotStripped(s[..k], q);
      assert StripZeros(s[..k]) in Scan(s, begin).nals;
    } else {
      FindHitIsFirst(s, 0);
    }
  }

  lemma {:induction false} NoCodeInNals(s: seq<byte>)
    ensures !Tainted(Scan(s, 0))
    decreases |s|
  {
    var k := FindHit(s, 0);
    ScanRestHasNoHit(s);
    if k < |s| {
      NoCodeInNals(s[k + 3..]);
      NoCodeBeforeHit(s, k);
    }
  }

  /** Some buffer begins right behind a start code (with nothing of that buffer's stream after it yet). */
  ghost predicate CutAfterCode(p: seq<byte>, bufs: seq<seq<byte>>) {
    exists j :: 0 <= j < |bufs| && CutHere(p, bufs, j)
  }

  ghost predicate CutHere(p: seq<byte>, bufs: seq<seq<byte>>, j: int)
    requires 0 <= j < |bufs|
  {
    bufs[j] != [] && EndsInCode(p + Flatten(bufs[..j]))
  }

  /** Dropping everything up to a start code that has bytes after it does not change how a string ends. */
  lemma EndAfterHit(s: seq<byte>, k: nat, x: seq<byte>)
    requires HitAt(s, k)
    ensures EndsInCode(s[k + 3..] + x) == EndsInCode(s + x)
  {
    var r := s[k + 3..] + x;
    assert |r| >= 1;
    forall i | 0 <= i < |r| ensures r[i] == (s + x)[k + 3 + i] {
    }
    if |r| < 3 {
      var e := |s + x| - 3;
      assert e == k + 1 || e == k + 2;
    }
  }

  lemma {:induction false} EndAfterScan(s: seq<byte>, begin: nat, x: seq<byte>)
    ensures EndsInCode(Scan(s, begin).rest + x) == EndsInCode(s + x)
    decreases |s|
  {
    var k := FindHit(s, begin);
    if k < |s| {
      FindHitIsFirst(s, begin);
      EndAfterHit(s, k, x);
      EndAfterScan(s[k + 3..], 0, x);
    }
  }

  /** CutAfterCode, one buffer at a time. */
  lemma CutAfterCodeStep(p: seq<byte>, bufs: seq<seq<byte>>)
    requires p != [] && bufs != []
    ensures CutAfterCode(p, bufs) <==>
            (bufs[0] != [] && EndsInCode(p)) || CutAfterCode(Feed(p, bufs[0]).rest, bufs[1..])
  {
    var q := Feed(p, bufs[0]).rest;
    forall j | 0 <= j < |bufs| - 1
      ensures CutHere(p, bufs, j + 1) == CutHere(q, bufs[1..], j)
    {
      var x := Flatten(bufs[1..][..j]);
      assert bufs[..j + 1][0] == bufs[0] && bufs[..j + 1][1..] == bufs[1..][..j];
      assert p + Flatten(bufs[..j + 1]) == p + bufs[0] + x;
      EndAfterScan(p + bufs[0], ResumeAt(|p|), x);
    }
    assert p + Flatten(bufs[..0]) == p;
    if CutAfterCode(p, bufs) {
      var j :| 0 <= j < |bufs| && CutHere(p, bufs, j);
      if j == 0 {
        assert EndsInCode(p);
      } else {
        assert CutHere(q, bufs[1..], j - 1);
      }
    }
    if bufs[0] != [] && EndsInCode(p) {
      assert CutHere(p, bufs, 0);
    }
    if CutAfterCode(q, bufs[1..]) {
      var j :| 0 <= j < |bufs[1..]| && CutHere(q, bufs[1..], j);
      assert CutHere(p, bufs, j + 1);
    }
  }

  /** Once a code was missed it never comes out again. */
  lemma {:induction false} TaintStays(p: seq<byte>, bufs: seq<seq<byte>>)
    requires p != [] && FindHit(p, 0) < |p|
    ensures Tainted(Run(p, bufs))
    decreases |bufs|
  {
    if bufs != [] {
      var q := FindHit(p, 0);
      var now := Feed(p, bufs[0]);
      FindHitIsFirst(p, 0);
      TaintStaysOneCall(p, bufs[0], q);
      if exists n :: n in now.nals && ContainsCode(n) {
        var n :| n in now.nals && ContainsCode(n);
        assert n in Run(p, bufs).nals;
      } else {
        TaintStays(now.rest, bufs[1..]);
        var later := Run(now.rest, bufs[1..]);
        assert Tainted(later);
        if exists n :: n in later.nals && ContainsCode(n) {
          var n :| n in later.nals && ContainsCode(n);
          assert n in Run(p, bufs).nals;
        }
      }
    }
  }

  lemma TaintStaysOneCall(p: seq<byte>, t: seq<byte>, q: nat)
    requires p != [] && HitAt(p, q)
    ensures Tainted(Feed(p, t)) && Feed(p, t).rest != []
  {
    HitInPrefix(p, t, q);
    ScanKeepsSomething(p + t, ResumeAt(|p|));
    if q < ResumeAt(|p|) {
      HitStays(p + t, ResumeAt(|p|), q);
    }
  }

  /** A call that misses nothing is a scan of everything held so far, from its first byte. */
  lemma FeedRescansNothing(p: seq<byte>, t: seq<byte>)
    requires p != [] && FindHit(p, 0) == |p|
    requires t == [] || !EndsInCode(p)
    ensures Feed(p, t) == Scan(p + t, 0)
  {
    ResumeFindsTheSame(p, t);
  }

  lemma {:induction false} ChunkStep(now: Cut, p: seq<byte>, bufs: seq<seq<byte>>)
    requires p != [] && bufs != []
    requires now == Feed(p, bufs[0]) == Scan(p + bufs[0], 0)
    ensures now.rest != []
    ensures Run(p, bufs) == Scan(p + Flatten(bufs), 0) <==> !CutAfterCode(now.rest, bufs[1..])
    decreases |bufs|, 0
  {
    var s := p + bufs[0];
    ScanRestHasNoHit(s);
    ChunkIndependence(now.rest, bufs[1..]);
    ConcatAssociative(p, bufs[0], Flatten(bufs[1..]));
    ScanSplit(s, Flatten(bufs[1..]));
    SameTail(now.nals, Run(now.rest, bufs[1..]), Scan(now.rest + Flatten(bufs[1..]), 0));
  }

  /**
   * The heart of the splitter: however a synchronized stream is cut into buffers, the NAL units that come
   * out and the bytes that stay are those of the uncut stream, exactly when no buffer begins right behind
   * a start code.
   */
  lemma {:induction false} ChunkIndependence(p: seq<byte>, bufs: seq<seq<byte>>)
    requires p != [] && FindHit(p, 0) == |p|
    ensures Run(p, bufs) == Scan(p + Flatten(bufs), 0) <==> !CutAfterCode(p, bufs)
    decreases |bufs|, 1
  {
    if bufs == [] {
      assert p + Flatten(bufs) == p;
    } else {
      CutAfterCodeStep(p, bufs);
      if bufs[0] != [] && EndsInCode(p) {
        MissedCodeStays(p, bufs[0]);
        TaintedRun(p, bufs);
        NoCodeInNals(p + Flatten(bufs));
      } else {
        FeedRescansNothing(p, bufs[0]);
        ChunkStep(Feed(p, bufs[0]), p, bufs);
      }
    }
  }

  /** A code missed in any later call shows in the whole run. */
  lemma {:induction false} MissedCodeShows(p: seq<byte>, bufs: seq<seq<byte>>)
    requires p != [] && FindHit(p, 0) == |p| && CutAfterCode(p, bufs)
    ensures Tainted(Run(p, bufs))
    decreases |bufs|
  {
    CutAfterCodeStep(p, bufs);
    if bufs[0] != [] && EndsInCode(p) {
      MissedCodeStays(p, bufs[0]);
      TaintedRun(p, bufs);
    } else {
      var now := Feed(p, bufs[0]);
      FeedRescansNothing(p, bufs[0]);
      ScanRestHasNoHit(p + bufs[0]);
      MissedCodeShows(now.rest, bufs[1..]);
      TaintedBehind(now.nals, Run(now.rest, bufs[1..]));
    }
  }

  lemma TaintedBehind(front: seq<seq<byte>>, c: Cut)
    requires Tainted(c)
    ensures Tainted(Cut(front + c.nals, c.rest))
  {
    if n :| n in c.nals && ContainsCode(n) {
      assert n in front + c.nals;
    }
  }

  lemma SameTail(front: seq<seq<byte>>, a: Cut, b: Cut)
    ensures Cut(front + a.nals, a.rest) == Cut(front + b.nals, b.rest) <==> a == b
  {
    assert (front + a.nals)[|front|..] == a.nals;
    assert (front + b.nals)[|front|..] == b.nals;
  }

  lemma TaintedRun(p: seq<byte>, bufs: seq<seq<byte>>)
    requires p != [] && bufs != [] && Tainted(Feed(p, bufs[0]))
    ensures Tainted(Run(p, bufs))
  {
    var now := Feed(p, bufs[0]);
    var later := Run(now.rest, bufs[1..]);
    if exists n :: n in now.nals && ContainsCode(n) {
      var n :| n in now.nals && ContainsCode(n);
      assert n in Run(p, bufs).nals;
    } else {
      TaintStays(now.rest, bufs[1..]);
      if exists n :: n in later.nals && ContainsCode(n) {
        var n :| n in later.nals && ContainsCode(n);
        assert n in Run(p, bufs).nals;
      }
    }
  }

  /** Once synchronized, the pending buffer is never empty again. */
  lemma {:induction false} RunKeepsSomething(p: seq<byte>, bufs: seq<seq<byte>>)
    requires p != []
    ensures Run(p, bufs).rest != []
    decreases |bufs|
  {
    if bufs != [] {
      ScanKeepsSomething(p + bufs[0], ResumeAt(|p|));
      RunKeepsSomething(Feed(p, bufs[0]).rest, bufs[1..]);
    }
  }

  // ---------------------------------------------------------------- whole sessions

  /** Buffer k is the first one with a start code and a byte after it. */
  ghost predicate SyncsAt(bufs: seq<seq<byte>>, k: nat) {
    && k < |bufs|
    && (forall j :: 0 <= j < k ==> FindHit(bufs[j], 0) == |bufs[j]|)
    && FindHit(bufs[k], 0) < |bufs[k]|
  }

  /** Buffers before the first synchronizing one are dropped whole. */
  lemma {:induction false} DroppedBeforeSync(bufs: seq<seq<byte>>, k: nat)
    requires k <= |bufs|
    requires forall j :: 0 <= j < k ==> FindHit(bufs[j], 0) == |bufs[j]|
    ensures Run([], bufs) == Run([], bufs[k..])
    decreases k
  {
    if k == 0 {
      assert bufs[0..] == bufs;
    } else {
      assert Feed([], bufs[0]) == Cut([], []);
      DroppedBeforeSync(bufs[1..], k - 1);
      assert bufs[1..][k - 1..] == bufs[k..];
    }
  }

  lemma OneShotSplit(d: seq<byte>, t: seq<byte>)
    requires FindHit(d, 0) < |d|
    ensures var a := OneShot(d);
            var b := Scan(a.rest + t, 0);
            && a.rest != [] && FindHit(a.rest, 0) == |a.rest|
            && OneShot(d + t) == Cut(a.nals + b.nals, b.rest)
  {
    var k := FindHit(d, 0);
    FindHitPrefix(d, t, 0);
    SplitOfConcat(d, t, k + 3);
    ScanSplit(d[k + 3..], t);
    ScanRestHasNoHit(d[k + 3..]);
  }

  lemma FlattenFront(d: seq<byte>, bufs: seq<seq<byte>>, j: nat)
    requires j <= |bufs|
    ensures [] + Flatten(([d] + bufs)[..j + 1]) == d + Flatten(bufs[..j])
  {
    assert ([d] + bufs)[..j + 1] == [d] + bufs[..j];
    FlattenAppend([d], bufs[..j]);
    FlattenOne(d);
  }

  lemma EndAfterOneShot(d: seq<byte>, x: seq<byte>)
    requires FindHit(d, 0) < |d|
    ensures EndsInCode(OneShot(d).rest + x) == EndsInCode(d + x)
  {
    var k := FindHit(d, 0);
    FindHitIsFirst(d, 0);
    EndAfterHit(d, k, x);
    EndAfterScan(d[k + 3..], 0, x);
  }

  lemma CutAfterSync(d: seq<byte>, bufs: seq<seq<byte>>)
    requires FindHit(d, 0) < |d|
    ensures CutAfterCode([], [d] + bufs) <==> CutAfterCode(OneShot(d).rest, bufs)
  {
    var q := OneShot(d).rest;
    var all := [d] + bufs;
    forall j | 0 <= j < |bufs| ensures CutHere([], all, j + 1) == CutHere(q, bufs, j) {
      FlattenFront(d, bufs, j);
      EndAfterOneShot(d, Flatten(bufs[..j]));
    }
    assert !CutHere([], all, 0);
    if CutAfterCode([], all) {
      var j :| 0 <= j < |all| && CutHere([], all, j);
      assert CutHere(q, bufs, j - 1);
    }
    if CutAfterCode(q, bufs) {
      var j :| 0 <= j < |bufs| && CutHere(q, bufs, j);
      assert CutHere([], all, j + 1);
    }
  }

  /**
   * A whole session: from the first buffer that holds a start code and a byte after it, the calls yield
   * what one call with all the bytes yields, exactly when no later buffer begins right behind a start code.
   */
  lemma SessionIsOneShot(bufs: seq<seq<byte>>, k: nat)
    requires SyncsAt(bufs, k)
    ensures Run([], bufs) == OneShot(Flatten(bufs[k..])) <==> !CutAfterCode([], bufs[k..])
    ensures Run([], bufs).rest != []
  {
    DroppedBeforeSync(bufs, k);
    var d, later := bufs[k], bufs[k + 1..];
    assert bufs[k..] == [d] + later;
    var now := OneShot(d);
    OneShotSplit(d, Flatten(later));
    CutAfterSync(d, later);
    ChunkIndependence(now.rest, later);
    RunKeepsSomething(now.rest, later);
    SameTail(now.nals, Run(now.rest, later), Scan(now.rest + Flatten(later), 0));
    assert Flatten(bufs[k..]) == d + Flatten(later) by {
      FlattenAppend([d], later);
      FlattenOne(d);
    }
    assert Feed([], d) == now;
    assert ([d] + later)[1..] == later;
  }

  /** A start code missed behind the synchronizing buffer shows in the whole session. */
  lemma MissedCodeShowsInSession(bufs: seq<seq<byte>>, k: nat)
    requires SyncsAt(bufs, k) && CutAfterCode([], bufs[k..])
    ensures Tainted(Run([], bufs))
  {
    DroppedBeforeSync(bufs, k);
    var d, later := bufs[k], bufs[k + 1..];
    assert bufs[k..] == [d] + later;
    OneShotSplit(d, []);
    CutAfterSync(d, later);
    MissedCodeShows(OneShot(d).rest, later);
    TaintedBehind(OneShot(d).nals, Run(OneShot(d).rest, later));
    assert ([d] + later)[1..] == later;
  }

  // ---------------------------------------------------------------- the serializer

  function Zeros(n: nat): seq<byte> {
    seq(n, _ => 0)
  }

  /** Each NAL unit behind its start code, with any number of extra zeros before each code. */
  function Serialize(zeros: seq<nat>, nals: seq<seq<byte>>): seq<byte>
    requires |zeros| == |nals|
  {
    if nals == [] then []
    else Zeros(zeros[0]) + START_CODE + nals[0] + Serialize(zeros[1..], nals[1..])
  }

  /** What a NAL unit may look like on a byte stream. */
  ghost predicate WellFormed(nal: seq<byte>) {
    nal != [] && nal[|nal| - 1] != 0 && !ContainsCode(nal)
  }

  lemma {:induction false} ZerosAreStripped(nal: seq<byte>, z: nat)
    requires nal == [] || nal[|nal| - 1] != 0
    ensures StripZeros(nal + Zeros(z)) == nal
  {
    if z == 0 {
      assert nal + Zeros(0) == nal;
    } else {
      assert (nal + Zeros(z))[..|nal| + z - 1] == nal + Zeros(z - 1);
      ZerosAreStripped(nal, z - 1);
    }
  }

  lemma FirstHitBehindNal(nal: seq<byte>, z: nat, tail: seq<byte>)
    requires nal == [] || WellFormed(nal)
    requires tail != []
    ensures var s := nal + (Zeros(z) + START_CODE + tail);
            && FindHit(s, 0) == |nal| + z
            && s[|nal| + z + 3..] == tail
            && StripZeros(s[..|nal| + z]) == nal
  {
    var s := nal + (Zeros(z) + START_CODE + tail);
    var k := |nal| + z;
    assert CodeAt(s, k);
    forall j | 0 <= j < k ensures !HitAt(s, j) {
      if j + 3 <= |nal| {
        assert CodeAt(s, j) ==> CodeAt(nal, j);
      } else if j < |nal| {
        assert s[|nal| - 1] != 0;
      } else {
        assert s[j + 2] == 0;
      }
    }
    FindHitUnique(s, 0, k);
    assert s[..k] == nal + Zeros(z);
    ZerosAreStripped(nal, z);
  }

  lemma WellFormedHasNoHit(nal: seq<byte>)
    requires WellFormed(nal)
    ensures FindHit(nal, 0) == |nal|
  {
    FindHitIsFirst(nal, 0);
    var k := FindHit(nal, 0);
    assert k < |nal| ==> CodeAt(nal, k);
  }

  lemma ScanFromHit(s: seq<byte>, k: nat, nal: seq<byte>, tail: seq<byte>)
    requires FindHit(s, 0) == k < |s| && StripZeros(s[..k]) == nal && s[k + 3..] == tail
    ensures Scan(s, 0) == Cut(UnlessEmpty(nal) + Scan(tail, 0).nals, Scan(tail, 0).rest)
  {
  }

  lemma ScanOverOneNal(nal: seq<byte>, z: nat, tail: seq<byte>)
    requires WellFormed(nal) && tail != []
    ensures var r := Scan(tail, 0);
            Scan(nal + (Zeros(z) + START_CODE + tail), 0) == Cut([nal] + r.nals, r.rest)
  {
    FirstHitBehindNal(nal, z, tail);
    ScanFromHit(nal + (Zeros(z) + START_CODE + tail), |nal| + z, nal, tail);
  }

  /** A nonempty list without its last element, and that element. */
  function LastPending(nals: seq<seq<byte>>): Cut
    requires nals != []
  {
    Cut(nals[..|nals| - 1], nals[|nals| - 1])
  }

  lemma SerializeCons(nal: seq<byte>, zeros: seq<nat>, nals: seq<seq<byte>>)
    requires |zeros| == |nals| != 0
    ensures nal + Serialize(zeros, nals)
         == nal + (Zeros(zeros[0]) + START_CODE + (nals[0] + Serialize(zeros[1..], nals[1..])))
  {
    ConcatAssociative(Zeros(zeros[0]) + START_CODE, nals[0], Serialize(zeros[1..], nals[1..]));
  }

  lemma LastPendingCons(nal: seq<byte>, nals: seq<seq<byte>>)
    requires nals != []
    ensures LastPending([nal] + nals) == Cut([nal] + LastPending(nals).nals, LastPending(nals).rest)
  {
    assert ([nal] + nals)[..|nals|] == [nal] + nals[..|nals| - 1];
  }

  lemma {:induction false} ScanUndoesSerialize(nal: seq<byte>, zeros: seq<nat>, nals: seq<seq<byte>>)
    requires |zeros| == |nals|
    requires WellFormed(nal) && forall n :: n in nals ==> WellFormed(n)
    ensures Scan(nal + Serialize(zeros, nals), 0) == LastPending([nal] + nals)
    decreases |nals|
  {
    if nals == [] {
      assert nal + Serialize(zeros, nals) == nal;
      WellFormedHasNoHit(nal);
    } else {
      var next, later := nals[0], nals[1..];
      assert next in nals;
      SerializeCons(nal, zeros, nals);
      ScanOverOneNal(nal, zeros[0], next + Serialize(zeros[1..], later));
      ScanUndoesSerialize(next, zeros[1..], later);
      assert [next] + later == nals;
      LastPendingCons(nal, nals);
    }
  }

  /** The one call drops the first start code and scans what follows it. */
  lemma SerializeHead(zeros: seq<nat>, nals: seq<seq<byte>>)
    requires |zeros| == |nals| != 0 && nals[0] != []
    ensures OneShot(Serialize(zeros, nals)) == Scan(nals[0] + Serialize(zeros[1..], nals[1..]), 0)
  {
    FirstHitBehindNal([], zeros[0], nals[0] + Serialize(zeros[1..], nals[1..]));
    SerializeCons([], zeros, nals);
    assert [] + Serialize(zeros, nals) == Serialize(zeros, nals);
  }

  /**
   * Splitting undoes serializing: any list of well-formed NAL units, with three- or four-byte start codes or
   * any number of extra zeros, comes back as it was, the last one still pending.
   */
  lemma OneShotUndoesSerialize(zeros: seq<nat>, nals: seq<seq<byte>>)
    requires |zeros| == |nals| && nals != []
    requires forall n :: n in nals ==> WellFormed(n)
    ensures OneShot(Serialize(zeros, nals)) == LastPending(nals)
  {
    assert nals[0] in nals && [nals[0]] + nals[1..] == nals;
    SerializeHead(zeros, nals);
    ScanUndoesSerialize(nals[0], zeros[1..], nals[1..]);
  }

  /** Whatever the stream, what is cut off is in the form the serializer accepts. */
  lemma {:induction false} ScanYieldsWellFormed(s: seq<byte>)
    ensures forall n :: n in Scan(s, 0).nals ==> WellFormed(n)
    decreases |s|
  {
    NoCodeInNals(s);
    var k := FindHit(s, 0);
    if k < |s| {
      StripZerosIs(s[..k]);
      ScanYieldsWellFormed(s[k + 3..]);
    }
  }
}
