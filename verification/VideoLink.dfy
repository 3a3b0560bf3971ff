/** Camera to decoder over a lossless in-order link. */
module VideoLink {
  import opened Sequences
  import opened AnnexB
  import opened CanonicalStreams
  import opened PacketTrain
  import opened RtpPackets
  import opened RtpReceiver
  import opened RtpSender
  import opened Synchronization

  /** One call of the sender: the clock it read and the camera's bytes. */
  datatype Call = Call(ts: bv32, data: seq<byte>)

  function Buffers(calls: seq<Call>): (bufs: seq<seq<byte>>)
    ensures |bufs| == |calls| && forall i :: 0 <= i < |calls| ==> bufs[i] == calls[i].data
  {
    seq(|calls|, i requires 0 <= i < |calls| => calls[i].data)
  }

  /** All packets of a session of calls. */
  ghost function SessionPackets(c: Params, seqno: nat, pending: seq<byte>, calls: seq<Call>): seq<seq<byte>>
    requires seqno < 65536
    decreases |calls|
  {
    if calls == [] then []
    else
      var cut := Feed(pending, calls[0].data);
      var ps := Train(Packetizer(c, calls[0].ts), seqno, cut.nals);
      ps + SessionPackets(c, NextSeq(seqno, |ps|), cut.rest, calls[1..])
  }

  ghost predicate NoneEmpty(nals: seq<seq<byte>>) {
    forall i :: 0 <= i < |nals| ==> nals[i] != []
  }

  ghost predicate AllSurvive(nals: seq<seq<byte>>) {
    forall i :: 0 <= i < |nals| ==> nals[i] != [] && Survives(nals[i])
  }

  /** The receiver can take the packets, and hands the decoder exactly `expected`. */
  ghost predicate ArriveAs(packets: seq<seq<byte>>, expected: seq<byte>) {
    AllReceivable(packets) && DecodedAll(packets) == expected
  }

  /** The receiver can take the packets only if it hands the decoder no more than `expected`. */
  ghost predicate AtMost(packets: seq<seq<byte>>, expected: seq<byte>) {
    AllReceivable(packets) ==> |DecodedAll(packets)| <= |expected|
  }

  /** Two parts arrive as the two expected parts exactly when each does: no part can make up for the other. */
  lemma ArriveInParts(a: seq<seq<byte>>, x: seq<byte>, b: seq<seq<byte>>, y: seq<byte>)
    requires AtMost(a, x) && AtMost(b, y)
    ensures ArriveAs(a + b, x + y) <==> ArriveAs(a, x) && ArriveAs(b, y)
    ensures AtMost(a + b, x + y)
  {
    var all := a + b;
    if AllReceivable(all) {
      forall i | 0 <= i < |a| ensures Receivable(a[i]) { assert all[i] == a[i]; }
      forall i | 0 <= i < |b| ensures Receivable(b[i]) { assert all[|a| + i] == b[i]; }
    }
    if AllReceivable(a) && AllReceivable(b) {
      DecodedAppend(a, b);
      var u, v := DecodedAll(a), DecodedAll(b);
      if u + v == x + y {
        assert |u| == |x|;
        assert (u + v)[..|u|] == u && (x + y)[..|x|] == x;
        assert (u + v)[|u|..] == v && (x + y)[|x|..] == y;
      }
    }
  }

  lemma OneUnit(c: Params, seqno: nat, ts: bv32, nal: seq<byte>)
    requires seqno < 65536 && nal != []
    ensures var ps := Packetizer(c, ts)(seqno, nal);
            && (ArriveAs(ps, Canonical(nal)) <==> Survives(nal))
            && AtMost(ps, Canonical(nal))
  {
    RoundTrip(c, seqno, ts, nal);
  }

  lemma NothingArrives()
    ensures ArriveAs([], []) && AtMost([], [])
  {
  }

  lemma {:induction false} TrainArrives(c: Params, seqno: nat, ts: bv32, nals: seq<seq<byte>>)
    requires seqno < 65536 && NoneEmpty(nals)
    ensures var ps := Train(Packetizer(c, ts), seqno, nals);
            && (ArriveAs(ps, CanonicalAll(nals)) <==> AllSurvive(nals))
            && AtMost(ps, CanonicalAll(nals))
    decreases |nals|
  {
    hide ArriveAs, AtMost, Survives, PacketsOf, Canonical;
    if nals == [] {
      NothingArrives();
    } else {
      var f := Packetizer(c, ts);
      var first := f(seqno, nals[0]);
      OneUnit(c, seqno, ts, nals[0]);
      TrainArrives(c, NextSeq(seqno, |first|), ts, nals[1..]);
      ArriveInParts(first, Canonical(nals[0]), Train(f, NextSeq(seqno, |first|), nals[1..]), CanonicalAll(nals[1..]));
      assert nals == [nals[0]] + nals[1..];
    }
  }

  lemma {:induction false} ScanNoneEmpty(s: seq<byte>, begin: nat)
    ensures NoneEmpty(Scan(s, begin).nals)
    decreases |s|
  {
    var k := FindHit(s, begin);
    if k < |s| {
      ScanNoneEmpty(s[k + 3..], 0);
    }
  }

  lemma FeedNoneEmpty(pending: seq<byte>, data: seq<byte>)
    ensures NoneEmpty(Feed(pending, data).nals)
  {
    if pending != [] {
      ScanNoneEmpty(pending + data, ResumeAt(|pending|));
    } else {
      var k := FindHit(data, 0);
      if k < |data| {
        ScanNoneEmpty(data[k + 3..], 0);
      }
    }
  }

  /** Over a whole session the decoder gets the canonical form of the NAL units exactly when all of them survive. */
  lemma {:induction false} SessionArrives(c: Params, seqno: nat, pending: seq<byte>, calls: seq<Call>)
    requires seqno < 65536
    ensures var nals := Run(pending, Buffers(calls)).nals;
            && NoneEmpty(nals)
            && (ArriveAs(SessionPackets(c, seqno, pending, calls), CanonicalAll(nals)) <==> AllSurvive(nals))
            && AtMost(SessionPackets(c, seqno, pending, calls), CanonicalAll(nals))
    decreases |calls|
  {
    hide ArriveAs, AtMost, AllSurvive, Feed;
    if calls == [] {
      NothingArrives();
      NothingSurvives();
    } else {
      var cut := Feed(pending, calls[0].data);
      FeedNoneEmpty(pending, calls[0].data);
      var f := Packetizer(c, calls[0].ts);
      var first := Train(f, seqno, cut.nals);
      var next := NextSeq(seqno, |first|);
      TrainArrives(c, seqno, calls[0].ts, cut.nals);
      SessionArrives(c, next, cut.rest, calls[1..]);
      var later := Run(cut.rest, Buffers(calls[1..])).nals;
      assert Buffers(calls)[1..] == Buffers(calls[1..]);
      ArriveInParts(first, CanonicalAll(cut.nals), SessionPackets(c, next, cut.rest, calls[1..]), CanonicalAll(later));
      CanonicalAppend(cut.nals, later);
      SurviveInParts(cut.nals, later);
    }
  }

  lemma NothingSurvives()
    ensures AllSurvive([])
  {
  }

  lemma SurviveInParts(a: seq<seq<byte>>, b: seq<seq<byte>>)
    requires NoneEmpty(a) && NoneEmpty(b)
    ensures NoneEmpty(a + b) && (AllSurvive(a + b) <==> AllSurvive(a) && AllSurvive(b))
  {
    var all := a + b;
    if AllSurvive(all) {
      forall i | 0 <= i < |a| ensures a[i] != [] && Survives(a[i]) { assert all[i] == a[i]; }
      forall i | 0 <= i < |b| ensures b[i] != [] && Survives(b[i]) { assert all[|a| + i] == b[i]; }
    }
  }

  /**
   * End to end, once synchronized by call k: where every unit cut off survives its packets, the decoder gets every
   * completed NAL unit of the camera's stream, in order, behind a four-byte start code, exactly when each start code
   * that was missed reads like one. Where none was missed, that is exactly when every unit of the stream survives:
   * then how the stream was cut into buffers plays no part.
   */
  lemma EndToEnd(c: Params, calls: seq<Call>, k: nat)
    requires SyncsAt(Buffers(calls), k)
    ensures var bufs := Buffers(calls);
            var run, nals, ps := Run([], bufs), OneShot(Flatten(bufs[k..])).nals, SessionPackets(c, 1, [], calls);
            && (AllSurvive(run.nals) ==> (ArriveAs(ps, CanonicalAll(nals)) <==> ReadsAlike(run)))
            && (!CutAfterCode([], bufs[k..]) ==>
                  NoneEmpty(nals) && (ArriveAs(ps, CanonicalAll(nals)) <==> AllSurvive(nals)))
  {
    SessionReadsAlike(Buffers(calls), k);
    SessionArrives(c, 1, [], calls);
    if !CutAfterCode([], Buffers(calls)[k..]) {
      SessionIsOneShot(Buffers(calls), k);
    }
  }

  /**
   * From the first byte of the camera on: the decoder gets every completed NAL unit of the whole stream exactly when,
   * besides, none is lost before synchronization.
   */
  lemma EndToEndWhole(c: Params, calls: seq<Call>, k: nat)
    requires SyncsAt(Buffers(calls), k)
    ensures var bufs := Buffers(calls);
            var run, nals, ps := Run([], bufs), OneShot(Flatten(bufs)).nals, SessionPackets(c, 1, [], calls);
            && (AllSurvive(run.nals) ==>
                  (ArriveAs(ps, CanonicalAll(nals)) <==> Lost(bufs, k) == [] && ReadsAlike(run)))
            && (!CutAfterCode([], bufs[k..]) ==>
                  (ArriveAs(ps, CanonicalAll(nals)) <==> Lost(bufs, k) == [] && AllSurvive(nals)))
  {
    SessionReadsAlike(Buffers(calls), k);
    SessionArrives(c, 1, [], calls);
    if !CutAfterCode([], Buffers(calls)[k..]) {
      NoneMissed(c, calls, k);
    }
  }

  lemma NoneMissed(c: Params, calls: seq<Call>, k: nat)
    requires SyncsAt(Buffers(calls), k) && !CutAfterCode([], Buffers(calls)[k..])
    ensures var nals := OneShot(Flatten(Buffers(calls))).nals;
            ArriveAs(SessionPackets(c, 1, [], calls), CanonicalAll(nals)) <==>
            Lost(Buffers(calls), k) == [] && AllSurvive(nals)
  {
    var bufs, ps := Buffers(calls), SessionPackets(c, 1, [], calls);
    var lost, run := Lost(bufs, k), Run([], bufs).nals;
    SessionIsWholeStream(bufs, k);
    SessionArrives(c, 1, [], calls);
    CanonicalAppend(lost, run);
    CanonicalGrows(lost);
    hide SessionPackets, Run, OneShot, SyncsAt, CutAfterCode, Completed, CanonicalAll, AllSurvive;
    if lost == [] {
      assert lost + run == run;
    } else {
      assert |CanonicalAll(lost + run)| > |CanonicalAll(run)|;
    }
  }

  /** The same for a stream written by a serializer: three- and four-byte start codes make no difference. */
  lemma EndToEndSerialized(c: Params, calls: seq<Call>, k: nat, zeros: seq<nat>, nals: seq<seq<byte>>)
    requires |zeros| == |nals| && nals != [] && forall n :: n in nals ==> WellFormed(n)
    requires SyncsAt(Buffers(calls), k) && Flatten(Buffers(calls)) == Serialize(zeros, nals)
    ensures var bufs, done := Buffers(calls), nals[..|nals| - 1];
            var run, ps := Run([], bufs), SessionPackets(c, 1, [], calls);
            && (AllSurvive(run.nals) ==>
                  (ArriveAs(ps, CanonicalAll(done)) <==> Lost(bufs, k) == [] && ReadsAlike(run)))
            && (!CutAfterCode([], bufs[k..]) ==>
                  run.rest == nals[|nals| - 1] &&
                  (ArriveAs(ps, CanonicalAll(done)) <==> Lost(bufs, k) == [] && AllSurvive(done)))
  {
    hide Run, OneShot, Serialize, SyncsAt, CutAfterCode, SessionPackets, Completed, ReadsAlike, AllSurvive, ArriveAs;
    SessionIsWholeStream(Buffers(calls), k);
    EndToEndWhole(c, calls, k);
    OneShotUndoesSerialize(zeros, nals);
  }

  // ---------------------------------------------------------------- sequence numbers over the session

  ghost predicate NumberedFrom(ps: seq<seq<byte>>, seqno: nat) {
    forall k :: 0 <= k < |ps| ==> |ps[k]| >= RTP_HEADLEN && SeqNoOf(ps[k]) == NextSeq(seqno, k)
  }

  lemma NumberedFromAppend(a: seq<seq<byte>>, b: seq<seq<byte>>, seqno: nat)
    requires NumberedFrom(a, seqno) && NumberedFrom(b, NextSeq(seqno, |a|))
    ensures NumberedFrom(a + b, seqno)
  {
    forall k | 0 <= k < |a + b|
      ensures |(a + b)[k]| >= RTP_HEADLEN && SeqNoOf((a + b)[k]) == NextSeq(seqno, k)
    {
      if k >= |a| {
        assert (a + b)[k] == b[k - |a|];
        NextSeqAdds(seqno, |a|, k - |a|);
      }
    }
  }

  lemma UnitNumbered(c: Params, seqno: nat, ts: bv32, nal: seq<byte>)
    requires seqno < 65536
    ensures NumberedFrom(Packetizer(c, ts)(seqno, nal), seqno)
  {
    if nal != [] {
      PacketsNumbered(c, seqno, ts, nal);
      var ps := PacketsOf(c, seqno, ts, nal);
      forall k | 0 <= k < |ps| ensures |ps[k]| >= RTP_HEADLEN && SeqNoOf(ps[k]) == NextSeq(seqno, k) {
        assert Carries(ps[k], NextSeq(seqno, k), ts);
      }
    }
  }

  lemma {:induction false} TrainNumbered(c: Params, seqno: nat, ts: bv32, nals: seq<seq<byte>>)
    requires seqno < 65536
    ensures NumberedFrom(Train(Packetizer(c, ts), seqno, nals), seqno)
    decreases |nals|
  {
    if nals != [] {
      var f := Packetizer(c, ts);
      var ps := f(seqno, nals[0]);
      UnitNumbered(c, seqno, ts, nals[0]);
      TrainNumbered(c, NextSeq(seqno, |ps|), ts, nals[1..]);
      NumberedFromAppend(ps, Train(f, NextSeq(seqno, |ps|), nals[1..]), seqno);
    }
  }

  /** Packet k of a session carries seqno + k modulo 65536, whole and fragmented units alike. */
  lemma {:induction false} SessionNumbered(c: Params, seqno: nat, pending: seq<byte>, calls: seq<Call>)
    requires seqno < 65536
    ensures NumberedFrom(SessionPackets(c, seqno, pending, calls), seqno)
    decreases |calls|
  {
    if calls != [] {
      var cut := Feed(pending, calls[0].data);
      var ps := Train(Packetizer(c, calls[0].ts), seqno, cut.nals);
      TrainNumbered(c, seqno, calls[0].ts, cut.nals);
      SessionNumbered(c, NextSeq(seqno, |ps|), cut.rest, calls[1..]);
      NumberedFromAppend(ps, SessionPackets(c, NextSeq(seqno, |ps|), cut.rest, calls[1..]), seqno);
    }
  }

  /** A fresh receiver reports no gap over a session that arrives complete and in order. */
  lemma SessionHasNoGap(c: Params, calls: seq<Call>)
    requires AllReceivable(SessionPackets(c, 1, [], calls))
    ensures GapsIn(0, SessionPackets(c, 1, [], calls)) == 0
  {
    var ps := SessionPackets(c, 1, [], calls);
    SessionNumbered(c, 1, [], calls);
    forall k | 0 <= k < |ps| ensures SeqNoOf(ps[k]) == NextSeq(0, 1 + k) {
      NextSeqAdds(0, 1, k);
      assert NextSeq(0, 1) == 1;
    }
    NoGapInOrder(0, ps);
  }

  // ---------------------------------------------------------------- the two programs

  /** Every call of the session finds at least three bytes and stays inside the fixed buffers. */
  ghost predicate SessionDefined(pending: seq<byte>, calls: seq<Call>)
    decreases |calls|
  {
    calls == [] ||
    (CallDefined(pending, calls[0].data) && SessionDefined(Feed(pending, calls[0].data).rest, calls[1..]))
  }

  /**
   * The start code lost in `LostFirstNal` is lost in a session the program runs within its bounds, as is the uncut
   * call.
   */
  lemma LostSessionIsDefined(ts: bv32, ts': bv32, x: byte, a: seq<byte>, b: seq<byte>)
    requires WellFormed(a) && WellFormed(b) && FitsBuffer(a)
    requires 3 <= |b| && |a| + 3 + |b| <= CAPACITY
    ensures SessionDefined([], [Call(ts, [x, 0, 0]), Call(ts', [1] + a + START_CODE + b)])
    ensures SessionDefined([], [Call(ts, [x, 0, 0] + ([1] + a + START_CODE + b))])
  {
    var d, d' := [x, 0, 0], [1] + a + START_CODE + b;
    FrontByteHidesCode(a, b);
    LostFirstNal(x, a, b);
    assert CallDefined([], d) && Feed([], d) == Cut([], []);
    assert CallDefined([], d') && Feed([], d') == Cut([], b);
    var first, second := Call(ts, d), Call(ts', d');
    assert [first, second][1..] == [second] && [second][1..] == [];
    UncutCallIsDefined(x, a, b);
    assert [Call(ts, d + d')][1..] == [];
  }

  lemma UncutCallIsDefined(x: byte, a: seq<byte>, b: seq<byte>)
    requires WellFormed(a) && WellFormed(b) && FitsBuffer(a)
    requires 3 <= |b| && |a| + 3 + |b| <= CAPACITY
    ensures CallDefined([], [x, 0, 0] + ([1] + a + START_CODE + b))
  {
    var s := [x, 0, 0] + ([1] + a + START_CODE + b);
    LostFirstNal(x, a, b);
    assert !HitAt(s, 0) && HitAt(s, 1);
    FindHitUnique(s, 0, 1);
  }

  method SendOneBuffer(ctx: RtpSend, call: Call, ghost cut: Cut, ghost ps: seq<seq<byte>>)
    requires ctx.Valid() && ctx.sock.lossless && CallDefined(ctx.Pending(), call.data)
    requires cut == Feed(ctx.Pending(), call.data)
    requires ps == Train(Packetizer(ctx.Settings(), call.ts), ctx.seqno, cut.nals)
    modifies ctx`seqno, ctx`pending_len, ctx.sock, ctx.pending_buff
    ensures ctx.Valid() && ctx.Pending() == cut.rest
    ensures ctx.sock.sent == old(ctx.sock.sent) + ps && ctx.seqno == NextSeq(old(ctx.seqno), |ps|)
  {
    hide LossyTrain, Feed, SendableNals;
    var data := new byte[|call.data|](i requires 0 <= i < |call.data| => call.data[i]);
    assert data[..data.Length] == call.data;
    ghost var before := ctx.sock.sent;
    var r := ctx.AvcAnalyzeAndSend(data, data.Length, call.ts);
    assert ctx.sock.sent == before + ctx.sock.sent[|before|..];
  }

  /** One call of the session: what it cuts, what it sends, and the rest of the session behind it. */
  lemma SessionStep(c: Params, seqno: nat, pending: seq<byte>, rest: seq<Call>)
    returns (cut: Cut, ps: seq<seq<byte>>, seqno': nat, later: seq<seq<byte>>)
    requires seqno < 65536 && rest != [] && SessionDefined(pending, rest)
    ensures CallDefined(pending, rest[0].data) && cut == Feed(pending, rest[0].data)
    ensures ps == Train(Packetizer(c, rest[0].ts), seqno, cut.nals)
    ensures seqno' == NextSeq(seqno, |ps|) && later == SessionPackets(c, seqno', cut.rest, rest[1..])
    ensures SessionPackets(c, seqno, pending, rest) == ps + later
    ensures SessionDefined(cut.rest, rest[1..])
  {
    cut := Feed(pending, rest[0].data);
    ps := Train(Packetizer(c, rest[0].ts), seqno, cut.nals);
    seqno' := NextSeq(seqno, |ps|);
    later := SessionPackets(c, seqno', cut.rest, rest[1..]);
  }

  /** The sending thread's loop over camera buffers. */
  method VideoSend(ctx: RtpSend, calls: seq<Call>)
    requires ctx.Valid() && ctx.sock.lossless && SessionDefined(ctx.Pending(), calls)
    modifies ctx`seqno, ctx`pending_len, ctx.sock, ctx.pending_buff
    ensures ctx.Valid()
    ensures ctx.sock.sent ==
            old(ctx.sock.sent) + SessionPackets(ctx.Settings(), old(ctx.seqno), old(ctx.Pending()), calls)
  {
    var i := 0;
    ghost var c, rest, seqno, pending := ctx.Settings(), calls, ctx.seqno, ctx.Pending();
    ghost var todo := SessionPackets(c, seqno, pending, rest);
    ghost var before, all, done := ctx.sock.sent, todo, [];
    while i < |calls|
      invariant 0 <= i <= |calls| && rest == calls[i..]
      invariant ctx.Valid() && ctx.seqno == seqno < 65536 && ctx.Pending() == pending
      invariant SessionDefined(pending, rest)
      invariant todo == SessionPackets(c, seqno, pending, rest)
      invariant all == done + todo && ctx.sock.sent == before + done
    {
      ghost var cut, ps, seqno', later := SessionStep(c, seqno, pending, rest);
      SendOneBuffer(ctx, calls[i], cut, ps);
      ConcatAssociative(done, ps, later);
      ConcatAssociative(before, done, ps);
      rest, seqno, pending, done, todo := rest[1..], seqno', cut.rest, done + ps, later;
      i := i + 1;
    }
  }

  method SendSession(calls: seq<Call>, ssrc: bv32, ptype: byte) returns (sent: seq<seq<byte>>)
    requires SessionDefined([], calls)
    ensures sent == SessionPackets(Params(ptype, ssrc), 1, [], calls)
  {
    var sock := new UdpSocket(true);
    var ctx := new RtpSend(ssrc, ptype, sock);
    VideoSend(ctx, calls);
    sent := sock.sent;
  }

  method ReceiveSession(datagrams: seq<seq<byte>>) returns (decoder: seq<byte>, gaps: nat)
    requires AllTakeable(datagrams)
    ensures decoder == GivenAll(datagrams) && gaps == GapsIn(0, datagrams)
  {
    var receiver := new VideoReceiver();
    receiver.ReceiveAll(datagrams);
    return receiver.decoder, receiver.gaps;
  }

  /**
   * Both programs together: a fresh sender on a lossless socket, a fresh receiver behind it that can unpack every
   * packet. No gap is reported, and the decoder ends up with the canonical form of the units cut off exactly when all
   * of them survive; then that is the camera's stream exactly when each start code that was missed reads like one.
   */
  method CameraToDecoder(calls: seq<Call>, ssrc: bv32, ptype: byte) returns (decoder: seq<byte>, gaps: nat)
    requires SessionDefined([], calls)
    requires AllReceivable(SessionPackets(Params(ptype, ssrc), 1, [], calls))
    ensures gaps == 0
    ensures var nals := Run([], Buffers(calls)).nals; decoder == CanonicalAll(nals) <==> AllSurvive(nals)
    ensures forall k :: SyncsAt(Buffers(calls), k) && AllSurvive(Run([], Buffers(calls)).nals) ==>
              DecodesTo(decoder, Buffers(calls), k)
  {
    ghost var c := Params(ptype, ssrc);
    var sent := SendSession(calls, ssrc, ptype);
    SessionArrives(c, 1, [], calls);
    SessionHasNoGap(c, calls);
    GivenIsDecoded(sent);
    decoder, gaps := ReceiveSession(sent);
    forall k | SyncsAt(Buffers(calls), k) && AllSurvive(Run([], Buffers(calls)).nals)
      ensures DecodesTo(decoder, Buffers(calls), k)
    {
      SessionReadsAlike(Buffers(calls), k);
    }
  }

  /**
   * The decoder's bytes are the stream's from buffer k on, and the whole stream's, exactly when the session reads
   * alike.
   */
  ghost predicate DecodesTo(decoder: seq<byte>, bufs: seq<seq<byte>>, k: nat)
    requires SyncsAt(bufs, k)
  {
    var alike := ReadsAlike(Run([], bufs));
    && (decoder == CanonicalAll(OneShot(Flatten(bufs[k..])).nals) <==> alike)
    && (decoder == CanonicalAll(OneShot(Flatten(bufs)).nals) <==> Lost(bufs, k) == [] && alike)
  }
}
