/**
 * The packets of one NAL unit byte by byte, in the numbers of RFC 3550 section 5.1 and RFC 6184 section 5.8, and which
 * units arrive, told by the unit's type number and length alone.
 */
module RtpWire {
  import opened Sequences
  import opened AnnexB
  import opened PacketTrain
  import opened RtpPackets
  import opened RtpSender

  // ---------------------------------------------------------------- bits and numbers

  /** The NAL unit type. */
  function TypeNumber(nal: seq<byte>): int
    requires nal != []
  {
    nal[0] as int % 32
  }

  lemma TypeBits(b: byte)
    ensures (b & 0x1f) as int == b as int % 32
  {
  }

  lemma ImportanceBits(b: byte)
    ensures ((b & 0x60) | 28) as int == b as int / 32 % 4 * 32 + 28
  {
  }

  lemma ForbiddenBit(b: byte)
    ensures b & 0x80 == 0 <==> b as int < 128
  {
  }

  lemma FlagBits(kind: byte, start: bool, end: bool)
    requires kind & 0x1f == kind
    ensures FuHeader(kind, start, end) as int == (if start then 128 else 0) + (if end then 64 else 0) + kind as int
  {
  }

  lemma MarkerNumber(ptype: byte, marked: bool)
    requires ptype < 128
    ensures WithMarker(ptype, marked) as int == ptype as int + if marked then 128 else 0
  {
  }

  /** Four bytes as a 32-bit number, the most significant first. */
  function Word(p: seq<byte>, i: nat): bv32
    requires i + 4 <= |p|
  {
    (p[i] as bv32) * 16777216 + (p[i + 1] as bv32) * 65536 + (p[i + 2] as bv32) * 256 + (p[i + 3] as bv32)
  }

  lemma WordOf(x: bv32)
    ensures Word(BigEndian32(x), 0) == x
  {
  }

  // ---------------------------------------------------------------- the RTP header

  /** Version 2 and nothing else in the first byte; marker and payload type; number, timestamp and source. */
  predicate HeaderIs(p: seq<byte>, marker: bool, ptype: byte, seqno: int, ts: bv32, ssrc: bv32) {
    && |p| >= 12
    && p[0] as int == 128
    && p[1] as int == ptype as int + (if marker then 128 else 0)
    && p[2] as int * 256 + p[3] as int == seqno
    && Word(p, 4) == ts && Word(p, 8) == ssrc
  }

  lemma HeaderInNumbers(ptype: byte, marker: bool, seqno: nat, ts: bv32, ssrc: bv32, tail: seq<byte>)
    requires ptype < 128 && seqno < 65536
    ensures HeaderIs(Header(WithMarker(ptype, marker), seqno, ts, ssrc) + tail, marker, ptype, seqno, ts, ssrc)
  {
    MarkerNumber(ptype, marker);
    TwoBytes(seqno);
    WordOf(ts);
    WordOf(ssrc);
    hide BigEndian32, WithMarker;
    HeaderBytes(WithMarker(ptype, marker), seqno, ts, ssrc, tail);
  }

  lemma HeaderBytes(b: byte, seqno: nat, ts: bv32, ssrc: bv32, tail: seq<byte>)
    requires seqno < 65536
    ensures var p := Header(b, seqno, ts, ssrc) + tail;
            && |p| >= 12 && p[0] == 0x80 && p[1] == b
            && p[2] == (seqno / 256) as bv8 && p[3] == (seqno % 256) as bv8
            && Word(p, 4) == Word(BigEndian32(ts), 0) && Word(p, 8) == Word(BigEndian32(ssrc), 0)
  {
    var front, t, s := [0x80, b, (seqno / 256) as bv8, (seqno % 256) as bv8], BigEndian32(ts), BigEndian32(ssrc);
    var p := Header(b, seqno, ts, ssrc) + tail;
    assert |t| == 4 && |s| == 4;
    assert Header(b, seqno, ts, ssrc) == front + t + s;
    hide BigEndian32, Word, Header;
    ThreeParts(front, t, s, tail);
    assert p[0] == p[..4][0] && p[1] == p[..4][1] && p[2] == p[..4][2] && p[3] == p[..4][3];
    WordAt(p, 4, t);
    WordAt(p, 8, s);
  }

  lemma ThreeParts(a: seq<byte>, b: seq<byte>, c: seq<byte>, tail: seq<byte>)
    requires |a| == |b| == |c| == 4
    ensures var p := a + b + c + tail; |p| >= 12 && p[..4] == a && p[4..8] == b && p[8..12] == c
  {
  }

  lemma WordAt(p: seq<byte>, i: nat, w: seq<byte>)
    requires i + 4 <= |p| && |w| == 4 && p[i..i + 4] == w
    ensures Word(p, i) == Word(w, 0)
  {
    assert p[i] == w[0] && p[i + 1] == w[1] && p[i + 2] == w[2] && p[i + 3] == w[3];
  }

  // ---------------------------------------------------------------- units sent whole

  /** Types 6, 7, 8 and 9: one packet with the marker, whatever the length. */
  predicate Marked(t: int) {
    t == 6 || t == 7 || t == 8 || t == 9
  }

  lemma ParameterTypes(nal: seq<byte>)
    requires nal != []
    ensures IsParameter(nal) <==> Marked(TypeNumber(nal))
  {
    TypeBits(nal[0]);
  }

  lemma WholeInNumbers(c: Params, seqno: nat, ts: bv32, nal: seq<byte>)
    requires seqno < 65536 && nal != [] && c.ptype < 128
    requires Marked(TypeNumber(nal)) || |nal| <= 1300
    ensures var ps := PacketsOf(c, seqno, ts, nal);
            && |ps| == 1 && HeaderIs(ps[0], Marked(TypeNumber(nal)), c.ptype, seqno, ts, c.ssrc)
            && ps[0][12..] == nal
  {
    ParameterTypes(nal);
    HeaderInNumbers(c.ptype, IsParameter(nal), seqno, ts, c.ssrc, nal);
    hide HeaderIs, IsParameter, Header;
  }

  // ---------------------------------------------------------------- fragments

  /**
   * Fragment k of a unit sent as `count` of them: FU indicator, FU header and 1300 bytes of the body or what is left.
   */
  predicate FragmentIs(p: seq<byte>, nal: seq<byte>, k: nat, count: nat)
    requires nal != [] && 1300 * k < |nal| - 1
  {
    && |p| >= 14
    && p[12] as int == nal[0] as int / 32 % 4 * 32 + 28
    && p[13] as int == (if k == 0 then 128 else 0) + (if k == count - 1 then 64 else 0) + TypeNumber(nal)
    && p[14..] == Chunk(nal[1..], k)
  }

  function Chunk(data: seq<byte>, k: nat): seq<byte>
    requires 1300 * k < |data|
  {
    if 1300 * k + 1300 < |data| then data[1300 * k..1300 * k + 1300] else data[1300 * k..]
  }

  /** Fragment k, without going through the ones before it. */
  lemma {:induction false} FragmentAt(c: Params, seqno: nat, ts: bv32, ind: byte, kind: byte, data: seq<byte>,
                                      start: bool, k: nat)
    requires seqno < 65536 && 1300 * k < |data|
    ensures var ps, last := Fragments(c, seqno, ts, ind, kind, data, start), 1300 * k + 1300 >= |data|;
            && k < |ps|
            && ps[k] == Header(WithMarker(c.ptype, last), NextSeq(seqno, k), ts, c.ssrc)
                          + [ind, FuHeader(kind, start && k == 0, last)] + Chunk(data, k)
    decreases k
  {
    hide Header, FuHeader, WithMarker, NextSeq, Chunk;
    NoneLater(seqno);
    if k == 0 {
      FirstChunk(data);
    } else {
      var rest := FragmentsBehind(c, seqno, ts, ind, kind, data, start);
      FragmentAt(c, NextSeq(seqno, 1), ts, ind, kind, data[1300..], false, k - 1);
      NextSeqAdds(seqno, 1, k - 1);
      NextChunk(data, k);
    }
  }

  lemma NoneLater(seqno: nat)
    requires seqno < 65536
    ensures NextSeq(seqno, 0) == seqno && NextSeq(seqno, 1) < 65536
  {
  }

  lemma FragmentsBehind(c: Params, seqno: nat, ts: bv32, ind: byte, kind: byte, data: seq<byte>, start: bool)
    returns (rest: seq<seq<byte>>)
    requires seqno < 65536 && |data| > 1300
    ensures rest == Fragments(c, NextSeq(seqno, 1), ts, ind, kind, data[1300..], false)
    ensures var ps := Fragments(c, seqno, ts, ind, kind, data, start);
            |ps| == 1 + |rest| && forall k :: 0 < k < |ps| ==> ps[k] == rest[k - 1]
  {
    hide Header, FuHeader, WithMarker;
    rest := Fragments(c, NextSeq(seqno, 1), ts, ind, kind, data[1300..], false);
  }

  lemma FirstChunk(data: seq<byte>)
    requires data != []
    ensures Chunk(data, 0) == data[..if |data| < 1300 then |data| else 1300]
  {
  }

  lemma NextChunk(data: seq<byte>, k: nat)
    requires k > 0 && 1300 * k < |data|
    ensures Chunk(data, k) == Chunk(data[1300..], k - 1)
  {
  }

  lemma FragmentCounts(n: nat, k: nat)
    requires 1300 * k < n
    ensures var count := (n + 1299) / 1300; k < count && (1300 * k + 1300 >= n <==> k == count - 1)
  {
  }

  lemma OneFragment(h: seq<byte>, nal: seq<byte>, k: nat, count: nat)
    requires |h| == 12 && nal != [] && 1300 * k < |nal| - 1
    ensures FragmentIs(h + [(nal[0] & 0x60) | FU_A, FuHeader(nal[0] & 0x1f, k == 0, k == count - 1)]
                         + Chunk(nal[1..], k), nal, k, count)
  {
    var kind := nal[0] & 0x1f;
    ImportanceBits(nal[0]);
    TypeBits(nal[0]);
    FlagBits(kind, k == 0, k == count - 1);
    hide FuHeader, Chunk;
    var fu := [(nal[0] & 0x60) | FU_A, FuHeader(kind, k == 0, k == count - 1)];
    var p := h + fu + Chunk(nal[1..], k);
    assert p[12] == fu[0] && p[13] == fu[1];
  }

  lemma SentInFragments(c: Params, seqno: nat, ts: bv32, nal: seq<byte>)
    requires seqno < 65536 && nal != [] && !Marked(TypeNumber(nal)) && |nal| > 1300
    ensures PacketsOf(c, seqno, ts, nal)
         == Fragments(c, seqno, ts, (nal[0] & 0x60) | FU_A, nal[0] & 0x1f, nal[1..], true)
  {
    ParameterTypes(nal);
    hide Fragments;
  }

  /**
   * Every other unit longer than 1300 bytes: each of its ceil((n - 1) / 1300) packets byte by byte, Start on exactly
   * the first, End and marker on exactly the last.
   */
  lemma FragmentsInNumbers(c: Params, seqno: nat, ts: bv32, nal: seq<byte>, k: nat)
    requires seqno < 65536 && nal != [] && c.ptype < 128
    requires !Marked(TypeNumber(nal)) && |nal| > 1300 && 1300 * k < |nal| - 1
    ensures var ps, count := PacketsOf(c, seqno, ts, nal), (|nal| - 1 + 1299) / 1300;
            && |ps| == count > k
            && HeaderIs(ps[k], k == count - 1, c.ptype, (seqno + k) % 65536, ts, c.ssrc)
            && FragmentIs(ps[k], nal, k, count)
  {
    hide Fragments, Header, HeaderIs, FragmentIs, FuHeader, Chunk, WithMarker, PacketsOf, TypeNumber;
    var ind, kind, data := (nal[0] & 0x60) | FU_A, nal[0] & 0x1f, nal[1..];
    var count, last := (|data| + 1299) / 1300, 1300 * k + 1300 >= |data|;
    SentInFragments(c, seqno, ts, nal);
    FragmentCount(c, seqno, ts, ind, kind, data, true);
    FragmentCounts(|data|, k);
    FragmentAt(c, seqno, ts, ind, kind, data, true, k);
    var h := Header(WithMarker(c.ptype, last), NextSeq(seqno, k), ts, c.ssrc);
    OneFragment(h, nal, k, count);
    var tail := [ind, FuHeader(kind, k == 0, last)] + Chunk(data, k);
    HeaderInNumbers(c.ptype, last, NextSeq(seqno, k), ts, c.ssrc, tail);
    ConcatAssociative(h, [ind, FuHeader(kind, k == 0, last)], Chunk(data, k));
  }

  // ---------------------------------------------------------------- arriving

  /** Which units arrive, by type and length: 2036 bytes are what the receive buffer holds behind a header. */
  predicate ArrivesWhole(nal: seq<byte>)
    requires nal != []
  {
    var t := TypeNumber(nal);
    if Marked(t) then |nal| <= 2036
    else if |nal| <= 1300 then t != 28
    else |nal| != 1301 && nal[0] as int < 128
  }

  /** A unit comes back behind the bytes 0, 0, 0 and 1 exactly when its type and length allow it. */
  lemma ArrivesInNumbers(c: Params, seqno: nat, ts: bv32, nal: seq<byte>)
    requires seqno < 65536 && nal != []
    ensures var ps := PacketsOf(c, seqno, ts, nal);
            AllReceivable(ps) && DecodedAll(ps) == [0, 0, 0, 1] + nal <==> ArrivesWhole(nal)
  {
    ParameterTypes(nal);
    TypeBits(nal[0]);
    ForbiddenBit(nal[0]);
    RoundTrip(c, seqno, ts, nal);
    assert Canonical(nal) == [0, 0, 0, 1] + nal;
    hide PacketsOf, AllReceivable, DecodedAll, Canonical;
  }

  // ---------------------------------------------------------------- what the program has room for

  /** 4096 bytes hold a packet, headers included; only units that are never fragmented can be too long for it. */
  predicate HasRoom(nal: seq<byte>) {
    nal != [] && (Marked(TypeNumber(nal)) ==> |nal| <= 4084)
  }

  /** The calls inside the program's bounds: at least three bytes, and at most 655360 pending. */
  lemma CallInNumbers(pending: seq<byte>, data: seq<byte>)
    ensures CallDefined(pending, data) <==>
            && (if pending != [] then 3 <= |pending| + |data| <= 655360
                else |data| >= 3 && (FindHit(data, 0) < |data| ==> 3 <= |data| - FindHit(data, 0) - 3 <= 655360))
            && forall i :: 0 <= i < |Feed(pending, data).nals| ==> HasRoom(Feed(pending, data).nals[i])
  {
    var nals := Feed(pending, data).nals;
    forall i | 0 <= i < |nals| ensures HasRoom(nals[i]) <==> nals[i] != [] && FitsBuffer(nals[i]) {
      if nals[i] != [] {
        ParameterTypes(nals[i]);
      }
    }
    hide Feed, FindHit, HasRoom, FitsBuffer;
  }
}
