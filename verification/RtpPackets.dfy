/**
 * The RTP packets of one NAL unit (RFC 3550 section 5.1, RFC 6184 sections 5.6 and 5.8), what the receiver
 * makes of them, and exactly which NAL units survive the trip.
 */
module RtpPackets {
  import opened Sequences
  import opened AnnexB
  import opened PacketTrain

  const RTP_HEADLEN: nat := 12
  const FRAGMENT: nat := 1300
  const RECV_BUFFER: nat := 2048
  const FU_A: byte := 28
  const FOUR_BYTE_CODE: seq<byte> := [0, 0, 0, 1]

  /** What stays the same in all headers of a session. */
  datatype Params = Params(ptype: byte, ssrc: bv32)

  function BigEndian32(x: bv32): seq<byte> {
    [((x >> 24) & 0xff) as bv8, ((x >> 16) & 0xff) as bv8, ((x >> 8) & 0xff) as bv8, (x & 0xff) as bv8]
  }

  function Header(ptype: byte, seqno: nat, ts: bv32, ssrc: bv32): (h: seq<byte>)
    requires seqno < 65536
    ensures |h| == RTP_HEADLEN
  {
    [0x80, ptype, (seqno / 256) as bv8, (seqno % 256) as bv8] + BigEndian32(ts) + BigEndian32(ssrc)
  }

  /** SPS, PPS, SEI and access unit delimiter: never fragmented, marker always set. */
  predicate IsParameter(nal: seq<byte>)
    requires nal != []
  {
    nal[0] & 0x1f in {6, 7, 8, 9}
  }

  predicate SentWhole(nal: seq<byte>)
    requires nal != []
  {
    IsParameter(nal) || |nal| <= FRAGMENT
  }

  function FuHeader(kind: byte, start: bool, end: bool): byte {
    kind | (if start then 0x80 else 0) | (if end then 0x40 else 0)
  }

  function WithMarker(ptype: byte, marked: bool): byte {
    if marked then ptype | 0x80 else ptype
  }

  function Fragments(c: Params, seqno: nat, ts: bv32, indicator: byte, kind: byte, data: seq<byte>, start: bool)
    : seq<seq<byte>>
    requires seqno < 65536
    decreases |data|
  {
    if data == [] then []
    else
      var len := if |data| < FRAGMENT then |data| else FRAGMENT;
      var end := len == |data|;
      [Header(WithMarker(c.ptype, end), seqno, ts, c.ssrc) + [indicator, FuHeader(kind, start, end)] + data[..len]]
      + Fragments(c, NextSeq(seqno, 1), ts, indicator, kind, data[len..], false)
  }

  /** All packets of one NAL unit, the first with sequence number `seqno`. */
  function PacketsOf(c: Params, seqno: nat, ts: bv32, nal: seq<byte>): seq<seq<byte>>
    requires seqno < 65536 && nal != []
  {
    if SentWhole(nal) then
      [Header(WithMarker(c.ptype, IsParameter(nal)), seqno, ts, c.ssrc) + nal]
    else
      Fragments(c, seqno, ts, (nal[0] & 0x60) | FU_A, nal[0] & 0x1f, nal[1..], true)
  }

  // ---------------------------------------------------------------- the receiving side

  function SeqNoOf(buf: seq<byte>): nat
    requires |buf| >= 4
  {
    (buf[2] as int) * 256 + buf[3] as int
  }

  function TimestampOf(buf: seq<byte>): bv32
    requires |buf| >= 8
  {
    ((buf[4] as bv32) << 24) | ((buf[5] as bv32) << 16) | ((buf[6] as bv32) << 8) | (buf[7] as bv32)
  }

  /** The zeroed receive buffer after `recv`: a longer datagram loses its tail. */
  function Received(datagram: seq<byte>): (buf: seq<byte>)
    ensures |buf| == RECV_BUFFER
  {
    if |datagram| >= RECV_BUFFER then datagram[..RECV_BUFFER]
    else datagram + seq(RECV_BUFFER - |datagram|, _ => 0)
  }

  function ReceivedLength(datagram: seq<byte>): nat {
    if |datagram| >= RECV_BUFFER then RECV_BUFFER else |datagram|
  }

  /** The unpacker copies no negative number of bytes and stays inside its input buffer. */
  predicate Unpackable(buf: seq<byte>, len: int) {
    && 14 <= |buf| && len <= |buf|
    && (len >= RTP_HEADLEN && buf[12] & 0x1f == FU_A ==>
          if buf[13] & 0xe0 == 0x80 then len + 5 <= |buf| else len >= 14)
  }

  /** The bytes handed to the decoder for one packet. */
  function Unpacked(buf: seq<byte>, len: int): (out: seq<byte>)
    requires RTP_HEADLEN <= len && Unpackable(buf, len)
  {
    var indicator, fu := buf[12], buf[13];
    if indicator & 0x1f == FU_A then
      if fu & 0xe0 == 0x80 then
        (FOUR_BYTE_CODE + [(indicator & 0xe0) | (fu & 0x1f)] + buf[14..])[..len - 9]
      else buf[14..len]
    else FOUR_BYTE_CODE + buf[12..len]
  }

  predicate Receivable(datagram: seq<byte>) {
    RTP_HEADLEN <= |datagram| && Unpackable(Received(datagram), ReceivedLength(datagram))
  }

  ghost predicate AllReceivable(packets: seq<seq<byte>>) {
    forall i :: 0 <= i < |packets| ==> Receivable(packets[i])
  }

  function Decoded(datagram: seq<byte>): seq<byte>
    requires Receivable(datagram)
  {
    Unpacked(Received(datagram), ReceivedLength(datagram))
  }

  /** The decoder's byte stream after all packets arrived in order. */
  ghost function DecodedAll(packets: seq<seq<byte>>): seq<byte>
    requires AllReceivable(packets)
  {
    if packets == [] then [] else Decoded(packets[0]) + DecodedAll(packets[1..])
  }

  lemma DecodedCons(p: seq<byte>, ps: seq<seq<byte>>)
    requires Receivable(p) && AllReceivable(ps)
    ensures AllReceivable([p] + ps) && DecodedAll([p] + ps) == Decoded(p) + DecodedAll(ps)
  {
    assert ([p] + ps)[1..] == ps;
  }

  lemma {:induction false} DecodedAppend(a: seq<seq<byte>>, b: seq<seq<byte>>)
    requires AllReceivable(a) && AllReceivable(b)
    ensures AllReceivable(a + b)
    ensures DecodedAll(a + b) == DecodedAll(a) + DecodedAll(b)
  {
    if a == [] {
      assert a + b == b;
    } else {
      hide Received, Unpacked, Decoded, Receivable;
      assert (a + b)[1..] == a[1..] + b;
      DecodedAppend(a[1..], b);
      ConcatAssociative(Decoded(a[0]), DecodedAll(a[1..]), DecodedAll(b));
    }
  }

  // ---------------------------------------------------------------- headers

  lemma HeaderFields(ptype: byte, seqno: nat, ts: bv32, ssrc: bv32, tail: seq<byte>)
    requires seqno < 65536
    ensures var p := Header(ptype, seqno, ts, ssrc) + tail;
            SeqNoOf(p) == seqno && TimestampOf(p) == ts && p[1] == ptype
  {
    var p := Header(ptype, seqno, ts, ssrc) + tail;
    TwoBytes(seqno);
    FourBytes(ts);
    assert p[2] == (seqno / 256) as bv8 && p[3] == (seqno % 256) as bv8;
    var b := BigEndian32(ts);
    assert p[4] == b[0] && p[5] == b[1] && p[6] == b[2] && p[7] == b[3];
  }

  lemma HeaderMarked(ptype: byte, seqno: nat, ts: bv32, ssrc: bv32, ptype': byte)
    requires seqno < 65536
    ensures Header(ptype, seqno, ts, ssrc)[1 := ptype'] == Header(ptype', seqno, ts, ssrc)
  {
  }

  lemma HeaderRenumbered(ptype: byte, seqno: nat, ts: bv32, ssrc: bv32, seqno': nat)
    requires seqno < 65536 && seqno' < 65536
    ensures Header(ptype, seqno, ts, ssrc)[2 := (seqno' / 256) as bv8][3 := (seqno' % 256) as bv8]
         == Header(ptype, seqno', ts, ssrc)
  {
  }

  lemma TwoBytes(n: nat)
    requires n < 65536
    ensures ((n / 256) as bv8) as int * 256 + ((n % 256) as bv8) as int == n
  {
    var hi, lo := n / 256, n % 256;
    ByteOfInt(hi);
    ByteOfInt(lo);
  }

  lemma FourBytes(x: bv32)
    ensures var b := BigEndian32(x);
            (((b[0] as bv32) << 24) | ((b[1] as bv32) << 16) | ((b[2] as bv32) << 8) | (b[3] as bv32)) == x
  {
  }

  // ---------------------------------------------------------------- one fragment

  lemma FuBits(first: byte, start: bool, end: bool)
    ensures var ind := (first & 0x60) | FU_A;
            var fu := FuHeader(first & 0x1f, start, end);
            && ind & 0x1f == FU_A
            && (fu & 0xe0 == 0x80 <==> start && !end)
            && (ind & 0xe0) | (fu & 0x1f) == first & 0x7f
            && (fu & 0x80 != 0 <==> start)
            && (fu & 0x40 != 0 <==> end)
            && fu & 0x3f == first & 0x1f
  {
  }

  function Fragment(h: seq<byte>, first: byte, start: bool, end: bool, chunk: seq<byte>): seq<byte> {
    h + [(first & 0x60) | FU_A, FuHeader(first & 0x1f, start, end)] + chunk
  }

  lemma DecodeFragment(h: seq<byte>, first: byte, start: bool, end: bool, chunk: seq<byte>)
    requires |h| == RTP_HEADLEN && |chunk| <= FRAGMENT
    ensures var p := Fragment(h, first, start, end, chunk);
            && Receivable(p)
            && Decoded(p) == (if start && !end then FOUR_BYTE_CODE + [first & 0x7f] else []) + chunk
  {
    var p := Fragment(h, first, start, end, chunk);
    var buf := Received(p);
    FuBits(first, start, end);
    assert buf[12] == (first & 0x60) | FU_A && buf[13] == FuHeader(first & 0x1f, start, end);
    assert buf[14..|p|] == chunk;
    if start && !end {
      assert (FOUR_BYTE_CODE + [first & 0x7f] + buf[14..])[..|p| - 9] == FOUR_BYTE_CODE + [first & 0x7f] + chunk;
    }
  }

  /** A fragment in front of others. */
  lemma FragmentInFront(h: seq<byte>, first: byte, start: bool, end: bool, chunk: seq<byte>, rest: seq<seq<byte>>,
                        data: seq<byte>)
    requires |h| == RTP_HEADLEN && |chunk| <= FRAGMENT
    requires AllReceivable(rest) && DecodedAll(rest) == data
    ensures var ps := [Fragment(h, first, start, end, chunk)] + rest;
            && AllReceivable(ps)
            && DecodedAll(ps) == (if start && !end then FOUR_BYTE_CODE + [first & 0x7f] else []) + (chunk + data)
  {
    hide Received, Unpacked, Decoded, Fragment, FuHeader, Receivable;
    DecodeFragment(h, first, start, end, chunk);
    ConcatAssociative(if start && !end then FOUR_BYTE_CODE + [first & 0x7f] else [], chunk, data);
    DecodedCons(Fragment(h, first, start, end, chunk), rest);
  }

  /** The first fragment and the others. */
  lemma FragmentsStep(c: Params, seqno: nat, ts: bv32, first: byte, data: seq<byte>, start: bool)
    returns (h: seq<byte>, len: nat, end: bool, rest: seq<seq<byte>>)
    requires seqno < 65536 && data != []
    ensures |h| == RTP_HEADLEN && 0 < len <= FRAGMENT && len <= |data| && (end <==> |data| <= FRAGMENT)
    ensures data == data[..len] + data[len..] && (end ==> len == |data|)
    ensures rest == Fragments(c, NextSeq(seqno, 1), ts, (first & 0x60) | FU_A, first & 0x1f, data[len..], false)
    ensures Fragments(c, seqno, ts, (first & 0x60) | FU_A, first & 0x1f, data, start)
         == [Fragment(h, first, start, end, data[..len])] + rest
  {
    hide Header, FuHeader, WithMarker;
    len := if |data| < FRAGMENT then |data| else FRAGMENT;
    end := len == |data|;
    h := Header(WithMarker(c.ptype, end), seqno, ts, c.ssrc);
    rest := Fragments(c, NextSeq(seqno, 1), ts, (first & 0x60) | FU_A, first & 0x1f, data[len..], false);
  }

  lemma NothingDecoded()
    ensures AllReceivable([]) && DecodedAll([]) == []
  {
  }

  lemma {:induction false} LaterFragmentsDecode(c: Params, seqno: nat, ts: bv32, first: byte, data: seq<byte>)
    requires seqno < 65536
    ensures var ps := Fragments(c, seqno, ts, (first & 0x60) | FU_A, first & 0x1f, data, false);
            AllReceivable(ps) && DecodedAll(ps) == data
    decreases |data|
  {
    if data == [] {
      NothingDecoded();
    } else {
      hide Fragment, AllReceivable, DecodedAll;
      var h, len, end, rest := FragmentsStep(c, seqno, ts, first, data, false);
      LaterFragmentsDecode(c, NextSeq(seqno, 1), ts, first, data[len..]);
      FragmentInFront(h, first, false, end, data[..len], rest, data[len..]);
      assert [] + data == data;
    }
  }

  lemma FragmentsDecode(c: Params, seqno: nat, ts: bv32, first: byte, data: seq<byte>)
    requires seqno < 65536 && data != []
    ensures var ps := Fragments(c, seqno, ts, (first & 0x60) | FU_A, first & 0x1f, data, true);
            && AllReceivable(ps)
            && DecodedAll(ps) == (if |data| > FRAGMENT then FOUR_BYTE_CODE + [first & 0x7f] else []) + data
  {
    hide Fragment, AllReceivable, DecodedAll, Fragments;
    var h, len, end, rest := FragmentsStep(c, seqno, ts, first, data, true);
    LaterFragmentsDecode(c, NextSeq(seqno, 1), ts, first, data[len..]);
    FragmentInFront(h, first, true, end, data[..len], rest, data[len..]);
  }

  // ---------------------------------------------------------------- one NAL unit

  /** What a decoder expects for one NAL unit. */
  function Canonical(nal: seq<byte>): seq<byte> {
    FOUR_BYTE_CODE + nal
  }

  /** The NAL units that arrive as they were sent. */
  predicate Survives(nal: seq<byte>)
    requires nal != []
  {
    if IsParameter(nal) then |nal| + RTP_HEADLEN <= RECV_BUFFER
    else if |nal| <= FRAGMENT then nal[0] & 0x1f != FU_A
    else |nal| != FRAGMENT + 1 && nal[0] & 0x80 == 0
  }

  lemma WholeDecodes(c: Params, seqno: nat, ts: bv32, nal: seq<byte>)
    requires seqno < 65536 && nal != [] && SentWhole(nal) && nal[0] & 0x1f != FU_A
    ensures var ps := PacketsOf(c, seqno, ts, nal);
            && AllReceivable(ps)
            && DecodedAll(ps) == FOUR_BYTE_CODE +
                 (if |nal| > RECV_BUFFER - RTP_HEADLEN then nal[..RECV_BUFFER - RTP_HEADLEN] else nal)
  {
    var h := Header(WithMarker(c.ptype, IsParameter(nal)), seqno, ts, c.ssrc);
    assert PacketsOf(c, seqno, ts, nal) == [h + nal];
    hide Header, Received, ReceivedLength;
    PayloadReceived(h, nal);
    assert Receivable(h + nal);
    OneDecoded(h + nal);
  }

  /** What the receive buffer holds behind the header. */
  lemma PayloadReceived(h: seq<byte>, nal: seq<byte>)
    requires |h| == RTP_HEADLEN && nal != []
    ensures var buf, len := Received(h + nal), ReceivedLength(h + nal);
            && RTP_HEADLEN < len <= |buf| && buf[12] == nal[0]
            && buf[12..len] == if |nal| > RECV_BUFFER - RTP_HEADLEN then nal[..RECV_BUFFER - RTP_HEADLEN] else nal
  {
    var p := h + nal;
    assert p[12] == nal[0] && p[12..] == nal;
    if |p| >= RECV_BUFFER {
      assert p[..RECV_BUFFER][12..] == p[12..][..RECV_BUFFER - 12];
    } else {
      assert Received(p)[..|p|] == p;
    }
  }

  lemma OneDecoded(p: seq<byte>)
    requires Receivable(p)
    ensures AllReceivable([p]) && DecodedAll([p]) == Decoded(p)
  {
    hide Receivable, Decoded;
    assert [p][1..] == [];
  }

  /** A NAL unit of type 28 sent whole is taken for a fragment. */
  lemma WholeFuDecodes(c: Params, seqno: nat, ts: bv32, nal: seq<byte>)
    requires seqno < 65536 && nal != [] && |nal| <= FRAGMENT && nal[0] & 0x1f == FU_A
    ensures var ps := PacketsOf(c, seqno, ts, nal);
            && (AllReceivable(ps) <==> |nal| > 1)
            && (|nal| > 1 ==> |DecodedAll(ps)| < |Canonical(nal)|)
  {
    var ps := PacketsOf(c, seqno, ts, nal);
    var p := ps[0];
    assert !IsParameter(nal) && ps == [p];
    var buf := Received(p);
    assert buf[12] == nal[0];
    if |nal| == 1 {
      assert buf[13] == 0;
      assert !Receivable(ps[0]);
    } else {
      assert Receivable(p);
      OneDecoded(p);
    }
  }

  lemma FragmentedDecodes(c: Params, seqno: nat, ts: bv32, nal: seq<byte>)
    requires seqno < 65536 && nal != [] && !SentWhole(nal)
    ensures var ps := PacketsOf(c, seqno, ts, nal);
            && AllReceivable(ps)
            && DecodedAll(ps) == if |nal| == FRAGMENT + 1 then nal[1..] else FOUR_BYTE_CODE + [nal[0] & 0x7f] + nal[1..]
  {
    FragmentsDecode(c, seqno, ts, nal[0], nal[1..]);
  }

  lemma HeaderByteKept(nal: seq<byte>)
    requires nal != []
    ensures FOUR_BYTE_CODE + [nal[0] & 0x7f] + nal[1..] == Canonical(nal) <==> nal[0] & 0x80 == 0
  {
    var out := FOUR_BYTE_CODE + [nal[0] & 0x7f] + nal[1..];
    assert Canonical(nal)[4] == nal[0] && out[4] == nal[0] & 0x7f;
    assert nal[0] & 0x7f == nal[0] <==> nal[0] & 0x80 == 0;
    if nal[0] & 0x80 == 0 {
      assert out == Canonical(nal);
    }
  }

  lemma RoundTripFragmented(c: Params, seqno: nat, ts: bv32, nal: seq<byte>)
    requires seqno < 65536 && nal != [] && !SentWhole(nal)
    ensures var ps := PacketsOf(c, seqno, ts, nal);
            && AllReceivable(ps)
            && (DecodedAll(ps) == Canonical(nal) <==> Survives(nal))
            && |DecodedAll(ps)| <= |Canonical(nal)|
  {
    FragmentedDecodes(c, seqno, ts, nal);
    HeaderByteKept(nal);
  }

  /** One NAL unit arrives unchanged behind a four-byte start code exactly when it survives. */
  lemma RoundTrip(c: Params, seqno: nat, ts: bv32, nal: seq<byte>)
    requires seqno < 65536 && nal != []
    ensures var ps := PacketsOf(c, seqno, ts, nal);
            && (AllReceivable(ps) && DecodedAll(ps) == Canonical(nal) <==> Survives(nal))
            && (AllReceivable(ps) ==> |DecodedAll(ps)| <= |Canonical(nal)|)
  {
    if !SentWhole(nal) {
      RoundTripFragmented(c, seqno, ts, nal);
    } else if nal[0] & 0x1f == FU_A {
      WholeFuDecodes(c, seqno, ts, nal);
    } else {
      WholeDecodes(c, seqno, ts, nal);
    }
  }

  // ---------------------------------------------------------------- the shape of a fragmented NAL unit

  lemma {:induction false} FragmentCount(c: Params, seqno: nat, ts: bv32, indicator: byte, kind: byte,
                                         data: seq<byte>, start: bool)
    requires seqno < 65536
    ensures |Fragments(c, seqno, ts, indicator, kind, data, start)| == (|data| + FRAGMENT - 1) / FRAGMENT
    decreases |data|
  {
    if data != [] {
      var len := if |data| < FRAGMENT then |data| else FRAGMENT;
      FragmentCount(c, NextSeq(seqno, 1), ts, indicator, kind, data[len..], false);
    }
  }

  predicate Carries(p: seq<byte>, seqno: nat, ts: bv32) {
    |p| >= RTP_HEADLEN && SeqNoOf(p) == seqno && TimestampOf(p) == ts
  }

  lemma HeaderCarries(ptype: byte, seqno: nat, ts: bv32, ssrc: bv32, tail: seq<byte>)
    requires seqno < 65536
    ensures Carries(Header(ptype, seqno, ts, ssrc) + tail, seqno, ts)
  {
    HeaderFields(ptype, seqno, ts, ssrc, tail);
    hide SeqNoOf, TimestampOf;
  }

  /** Packet k of the list carries the number `seqno + k` and the shared timestamp. */
  ghost predicate Numbered(ps: seq<seq<byte>>, seqno: nat, ts: bv32) {
    forall k :: 0 <= k < |ps| ==> Carries(ps[k], NextSeq(seqno, k), ts)
  }

  lemma NumberedPrefix(ps: seq<seq<byte>>, n: nat, seqno: nat, ts: bv32)
    requires n <= |ps| && Numbered(ps, seqno, ts)
    ensures Numbered(ps[..n], seqno, ts)
  {
    hide Carries;
  }

  lemma NumberedCons(p: seq<byte>, ps: seq<seq<byte>>, seqno: nat, ts: bv32)
    requires seqno < 65536 && Carries(p, seqno, ts)
    requires Numbered(ps, NextSeq(seqno, 1), ts)
    ensures Numbered([p] + ps, seqno, ts)
  {
    assert NextSeq(seqno, 0) == seqno;
    hide Carries, NextSeq;
    var all := [p] + ps;
    forall k | 0 < k < |all| ensures Carries(all[k], NextSeq(seqno, k), ts) {
      NextSeqAdds(seqno, 1, k - 1);
      assert Carries(ps[k - 1], NextSeq(NextSeq(seqno, 1), k - 1), ts);
    }
  }

  lemma NoFragments(c: Params, seqno: nat, ts: bv32, indicator: byte, kind: byte, data: seq<byte>, start: bool)
    requires seqno < 65536
    ensures Fragments(c, seqno, ts, indicator, kind, data, start) == [] <==> data == []
  {
  }

  lemma {:induction false} FragmentsNumbered(c: Params, seqno: nat, ts: bv32, indicator: byte, kind: byte,
                                             data: seq<byte>, start: bool)
    requires seqno < 65536
    ensures Numbered(Fragments(c, seqno, ts, indicator, kind, data, start), seqno, ts)
    decreases |data|
  {
    hide Carries, NextSeq, Header, FuHeader, WithMarker;
    if data != [] {
      NextSeqBelow(seqno);
      var len := if |data| < FRAGMENT then |data| else FRAGMENT;
      var end := len == |data|;
      var fu := [indicator, FuHeader(kind, start, end)];
      var h := Header(WithMarker(c.ptype, end), seqno, ts, c.ssrc);
      HeaderCarries(WithMarker(c.ptype, end), seqno, ts, c.ssrc, fu + data[..len]);
      ConcatAssociative(h, fu, data[..len]);
      var rest := Fragments(c, NextSeq(seqno, 1), ts, indicator, kind, data[len..], false);
      FragmentsNumbered(c, NextSeq(seqno, 1), ts, indicator, kind, data[len..], false);
      NumberedCons(h + fu + data[..len], rest, seqno, ts);
    }
  }

  lemma OneNumbered(p: seq<byte>, seqno: nat, ts: bv32)
    requires seqno < 65536 && Carries(p, seqno, ts)
    ensures Numbered([p], seqno, ts)
  {
    hide Carries;
    assert NextSeq(seqno, 0) == seqno;
  }

  lemma NextSeqBelow(seqno: nat)
    ensures NextSeq(seqno, 1) < 65536
  {
  }

  lemma PacketsNumbered(c: Params, seqno: nat, ts: bv32, nal: seq<byte>)
    requires seqno < 65536 && nal != []
    ensures PacketsOf(c, seqno, ts, nal) != []
    ensures Numbered(PacketsOf(c, seqno, ts, nal), seqno, ts)
  {
    hide Carries, Numbered, NextSeq, Header, WithMarker;
    if SentWhole(nal) {
      HeaderCarries(WithMarker(c.ptype, IsParameter(nal)), seqno, ts, c.ssrc, nal);
      OneNumbered(Header(WithMarker(c.ptype, IsParameter(nal)), seqno, ts, c.ssrc) + nal, seqno, ts);
    } else {
      FragmentsNumbered(c, seqno, ts, (nal[0] & 0x60) | FU_A, nal[0] & 0x1f, nal[1..], true);
    }
  }

  predicate HasStart(p: seq<byte>)
    requires |p| >= 14
  {
    p[13] & 0x80 != 0
  }

  predicate HasEnd(p: seq<byte>)
    requires |p| >= 14
  {
    p[13] & 0x40 != 0
  }

  predicate HasMarker(p: seq<byte>)
    requires |p| >= 14
  {
    p[1] & 0x80 != 0
  }

  lemma {:induction false} FragmentFlags(c: Params, seqno: nat, ts: bv32, first: byte, data: seq<byte>, start: bool,
                                         k: nat)
    requires seqno < 65536 && c.ptype & 0x80 == 0
    requires k < |Fragments(c, seqno, ts, (first & 0x60) | FU_A, first & 0x1f, data, start)|
    ensures var ps := Fragments(c, seqno, ts, (first & 0x60) | FU_A, first & 0x1f, data, start);
            && 14 <= |ps[k]| <= 14 + FRAGMENT
            && (HasStart(ps[k]) <==> start && k == 0)
            && (HasEnd(ps[k]) <==> k == |ps| - 1)
            && (HasMarker(ps[k]) <==> k == |ps| - 1)
    decreases |data|
  {
    var ind, kind := (first & 0x60) | FU_A, first & 0x1f;
    var ps := Fragments(c, seqno, ts, ind, kind, data, start);
    var len := if |data| < FRAGMENT then |data| else FRAGMENT;
    var end := len == |data|;
    var rest := Fragments(c, NextSeq(seqno, 1), ts, ind, kind, data[len..], false);
    FragmentCount(c, NextSeq(seqno, 1), ts, ind, kind, data[len..], false);
    assert end <==> |ps| == 1;
    if k == 0 {
      FlagsOf(Header(WithMarker(c.ptype, end), seqno, ts, c.ssrc), c.ptype, first, start, end, data[..len]);
    } else {
      hide HasStart, HasEnd, HasMarker, Header, FuHeader;
      FragmentFlags(c, NextSeq(seqno, 1), ts, first, data[len..], false, k - 1);
      assert ps[k] == rest[k - 1];
    }
  }

  lemma FlagsOf(h: seq<byte>, ptype: byte, first: byte, start: bool, end: bool, chunk: seq<byte>)
    requires |h| == RTP_HEADLEN && h[1] == WithMarker(ptype, end) && ptype & 0x80 == 0
    ensures var p := h + [(first & 0x60) | FU_A, FuHeader(first & 0x1f, start, end)] + chunk;
            && |p| == 14 + |chunk|
            && (HasStart(p) <==> start) && (HasEnd(p) <==> end) && (HasMarker(p) <==> end)
  {
    FuBits(first, start, end);
    MarkerBit(ptype, end);
    hide FuHeader, WithMarker;
    var p := h + [(first & 0x60) | FU_A, FuHeader(first & 0x1f, start, end)] + chunk;
    assert p[13] == FuHeader(first & 0x1f, start, end) && p[1] == h[1];
  }

  lemma MarkerBit(ptype: byte, marked: bool)
    requires ptype & 0x80 == 0
    ensures WithMarker(ptype, marked) & 0x80 != 0 <==> marked
  {
  }

  /**
   * A NAL unit too long for one packet: ceil((n - 1) / 1300) fragments of at most 1300 bytes, Start on exactly the
   * first, End and marker on exactly the last.
   */
  lemma FragmentedShape(c: Params, seqno: nat, ts: bv32, nal: seq<byte>)
    requires seqno < 65536 && nal != [] && !SentWhole(nal) && c.ptype & 0x80 == 0
    ensures var ps := PacketsOf(c, seqno, ts, nal);
            && |ps| == (|nal| - 1 + FRAGMENT - 1) / FRAGMENT
            && forall k :: 0 <= k < |ps| ==>
                 && 14 <= |ps[k]| <= 14 + FRAGMENT
                 && (HasStart(ps[k]) <==> k == 0)
                 && (HasEnd(ps[k]) <==> k == |ps| - 1)
                 && (HasMarker(ps[k]) <==> k == |ps| - 1)
  {
    var ps := PacketsOf(c, seqno, ts, nal);
    FragmentCount(c, seqno, ts, (nal[0] & 0x60) | FU_A, nal[0] & 0x1f, nal[1..], true);
    forall k | 0 <= k < |ps|
      ensures && 14 <= |ps[k]| <= 14 + FRAGMENT
              && (HasStart(ps[k]) <==> k == 0)
              && (HasEnd(ps[k]) <==> k == |ps| - 1)
              && (HasMarker(ps[k]) <==> k == |ps| - 1)
    {
      FragmentFlags(c, seqno, ts, nal[0], nal[1..], true, k);
    }
  }

  /** The packets of each NAL unit of one call, as a function of the next sequence number and the unit. */
  function Packetizer(c: Params, ts: bv32): (nat, seq<byte>) -> seq<seq<byte>> {
    (seqno: nat, nal: seq<byte>) => if seqno < 65536 && nal != [] then PacketsOf(c, seqno, ts, nal) else []
  }
}
