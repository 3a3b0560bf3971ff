/** The sending side: a socket that may refuse packets, and the context kept between camera buffers. */
module RtpSender {
  import opened Sequences
  import opened AnnexB
  import opened PacketTrain
  import opened RtpPackets

  const PACKET_BUFFER: nat := 4096
  const CAPACITY: nat := 1024 * 640

  /** A datagram socket; `sent` is what the network took. */
  class UdpSocket {
    var sent: seq<seq<byte>>
    const lossless: bool

    constructor (lossless: bool)
      ensures sent == [] && this.lossless == lossless
    {
      sent := [];
      this.lossless := lossless;
    }

    /** sendto: the whole datagram goes out, or nothing and a negative result. */
    method SendTo(buff: array<byte>, n: nat) returns (r: int)
      requires n <= buff.Length
      modifies this
      ensures r >= 0 ==> sent == old(sent) + [buff[..n]]
      ensures r < 0 ==> sent == old(sent)
      ensures lossless ==> r >= 0
    {
      var refused: bool := *;
      if refused && !lossless {
        r := -1;
      } else {
        sent := sent + [buff[..n]];
        r := n;
      }
    }
  }

  /** A NAL unit that is never fragmented must fit the packet buffer behind the header. */
  predicate FitsBuffer(nal: seq<byte>)
    requires nal != []
  {
    SentWhole(nal) ==> RTP_HEADLEN + |nal| <= PACKET_BUFFER
  }

  /** `after` continues `before` with the packets up to the first refused one. */
  ghost predicate SentUpTo(ps: seq<seq<byte>>, before: seq<seq<byte>>, after: seq<seq<byte>>, r: int) {
    && |before| <= |after| <= |before| + |ps|
    && after == before + ps[..|after| - |before|]
    && r == if |after| == |before| + |ps| then 0 else -1
  }

  /** What the code needs of one call: the unsigned loop bounds and the fixed buffers. */
  ghost predicate CallDefined(pending: seq<byte>, data: seq<byte>) {
    && (if pending == [] then
          var k := FindHit(data, 0);
          |data| >= 3 && (k < |data| ==> 3 <= |data| - k - 3 <= CAPACITY)
        else 3 <= |pending| + |data| <= CAPACITY)
    && SendableNals(Feed(pending, data).nals)
  }

  // ---------------------------------------------------------------- writing the packet buffer

  method PutFirstWord(buff: array<byte>, ptype: byte, seqno: nat)
    requires buff.Length == PACKET_BUFFER && seqno < 65536
    modifies buff
    ensures buff[..4] == [0x80, ptype, (seqno / 256) as bv8, (seqno % 256) as bv8]
  {
    buff[0], buff[1] := 0x80, ptype;
    buff[2], buff[3] := (seqno / 256) as bv8, (seqno % 256) as bv8;
  }

  /** htonl: four bytes, the most significant first. */
  method PutBigEndian32(buff: array<byte>, at: nat, x: bv32)
    requires at + 4 <= buff.Length
    modifies buff
    ensures buff[..at + 4] == old(buff[..at]) + BigEndian32(x)
  {
    var b := BigEndian32(x);
    assert b == [b[0], b[1], b[2], b[3]];
    buff[at], buff[at + 1], buff[at + 2], buff[at + 3] := b[0], b[1], b[2], b[3];
  }

  method PutWords(buff: array<byte>, ptype: byte, seqno: nat, ts: bv32, ssrc: bv32)
    requires buff.Length == PACKET_BUFFER && seqno < 65536
    modifies buff
    ensures buff[..RTP_HEADLEN] == buff[..4] + BigEndian32(ts) + BigEndian32(ssrc)
    ensures buff[..4] == [0x80, ptype, (seqno / 256) as bv8, (seqno % 256) as bv8]
  {
    PutFirstWord(buff, ptype, seqno);
    PutBigEndian32(buff, 4, ts);
    PutBigEndian32(buff, 8, ssrc);
  }

  method PutHeader(buff: array<byte>, ptype: byte, seqno: nat, ts: bv32, ssrc: bv32)
    requires buff.Length == PACKET_BUFFER && seqno < 65536
    modifies buff
    ensures buff[..RTP_HEADLEN] == Header(ptype, seqno, ts, ssrc)
  {
    PutWords(buff, ptype, seqno, ts, ssrc);
  }

  lemma EndBit(kind: byte, start: bool)
    ensures FuHeader(kind, start, false) | 0x40 == FuHeader(kind, start, true)
  {
  }

  lemma StartBit(kind: byte, start: bool)
    requires kind & 0x1f == kind
    ensures FuHeader(kind, start, false) & 0x7f == FuHeader(kind, false, false)
  {
  }

  method SetMarker(buff: array<byte>, ptype: byte, ghost seqno: nat, ghost ts: bv32, ghost ssrc: bv32)
    requires buff.Length == PACKET_BUFFER && seqno < 65536
    requires buff[..RTP_HEADLEN] == Header(ptype, seqno, ts, ssrc)
    modifies buff
    ensures buff[..RTP_HEADLEN] == Header(ptype | 0x80, seqno, ts, ssrc)
    ensures buff[RTP_HEADLEN..] == old(buff[RTP_HEADLEN..])
  {
    ghost var h := buff[..RTP_HEADLEN];
    assert h[1] == ptype;
    HeaderMarked(ptype, seqno, ts, ssrc, ptype | 0x80);
    buff[1] := buff[1] | 0x80;
    assert buff[..RTP_HEADLEN] == h[1 := ptype | 0x80];
  }

  /** The last fragment: End in the FU header, marker in the RTP header. */
  method FlagLast(buff: array<byte>, ptype: byte, ghost seqno: nat, ghost ts: bv32, ghost ssrc: bv32,
                  ghost ind: byte, ghost kind: byte, ghost start: bool)
    requires buff.Length == PACKET_BUFFER && seqno < 65536
    requires buff[..14] == Header(ptype, seqno, ts, ssrc) + [ind, FuHeader(kind, start, false)]
    modifies buff
    ensures buff[..14] == Header(ptype | 0x80, seqno, ts, ssrc) + [ind, FuHeader(kind, start, true)]
    ensures buff[14..] == old(buff[14..])
  {
    ghost var h := Header(ptype, seqno, ts, ssrc);
    ghost var front := buff[..14];
    assert front[1] == h[1] && front[13] == FuHeader(kind, start, false);
    HeaderMarked(ptype, seqno, ts, ssrc, ptype | 0x80);
    EndBit(kind, start);
    buff[13] := buff[13] | 0x40;
    buff[1] := buff[1] | 0x80;
    assert buff[..14] == h[1 := ptype | 0x80] + [ind, FuHeader(kind, start, true)];
  }

  /** After a fragment was sent: the next number, and no Start bit any more. */
  method NumberNext(buff: array<byte>, ghost pt: byte, ghost seqno: nat, next: nat, ghost ts: bv32, ghost ssrc: bv32,
                    ghost ind: byte, ghost kind: byte, ghost start: bool, ghost last: bool)
    requires buff.Length == PACKET_BUFFER && seqno < 65536 && next < 65536 && kind & 0x1f == kind
    requires buff[..14] == Header(pt, seqno, ts, ssrc) + [ind, FuHeader(kind, start, last)]
    modifies buff
    ensures !last ==> buff[..14] == Header(pt, next, ts, ssrc) + [ind, FuHeader(kind, false, false)]
  {
    ghost var h := Header(pt, seqno, ts, ssrc);
    ghost var front := buff[..14];
    assert front[13] == FuHeader(kind, start, last);
    HeaderRenumbered(pt, seqno, ts, ssrc, next);
    StartBit(kind, start);
    buff[2], buff[3] := (next / 256) as bv8, (next % 256) as bv8;
    buff[13] := buff[13] & 0x7f;
    if !last {
      assert buff[..14] == h[2 := (next / 256) as bv8][3 := (next % 256) as bv8] + [ind, FuHeader(kind, false, false)];
    }
  }

  ghost predicate SendableNals(nals: seq<seq<byte>>) {
    forall i :: 0 <= i < |nals| ==> nals[i] != [] && FitsBuffer(nals[i])
  }

  class RtpSend {
    const sock: UdpSocket
    var seqno: nat
    const ptype: byte
    const ssrc: bv32
    const pending_buff: array<byte>
    var pending_len: nat
    ghost const baseline: nat   // packets already on the socket when the context was opened

    ghost predicate Valid()
      reads this, sock
    {
      pending_buff.Length == CAPACITY && pending_len <= CAPACITY && Numbering()
    }

    /** Packet k of the session carries number k + 1 modulo 65536. */
    ghost predicate NumberedThrough(sent: seq<seq<byte>>) {
      forall k :: baseline <= k < |sent| ==>
        |sent[k]| >= RTP_HEADLEN && SeqNoOf(sent[k]) == NextSeq(1, k - baseline)
    }

    /** So do the packets on the socket, and `seqno` is the next number. */
    ghost predicate Numbering()
      reads this`seqno, sock
    {
      && baseline <= |sock.sent|
      && seqno == NextSeq(1, |sock.sent| - baseline)
      && NumberedThrough(sock.sent)
    }

    ghost function Pending(): seq<byte>
      requires pending_len <= pending_buff.Length
      reads this`pending_len, pending_buff
    {
      pending_buff[..pending_len]
    }

    function Settings(): Params {
      Params(ptype, ssrc)
    }

    constructor (ssrc: bv32, ptype: byte, sock: UdpSocket)
      ensures Valid() && Pending() == [] && fresh(pending_buff)
      ensures this.sock == sock && Settings() == Params(ptype, ssrc) && baseline == |sock.sent| && seqno == 1
    {
      this.sock, this.ssrc, this.ptype := sock, ssrc, ptype;
      seqno, pending_len := 1, 0;
      pending_buff := new byte[CAPACITY](_ => 0);
      baseline := |sock.sent|;
    }

    lemma StillNumbered(before: seq<seq<byte>>, more: seq<seq<byte>>, ts: bv32)
      requires baseline <= |before| && NumberedThrough(before)
      requires Numbered(more, NextSeq(1, |before| - baseline), ts)
      ensures NumberedThrough(before + more)
    {
      var after := before + more;
      forall k | baseline <= k < |after|
        ensures |after[k]| >= RTP_HEADLEN && SeqNoOf(after[k]) == NextSeq(1, k - baseline)
      {
        if k >= |before| {
          assert after[k] == more[k - |before|];
          assert Carries(more[k - |before|], NextSeq(NextSeq(1, |before| - baseline), k - |before|), ts);
          NextSeqAdds(1, |before| - baseline, k - |before|);
        }
      }
    }

    /** Sends one NAL unit whole or in fragments, up to the first packet the network refuses. */
    method SendNal(data: array<byte>, nal: nat, datalen: nat, ts: bv32) returns (r: int)
      requires Numbering() && 0 < datalen && nal + datalen <= data.Length
      requires FitsBuffer(data[nal..nal + datalen])
      modifies this`seqno, sock
      ensures Numbering()
      ensures SentUpTo(PacketsOf(Settings(), old(seqno), ts, data[nal..nal + datalen]), old(sock.sent), sock.sent, r)
      ensures seqno == NextSeq(old(seqno), |sock.sent| - |old(sock.sent)|)
      ensures sock.lossless ==> r == 0
    {
      r := Packetize(data, nal, datalen, ts);
      NumberingKept(old(sock.sent), sock.sent, old(seqno), ts, data[nal..nal + datalen], r);
    }

    method Packetize(data: array<byte>, nal: nat, datalen: nat, ts: bv32) returns (r: int)
      requires seqno < 65536 && 0 < datalen && nal + datalen <= data.Length
      requires FitsBuffer(data[nal..nal + datalen])
      modifies this`seqno, sock
      ensures SentUpTo(PacketsOf(Settings(), old(seqno), ts, data[nal..nal + datalen]), old(sock.sent), sock.sent, r)
      ensures seqno == NextSeq(old(seqno), |sock.sent| - |old(sock.sent)|)
      ensures sock.lossless ==> r == 0
    {
      var buff := new byte[PACKET_BUFFER];
      PutHeader(buff, ptype, seqno, ts, ssrc);
      var single := ChooseMode(buff, data, nal, datalen, ts);
      if single {
        r := SendWhole(buff, data, nal, datalen, ts);
      } else {
        r := SendFragments(buff, data, nal, datalen, ts);
      }
    }

    /** The switch over the NAL unit type: parameter sets get the marker bit, others may be fragmented. */
    method ChooseMode(buff: array<byte>, data: array<byte>, nal: nat, datalen: nat, ghost ts: bv32)
      returns (single: bool)
      requires buff != data && buff.Length == PACKET_BUFFER && seqno < 65536
      requires 0 < datalen && nal + datalen <= data.Length
      requires buff[..RTP_HEADLEN] == Header(ptype, seqno, ts, ssrc)
      modifies buff
      ensures single == SentWhole(data[nal..nal + datalen])
      ensures buff[..RTP_HEADLEN]
           == Header(WithMarker(ptype, IsParameter(data[nal..nal + datalen])), seqno, ts, ssrc)
    {
      hide Header;
      single := true;
      var kind := data[nal] & 0x1f;
      if kind == 7 || kind == 8 || kind == 6 || kind == 9 {
        SetMarker(buff, ptype, seqno, ts, ssrc);
      } else if datalen > FRAGMENT {
        single := false;
      }
    }

    lemma NumberingKept(before: seq<seq<byte>>, after: seq<seq<byte>>, s: nat, ts: bv32, unit: seq<byte>, r: int)
      requires unit != [] && baseline <= |before| && s == NextSeq(1, |before| - baseline)
      requires SentUpTo(PacketsOf(Settings(), s, ts, unit), before, after, r)
      requires NumberedThrough(before)
      ensures NumberedThrough(after)
      ensures NextSeq(s, |after| - |before|) == NextSeq(1, |after| - baseline)
    {
      assert s < 65536;
      hide NextSeq, PacketsOf, NumberedThrough, Numbered;
      var ps, n := PacketsOf(Settings(), s, ts, unit), |after| - |before|;
      PacketsNumbered(Settings(), s, ts, unit);
      NumberedPrefix(ps, n, s, ts);
      StillNumbered(before, ps[..n], ts);
      NextSeqAdds(1, |before| - baseline, |after| - |before|);
    }

    method SendWhole(buff: array<byte>, data: array<byte>, nal: nat, datalen: nat, ts: bv32) returns (r: int)
      requires buff != data && buff.Length == PACKET_BUFFER && seqno < 65536
      requires 0 < datalen && nal + datalen <= data.Length
      requires SentWhole(data[nal..nal + datalen]) && FitsBuffer(data[nal..nal + datalen])
      requires buff[..RTP_HEADLEN] == Header(WithMarker(ptype, IsParameter(data[nal..nal + datalen])), seqno, ts, ssrc)
      modifies this`seqno, sock, buff
      ensures SentUpTo(PacketsOf(Settings(), old(seqno), ts, data[nal..nal + datalen]), old(sock.sent), sock.sent, r)
      ensures seqno == NextSeq(old(seqno), |sock.sent| - |old(sock.sent)|)
      ensures sock.lossless ==> r == 0
    {
      CopyInto(buff, RTP_HEADLEN, data, nal, datalen);
      ghost var ps := PacketsOf(Settings(), seqno, ts, data[nal..nal + datalen]);
      assert buff[..RTP_HEADLEN + datalen] == ps[0];
      var n := sock.SendTo(buff, RTP_HEADLEN + datalen);
      if n < 0 {
        r := -1;
      } else {
        seqno := (seqno + 1) % 65536;
        r := 0;
      }
    }

    method SendFragments(buff: array<byte>, data: array<byte>, nal: nat, datalen: nat, ts: bv32) returns (r: int)
      requires buff != data && buff.Length == PACKET_BUFFER && seqno < 65536
      requires 1 < datalen && nal + datalen <= data.Length
      requires !SentWhole(data[nal..nal + datalen])
      requires buff[..RTP_HEADLEN] == Header(ptype, seqno, ts, ssrc)
      modifies this`seqno, sock, buff
      ensures SentUpTo(PacketsOf(Settings(), old(seqno), ts, data[nal..nal + datalen]), old(sock.sent), sock.sent, r)
      ensures seqno == NextSeq(old(seqno), |sock.sent| - |old(sock.sent)|)
      ensures sock.lossless ==> r == 0
    {
      hide Header, Fragments, FuHeader;
      ghost var unit := data[nal..nal + datalen];
      ghost var ind, kind := (unit[0] & 0x60) | FU_A, unit[0] & 0x1f;
      PutFuBytes(buff, data[nal]);
      KindBits(unit[0]);
      assert data[nal + 1..nal + 1 + (datalen - 1)] == unit[1..];
      r := FragmentLoop(buff, data, nal + 1, datalen - 1, ts, ind, kind);
    }

    /** The FU indicator and the FU header of the first fragment. */
    method PutFuBytes(buff: array<byte>, first: byte)
      requires buff.Length == PACKET_BUFFER
      modifies buff
      ensures buff[..14] == old(buff[..RTP_HEADLEN]) + [(first & 0x60) | FU_A, FuHeader(first & 0x1f, true, false)]
    {
      buff[12] := (first & 0x60) | (28 & 0x1f);
      buff[13] := first & 0x1f;
      buff[13] := buff[13] | 0x80;
    }

    lemma KindBits(first: byte)
      ensures (first & 0x1f) & 0x1f == first & 0x1f
    {
    }

    /** The fragment loop, from the first fragment on: `data` and `datalen` already skip the NAL header byte. */
    method FragmentLoop(buff: array<byte>, data: array<byte>, start: nat, datalen: nat, ts: bv32, ghost ind: byte,
                        ghost kind: byte)
      returns (r: int)
      requires buff != data && buff.Length == PACKET_BUFFER && seqno < 65536 && start + datalen <= data.Length
      requires kind & 0x1f == kind
      requires buff[..14] == Header(ptype, seqno, ts, ssrc) + [ind, FuHeader(kind, true, false)]
      modifies this`seqno, sock, buff
      ensures SentUpTo(Fragments(Settings(), old(seqno), ts, ind, kind, data[start..start + datalen], true),
                       old(sock.sent), sock.sent, r)
      ensures seqno == NextSeq(old(seqno), |sock.sent| - |old(sock.sent)|)
      ensures sock.lossless ==> r == 0
    {
      hide Fragments, Header;
      ghost var before, first := sock.sent, seqno;
      NoFragments(Settings(), seqno, ts, ind, kind, data[start..start + datalen], true);
      ghost var all := Fragments(Settings(), seqno, ts, ind, kind, data[start..start + datalen], true);
      ghost var tail, done, initial := all, 0, true;
      var at, left := start, datalen;
      while left > 0
        invariant 0 <= left && at + left == start + datalen
        invariant done + |tail| == |all| && tail == all[done..]
        invariant |sock.sent| == |before| + done && sock.sent == before + all[..done]
        invariant seqno == NextSeq(first, done)
        invariant ReadyFor(buff, data, at, left, ts, ind, kind, tail, initial)
      {
        var len := if left < FRAGMENT then left else FRAGMENT;
        var n := SendNext(buff, data, at, left, len, ts, ind, kind, tail, initial);
        if n < 0 {
          return -1;
        }
        NextSeqAdds(first, done, 1);
        assert all[..done] + [tail[0]] == all[..done + 1];
        tail, done, initial := tail[1..], done + 1, false;
        at, left := at + len, left - len;
      }
      return 0;
    }

    /** `tail` are the packets still to come, and the buffer's headers are ready for the first of them. */
    ghost predicate ReadyFor(buff: array<byte>, data: array<byte>, at: nat, left: nat, ts: bv32,
                             ind: byte, kind: byte, tail: seq<seq<byte>>, start: bool)
      reads this`seqno, buff, data
    {
      && buff.Length == PACKET_BUFFER && seqno < 65536 && at + left <= data.Length
      && tail == Fragments(Settings(), seqno, ts, ind, kind, data[at..at + left], start)
      && (left > 0 ==> buff[..14] == Header(ptype, seqno, ts, ssrc) + [ind, FuHeader(kind, start, false)])
      && (left == 0 <==> tail == [])
    }

    method SendNext(buff: array<byte>, data: array<byte>, at: nat, left: nat, len: nat, ts: bv32,
                    ghost ind: byte, ghost kind: byte, ghost tail: seq<seq<byte>>, ghost start: bool) returns (n: int)
      requires buff != data && 0 < left && kind & 0x1f == kind
      requires len == if left < FRAGMENT then left else FRAGMENT
      requires ReadyFor(buff, data, at, left, ts, ind, kind, tail, start)
      modifies this`seqno, sock, buff
      ensures tail != []
      ensures n < 0 ==> sock.sent == old(sock.sent) && seqno == old(seqno)
      ensures n >= 0 ==>
                && sock.sent == old(sock.sent) + [tail[0]] && seqno == NextSeq(old(seqno), 1)
                && ReadyFor(buff, data, at + len, left - len, ts, ind, kind, tail[1..], false)
      ensures sock.lossless ==> n >= 0
    {
      hide Header;
      ghost var rest := data[at..at + left];
      NoFragments(Settings(), NextSeq(seqno, 1), ts, ind, kind, rest[len..], false);
      assert rest[..len] == data[at..at + len] && rest[len..] == data[at + len..at + len + (left - len)];
      n := SendFragment(buff, data, at, len, len == left, ts, ind, kind, start);
    }

    /** One pass of the loop: copy, flag the last fragment, send, number the next, clear the Start bit. */
    method SendFragment(buff: array<byte>, data: array<byte>, at: nat, len: nat, last: bool, ts: bv32,
                        ghost ind: byte, ghost kind: byte, ghost start: bool) returns (n: int)
      requires buff != data && buff.Length == PACKET_BUFFER && seqno < 65536
      requires at + len <= data.Length && len <= FRAGMENT
      requires kind & 0x1f == kind
      requires buff[..14] == Header(ptype, seqno, ts, ssrc) + [ind, FuHeader(kind, start, false)]
      modifies this`seqno, sock, buff
      ensures n < 0 ==> sock.sent == old(sock.sent) && seqno == old(seqno)
      ensures n >= 0 ==>
                && sock.sent == old(sock.sent) + [Header(WithMarker(ptype, last), old(seqno), ts, ssrc)
                                                  + [ind, FuHeader(kind, start, last)] + data[at..at + len]]
                && seqno == NextSeq(old(seqno), 1)
                && (!last ==> buff[..14] == Header(ptype, seqno, ts, ssrc) + [ind, FuHeader(kind, false, false)])
      ensures sock.lossless ==> n >= 0
    {
      hide Header, FuHeader;
      PutFragment(buff, data, at, len, last, ts, ind, kind, start);
      n := sock.SendTo(buff, RTP_HEADLEN + 2 + len);
      if n >= 0 {
        seqno := (seqno + 1) % 65536;
        NumberNext(buff, WithMarker(ptype, last), old(seqno), seqno, ts, ssrc, ind, kind, start, last);
      }
    }

    /** The payload behind the two headers, and the flags of the last fragment. */
    method PutFragment(buff: array<byte>, data: array<byte>, at: nat, len: nat, last: bool, ghost ts: bv32,
                       ghost ind: byte, ghost kind: byte, ghost start: bool)
      requires buff != data && buff.Length == PACKET_BUFFER && seqno < 65536
      requires at + len <= data.Length && len <= FRAGMENT
      requires buff[..14] == Header(ptype, seqno, ts, ssrc) + [ind, FuHeader(kind, start, false)]
      modifies buff
      ensures buff[..14] == Header(WithMarker(ptype, last), seqno, ts, ssrc) + [ind, FuHeader(kind, start, last)]
      ensures buff[..14 + len] == buff[..14] + data[at..at + len]
    {
      hide Header, FuHeader;
      CopyInto(buff, 14, data, at, len);
      assert buff[14..14 + len] == buff[14..][..len];
      if last {
        FlagLast(buff, ptype, seqno, ts, ssrc, ind, kind, start);
      }
      assert buff[14..14 + len] == buff[14..][..len] == data[at..at + len];
      FrontAndMiddle(buff, 14, 14 + len);
    }

    /** The NAL units handed over since `start` numbers are on the wire, each up to its first refused packet. */
    ghost predicate Delivered(ts: bv32, first: nat, nals: seq<seq<byte>>, sent: seq<seq<byte>>) {
      && LossyTrain(Packetizer(Settings(), ts), first, nals, sent)
      && (sock.lossless ==> sent == Train(Packetizer(Settings(), ts), first, nals))
    }

    lemma DeliveredMore(ts: bv32, first: nat, nals: seq<seq<byte>>, sent: seq<seq<byte>>, nal: seq<byte>,
                        before: seq<seq<byte>>, after: seq<seq<byte>>, r: int)
      requires first < 65536 && nal != [] && Delivered(ts, first, nals, sent)
      requires SentUpTo(PacketsOf(Settings(), NextSeq(first, |sent|), ts, nal), before + sent, after, r)
      requires sock.lossless ==> r == 0
      ensures |before| + |sent| <= |after| && after[..|before|] == before
      ensures Delivered(ts, first, nals + [nal], after[|before|..])
    {
      hide LossyTrain, Train, PacketsOf;
      var f := Packetizer(Settings(), ts);
      var ps := f(NextSeq(first, |sent|), nal);
      var k := |after| - |before + sent|;
      assert after[|before|..] == sent + ps[..k];
      LossyTrainMore(f, first, nals, sent, nal, k, ps[..k]);
      TrainOneMore(f, first, nals, nal);
      assert r == 0 ==> ps[..k] == ps;
    }

    /** The zeros before a start code at `i` do not belong to the NAL unit that began at `nal`. */
    method TrimZeros(nal: nat, i: nat) returns (nallen: nat)
      requires nal <= i <= pending_buff.Length
      ensures nal + nallen <= i
      ensures StripZeros(pending_buff[nal..i]) == pending_buff[nal..nal + nallen]
    {
      var pre0 := 0;
      while nal < i - pre0 && pending_buff[i - pre0 - 1] == 0
        invariant 0 <= pre0 <= i - nal
        invariant StripZeros(pending_buff[nal..i]) == StripZeros(pending_buff[nal..i - pre0])
      {
        assert pending_buff[nal..i - pre0][..i - pre0 - nal - 1] == pending_buff[nal..i - (pre0 + 1)];
        pre0 := pre0 + 1;
      }
      nallen := i - nal - pre0;
    }

    /** What holds between two NAL units of one call. */
    ghost predicate Sending(before: seq<seq<byte>>, first: nat, ts: bv32, out: seq<seq<byte>>)
      reads this`seqno, sock
    {
      && Numbering() && first < 65536
      && |before| <= |sock.sent| && sock.sent[..|before|] == before
      && seqno == NextSeq(first, |sock.sent| - |before|)
      && Delivered(ts, first, out, sock.sent[|before|..])
    }

    lemma SendingMore(before: seq<seq<byte>>, first: nat, ts: bv32, out: seq<seq<byte>>, mid: seq<seq<byte>>,
                      s: nat, unit: seq<byte>, r: int)
      requires Numbering() && first < 65536 && unit != []
      requires |before| <= |mid| && mid[..|before|] == before && s == NextSeq(first, |mid| - |before|)
      requires Delivered(ts, first, out, mid[|before|..])
      requires SentUpTo(PacketsOf(Settings(), s, ts, unit), mid, sock.sent, r)
      requires seqno == NextSeq(s, |sock.sent| - |mid|) && (sock.lossless ==> r == 0)
      ensures Sending(before, first, ts, out + [unit])
    {
      hide PacketsOf, NextSeq, SeqNoOf, Delivered, SentUpTo;
      assert mid == before + mid[|before|..];
      DeliveredMore(ts, first, out, mid[|before|..], unit, before, sock.sent, r);
      NextSeqAdds(first, |mid| - |before|, |sock.sent| - |mid|);
    }

    /** Sends the NAL unit between `nal` and the start code at `i`, if there is any. */
    method EmitNal(nal: nat, i: nat, ts: bv32, ghost first: nat, ghost before: seq<seq<byte>>,
                   ghost out: seq<seq<byte>>)
      requires Sending(before, first, ts, out)
      requires nal <= i <= pending_buff.Length
      requires var unit := StripZeros(pending_buff[nal..i]); unit != [] ==> FitsBuffer(unit)
      modifies this`seqno, sock
      ensures Sending(before, first, ts, out + UnlessEmpty(StripZeros(pending_buff[nal..i])))
    {
      hide StripZeros, Delivered, PacketsOf, NumberedThrough;
      var nallen := TrimZeros(nal, i);
      ghost var unit := StripZeros(pending_buff[nal..i]);
      if nallen > 0 {
        var r := SendNal(pending_buff, nal, nallen, ts);
        SendingMore(before, first, ts, out, old(sock.sent), old(seqno), unit, r);
      } else {
        assert out + UnlessEmpty(unit) == out;
      }
    }

    /** A start code at `i`: the NAL unit before it goes out. `s` are the pending bytes. */
    method CutAtCode(nal: nat, i: nat, ts: bv32, ghost before: seq<seq<byte>>, ghost first: nat, ghost cut: Cut,
                     ghost out: seq<seq<byte>>, ghost s: seq<byte>) returns (ghost out': seq<seq<byte>>)
      requires Sending(before, first, ts, out) && SendableNals(cut.nals)
      requires pending_len <= pending_buff.Length && s == Pending() && i + 3 < |s|
      requires LoopState(cut, out, s, nal, i) && CodeAt(s, i)
      modifies this`seqno, sock
      ensures Sending(before, first, ts, out') && LoopState(cut, out', s, i + 3, i + 3)
    {
      hide Scan, StripZeros, Sending;
      LoopCuts(cut, out, s, nal, i);
      ghost var unit := StripZeros(s[nal..i]);
      out' := out + UnlessEmpty(unit);
      assert unit != [] ==> FitsBuffer(unit);
      assert s[nal..i] == pending_buff[nal..i];
      EmitNal(nal, i, ts, first, before, out);
    }

    /** One pass of the scan loop at position `i`, inside the NAL unit that began at `nal`. */
    method ScanStep(nal: nat, i: nat, ts: bv32, ghost before: seq<seq<byte>>, ghost first: nat, ghost cut: Cut,
                    ghost out: seq<seq<byte>>, ghost s: seq<byte>)
      returns (nal': nat, i': nat, ghost out': seq<seq<byte>>)
      requires Sending(before, first, ts, out) && SendableNals(cut.nals)
      requires pending_len <= pending_buff.Length && s == Pending()
      requires i + 3 < |s| && LoopState(cut, out, s, nal, i)
      modifies this`seqno, sock
      ensures Sending(before, first, ts, out')
      ensures i < i' <= |s| && nal' < |s| && LoopState(cut, out', s, nal', i')
    {
      hide Scan, Sending;
      assert s[i] == pending_buff[i] && s[i + 1] == pending_buff[i + 1] && s[i + 2] == pending_buff[i + 2];
      if pending_buff[i] != 0 || pending_buff[i + 1] != 0 || pending_buff[i + 2] != 1 {
        assert !CodeAt(s, i);
        LoopSkips(cut, out, s, nal, i);
        nal', i', out' := nal, i + 1, out;
      } else {
        out' := CutAtCode(nal, i, ts, before, first, cut, out, s);
        nal' := i + 3;
        i' := nal';
      }
    }

    /** The scan loop: sends every NAL unit before a start code; `nal` is where the bytes to keep begin. */
    method ScanLoop(begin: nat, ts: bv32, ghost cut: Cut) returns (nal: nat)
      requires Numbering() && 3 <= pending_len <= pending_buff.Length
      requires cut == Scan(Pending(), begin) && SendableNals(cut.nals)
      modifies this`seqno, sock
      ensures Sending(old(sock.sent), old(seqno), ts, cut.nals)
      ensures nal < pending_len && cut.rest == pending_buff[nal..pending_len]
    {
      ghost var before, first, s := sock.sent, seqno, Pending();
      ghost var out: seq<seq<byte>> := [];
      assert sock.sent[|before|..] == [];
      LoopStarts(s, begin);
      nal := 0;
      var i := begin;
      while i + 3 < pending_len
        invariant Sending(before, first, ts, out)
        invariant Pending() == s
        invariant LoopState(cut, out, s, nal, i) && nal < |s|
        decreases pending_len - i
      {
        nal, i, out := ScanStep(nal, i, ts, before, first, cut, out, s);
      }
      LoopEnds(cut, out, s, nal, i);
      assert s[nal..] == pending_buff[nal..pending_len];
    }

    /** The bytes behind the last start code move to the front of the buffer. */
    method KeepRest(nal: nat)
      requires nal < pending_len <= pending_buff.Length
      modifies this`pending_len, pending_buff
      ensures pending_len <= pending_buff.Length && Pending() == old(pending_buff[nal..pending_len])
    {
      var n := pending_len;
      assert pending_buff[nal..nal + (n - nal)] == pending_buff[nal..n];
      if nal > 0 && n - nal > 0 {
        CopyInto(pending_buff, 0, pending_buff, nal, n - nal);
        pending_len := n - nal;
      }
    }

    method ScanAndSend(begin: nat, ts: bv32, ghost cut: Cut)
      requires Numbering() && 3 <= pending_len <= pending_buff.Length
      requires cut == Scan(Pending(), begin) && SendableNals(cut.nals)
      modifies this`seqno, this`pending_len, sock, pending_buff
      ensures Sending(old(sock.sent), old(seqno), ts, cut.nals)
      ensures 0 < pending_len <= pending_buff.Length && Pending() == cut.rest
    {
      var nal := ScanLoop(begin, ts, cut);
      KeepRest(nal);
    }

    /** The first call: looks for a start code and keeps what follows it; `found` when there is one. */
    method Synchronize(data: array<byte>, datalen: nat) returns (found: bool)
      requires pending_len == 0 && pending_buff.Length == CAPACITY && data != pending_buff
      requires 3 <= datalen <= data.Length
      requires var k := FindHit(data[..datalen], 0); k < datalen ==> datalen - k - 3 <= CAPACITY
      modifies this`pending_len, pending_buff
      ensures pending_len <= pending_buff.Length
      ensures var k := FindHit(data[..datalen], 0);
              && found == (k < datalen)
              && Pending() == if found then data[..datalen][k + 3..] else []
    {
      ghost var d := data[..datalen];
      var i := 0;
      while i < datalen - 3
        invariant i <= datalen - 3
        invariant forall j :: 0 <= j < i ==> !HitAt(d, j)
      {
        if data[i] == 0 && data[i + 1] == 0 && data[i + 2] == 1 {
          assert HitAt(d, i);
          FindHitUnique(d, 0, i);
          i := i + 3;
          CopyInto(pending_buff, 0, data, i, datalen - i);
          pending_len := datalen - i;
          assert d[i..] == data[i..datalen];
          return true;
        }
        i := i + 1;
      }
      FindHitUnique(d, 0, datalen);
      return false;
    }

    method Append(data: array<byte>, datalen: nat)
      requires pending_len + datalen <= pending_buff.Length && datalen <= data.Length && data != pending_buff
      modifies this`pending_len, pending_buff
      ensures pending_len <= pending_buff.Length && Pending() == old(Pending()) + data[..datalen]
    {
      CopyInto(pending_buff, pending_len, data, 0, datalen);
      pending_len := pending_len + datalen;
    }

    lemma NothingSent(ts: bv32)
      requires Numbering()
      ensures Sending(sock.sent, seqno, ts, [])
    {
      assert sock.sent[|sock.sent|..] == [];
    }

    lemma FirstCall(d: seq<byte>)
      ensures var k := FindHit(d, 0); Feed([], d) == if k == |d| then Cut([], []) else Scan(d[k + 3..], 0)
    {
    }

    /** One camera buffer: everything up to its last start code is sent, the rest waits for the next call. */
    method AvcAnalyzeAndSend(data: array<byte>, datalen: nat, ts: bv32) returns (r: int)
      requires Valid() && data != pending_buff && datalen <= data.Length
      requires CallDefined(Pending(), data[..datalen])
      modifies this`seqno, this`pending_len, sock, pending_buff
      ensures Valid()
      ensures Pending() == Feed(old(Pending()), data[..datalen]).rest
      ensures old(Pending()) != [] ==> Pending() != []
      ensures Sending(old(sock.sent), old(seqno), ts, Feed(old(Pending()), data[..datalen]).nals)
    {
      hide Scan, FindHit, OneShot, Sending;
      ghost var p, d := Pending(), data[..datalen];
      ghost var cut := Feed(p, d);
      var begin := 0;
      if pending_len == 0 {
        FirstCall(d);
        var found := Synchronize(data, datalen);
        if !found {
          NothingSent(ts);
          return 0;
        }
      } else {
        begin := if pending_len < 2 then 0 else pending_len - 2;
        assert |p| == pending_len;
        Append(data, datalen);
      }
      ScanAndSend(begin, ts, cut);
      return 0;
    }
  }
}
