/** The receiving side: the unpacker, and one pass of the receive loop with its sequence-gap test. */
module RtpReceiver {
  import opened Sequences
  import opened AnnexB
  import opened PacketTrain
  import opened RtpPackets

  class VideoFrame {
    var seq_no: nat
    var timestamp: bv32
    var flag: byte
    var nal: byte
    var frametype: byte

    constructor ()
      ensures seq_no == 0
    {
      seq_no, timestamp, flag, nal, frametype := 0, 0, 0, 0, 0;
    }
  }

  method PutStartCode(bufout: array<byte>)
    requires bufout.Length >= 4
    modifies bufout
    ensures bufout[..4] == FOUR_BYTE_CODE
  {
    bufout[0], bufout[1], bufout[2], bufout[3] := 0, 0, 0, 1;
  }

  /**
   * One RTP packet of `len` bytes in `bufIn` to the bytes of the decoder's stream. Each branch copies as many bytes
   * as the program does: behind a Start fragment that is five more than arrived.
   */
  method UnpackRTPH264(bufIn: array<byte>, len: int, bufout: array<byte>, videoframe: VideoFrame) returns (outlen: int)
    requires bufIn != bufout && Unpackable(bufIn[..], len) && 5 <= bufout.Length && len - 4 <= bufout.Length
    modifies bufout, videoframe
    ensures len < RTP_HEADLEN ==>
              && outlen == -1 && bufout[..] == old(bufout[..]) && unchanged(videoframe)
    ensures len >= RTP_HEADLEN ==>
              && 0 <= outlen <= bufout.Length
              && bufout[..outlen] == Unpacked(bufIn[..], len)
              && videoframe.seq_no == SeqNoOf(bufIn[..]) && videoframe.timestamp == TimestampOf(bufIn[..])
              && videoframe.nal == bufIn[12] & 0x1f && videoframe.flag == bufIn[13] & 0xe0
              && videoframe.frametype == bufIn[13] & 0x1f
  {
    if len < RTP_HEADLEN {
      return -1;
    }
    FillFrame(bufIn, videoframe);
    outlen := UnpackPayload(bufIn, len, bufout);
  }

  method FillFrame(bufIn: array<byte>, videoframe: VideoFrame)
    requires 14 <= bufIn.Length
    modifies videoframe
    ensures videoframe.seq_no == SeqNoOf(bufIn[..]) && videoframe.timestamp == TimestampOf(bufIn[..])
    ensures videoframe.nal == bufIn[12] & 0x1f && videoframe.flag == bufIn[13] & 0xe0
    ensures videoframe.frametype == bufIn[13] & 0x1f
  {
    videoframe.seq_no := (bufIn[2] as int) * 256 + bufIn[3] as int;
    videoframe.timestamp :=
      ((bufIn[4] as bv32) << 24) | ((bufIn[5] as bv32) << 16) | ((bufIn[6] as bv32) << 8) | (bufIn[7] as bv32);
    videoframe.flag, videoframe.nal, videoframe.frametype := bufIn[13] & 0xe0, bufIn[12] & 0x1f, bufIn[13] & 0x1f;
  }

  method UnpackPayload(bufIn: array<byte>, len: int, bufout: array<byte>) returns (outlen: int)
    requires bufIn != bufout && RTP_HEADLEN <= len && Unpackable(bufIn[..], len)
    requires 5 <= bufout.Length && len - 4 <= bufout.Length
    modifies bufout
    ensures 0 <= outlen <= bufout.Length && bufout[..outlen] == Unpacked(bufIn[..], len)
  {
    var head1, head2 := bufIn[12], bufIn[13];
    var nal, flag := head1 & 0x1f, head2 & 0xe0;
    var nal_fua := (head1 & 0xe0) | (head2 & 0x1f);
    ghost var buf := bufIn[..];
    if nal == FU_A {
      if flag == 0x80 {
        assert buf[14..] == bufIn[14..];
        outlen := UnpackStart(bufIn, len, bufout, nal_fua);
      } else {
        assert buf[14..len] == bufIn[14..len];
        outlen := UnpackMiddle(bufIn, len, bufout);
      }
    } else {
      assert buf[12..len] == bufIn[12..len];
      outlen := UnpackSingle(bufIn, len, bufout);
    }
  }

  method UnpackSingle(bufIn: array<byte>, len: nat, bufout: array<byte>) returns (outlen: nat)
    requires bufIn != bufout && RTP_HEADLEN <= len <= bufIn.Length && len - 8 <= bufout.Length && 4 <= bufout.Length
    modifies bufout
    ensures outlen == len - 8 && bufout[..outlen] == FOUR_BYTE_CODE + bufIn[12..len]
  {
    PutStartCode(bufout);
    CopyInto(bufout, 4, bufIn, 12, len - RTP_HEADLEN);
    outlen := len - RTP_HEADLEN + 4;
    assert bufout[..outlen] == bufout[..4] + bufout[4..4 + (len - RTP_HEADLEN)];
  }

  /** Middle and End fragments alike. */
  method UnpackMiddle(bufIn: array<byte>, len: nat, bufout: array<byte>) returns (outlen: nat)
    requires bufIn != bufout && 14 <= len <= bufIn.Length && len - 14 <= bufout.Length
    modifies bufout
    ensures outlen == len - 14 && bufout[..outlen] == bufIn[14..len]
  {
    outlen := len - RTP_HEADLEN - 2;
    CopyInto(bufout, 0, bufIn, 14, outlen);
    assert bufout[..outlen] == bufout[0..0 + outlen];
  }

  method UnpackStart(bufIn: array<byte>, len: nat, bufout: array<byte>, nal_fua: byte) returns (outlen: nat)
    requires bufIn != bufout && RTP_HEADLEN <= len && len + 5 <= bufIn.Length
    requires 5 <= bufout.Length && len - 4 <= bufout.Length
    modifies bufout
    ensures outlen == len - 9 <= bufout.Length
    ensures bufout[..outlen] == (FOUR_BYTE_CODE + [nal_fua] + bufIn[14..])[..outlen]
  {
    PutStartCode(bufout);
    bufout[4] := nal_fua;
    outlen := len - RTP_HEADLEN - 2 + 5;
    ghost var front := bufout[..5];
    assert front == FOUR_BYTE_CODE + [nal_fua];
    CopyInto(bufout, 5, bufIn, 14, outlen);
    FrontAndMiddle(bufout, 5, 5 + outlen);
    FrontOfFront(bufout, outlen, 5 + outlen);
    ghost var rest := bufIn[14..];
    assert rest[..outlen] == bufIn[14..14 + outlen];
    assert bufout[..5 + outlen] == front + rest[..outlen];
    FrontOfConcat(front, rest, outlen);
  }

  // ---------------------------------------------------------------- the receive loop

  /** The loop reports a gap. */
  predicate GapReported(last: nat, seqno: nat) {
    seqno != 0 && seqno != last + 1
  }

  /** A datagram the loop can take: too short for a header, or one the unpacker stays inside its buffers with. */
  predicate Takeable(datagram: seq<byte>) {
    |datagram| < RTP_HEADLEN || Receivable(datagram)
  }

  ghost predicate AllTakeable(datagrams: seq<seq<byte>>) {
    forall i :: 0 <= i < |datagrams| ==> Takeable(datagrams[i])
  }

  /** The bytes a datagram adds to the decoder's stream; for a short one the decoder is called with -1 bytes. */
  function Given(datagram: seq<byte>): seq<byte>
    requires Takeable(datagram)
  {
    if |datagram| < RTP_HEADLEN then [] else Decoded(datagram)
  }

  ghost function GivenAll(datagrams: seq<seq<byte>>): seq<byte>
    requires AllTakeable(datagrams)
  {
    if datagrams == [] then [] else Given(datagrams[0]) + GivenAll(datagrams[1..])
  }

  function Short(datagram: seq<byte>): nat {
    if |datagram| < RTP_HEADLEN then 1 else 0
  }

  ghost function ShortIn(datagrams: seq<seq<byte>>): nat {
    if datagrams == [] then 0 else Short(datagrams[0]) + ShortIn(datagrams[1..])
  }

  /** The number tested after a datagram: a short one leaves that of the packet before. */
  function NumberAfter(last: nat, datagram: seq<byte>): nat {
    if |datagram| < RTP_HEADLEN then last else SeqNoOf(datagram)
  }

  class VideoReceiver {
    const buffer: array<byte>
    const outbuffer: array<byte>
    const videoframe: VideoFrame
    var last_seq_no: nat
    var gaps: nat             // gaps reported so far
    var decoder: seq<byte>    // what the decoder was given so far
    var refused: nat          // calls of the decoder with a length of -1

    ghost predicate Valid()
      reads this, videoframe
    {
      && buffer.Length == RECV_BUFFER && outbuffer.Length == RECV_BUFFER && buffer != outbuffer
      && videoframe.seq_no == last_seq_no
    }

    constructor ()
      ensures Valid() && fresh(buffer) && fresh(outbuffer) && fresh(videoframe)
      ensures last_seq_no == 0 && gaps == 0 && decoder == [] && refused == 0
    {
      buffer, outbuffer := new byte[RECV_BUFFER], new byte[RECV_BUFFER];
      videoframe := new VideoFrame();
      last_seq_no, gaps, decoder, refused := 0, 0, [], 0;
    }

    /** bzero and recv: the datagram, cut to the buffer's size, with zeros behind it. */
    method Fill(datagram: seq<byte>) returns (recv_len: nat)
      requires buffer.Length == RECV_BUFFER
      modifies buffer
      ensures buffer[..] == Received(datagram) && recv_len == ReceivedLength(datagram)
    {
      forall i | 0 <= i < buffer.Length {
        buffer[i] := 0;
      }
      recv_len := if |datagram| >= buffer.Length then buffer.Length else |datagram|;
      forall i | 0 <= i < recv_len {
        buffer[i] := datagram[i];
      }
    }

    /** One pass of the loop with a datagram that arrived, of whatever length. */
    method ReceivePacket(datagram: seq<byte>)
      requires Valid() && Takeable(datagram)
      modifies this, buffer, outbuffer, videoframe
      ensures Valid()
      ensures decoder == old(decoder) + Given(datagram) && refused == old(refused) + Short(datagram)
      ensures last_seq_no == NumberAfter(old(last_seq_no), datagram)
      ensures gaps == old(gaps) + if GapReported(old(last_seq_no), last_seq_no) then 1 else 0
    {
      var recv_len := Fill(datagram);
      assert |datagram| >= RTP_HEADLEN ==> SeqNoOf(buffer[..]) == SeqNoOf(datagram);
      var outbuffer_len := UnpackRTPH264(buffer, recv_len, outbuffer, videoframe);
      if videoframe.seq_no != 0 && videoframe.seq_no != last_seq_no + 1 {
        gaps := gaps + 1;
      }
      last_seq_no := videoframe.seq_no;
      if outbuffer_len < 0 {
        refused := refused + 1;
        assert decoder + [] == decoder;
      } else {
        decoder := decoder + outbuffer[..outbuffer_len];
      }
    }

    /** What holds after the datagrams `ds` arrived in a state with `decoder0`, `gaps0`, `refused0` and `last0`. */
    ghost predicate After(ds: seq<seq<byte>>, decoder0: seq<byte>, gaps0: nat, refused0: nat, last0: nat)
      reads this
      requires AllTakeable(ds)
    {
      && decoder == decoder0 + GivenAll(ds) && refused == refused0 + ShortIn(ds)
      && gaps == gaps0 + GapsIn(last0, ds)
      && last_seq_no == LastSeq(last0, ds)
    }

    method ReceiveNext(ghost ds: seq<seq<byte>>, d: seq<byte>,
                       ghost decoder0: seq<byte>, ghost gaps0: nat, ghost refused0: nat, ghost last0: nat)
      requires Valid() && AllTakeable(ds) && Takeable(d) && After(ds, decoder0, gaps0, refused0, last0)
      modifies this, buffer, outbuffer, videoframe
      ensures Valid() && AllTakeable(ds + [d]) && After(ds + [d], decoder0, gaps0, refused0, last0)
    {
      hide GivenAll, ShortIn, GapsIn, LastSeq, Given, Takeable;
      OneMoreGiven(ds, d);
      OneMoreGap(last0, ds, d);
      ConcatAssociative(decoder0, GivenAll(ds), Given(d));
      ReceivePacket(d);
    }

    /** Everything a link delivers, in order. */
    method ReceiveAll(datagrams: seq<seq<byte>>)
      requires Valid() && AllTakeable(datagrams)
      modifies this, buffer, outbuffer, videoframe
      ensures Valid()
      ensures decoder == old(decoder) + GivenAll(datagrams) && refused == old(refused) + ShortIn(datagrams)
      ensures gaps == old(gaps) + GapsIn(old(last_seq_no), datagrams)
      ensures last_seq_no == LastSeq(old(last_seq_no), datagrams)
    {
      ghost var decoder0, gaps0, refused0, last0 := decoder, gaps, refused, last_seq_no;
      ghost var ds: seq<seq<byte>> := [];
      assert decoder0 + [] == decoder0;
      var i := 0;
      while i < |datagrams|
        invariant Valid() && 0 <= i <= |datagrams| && ds == datagrams[..i]
        invariant AllTakeable(ds) && After(ds, decoder0, gaps0, refused0, last0)
      {
        ReceiveNext(ds, datagrams[i], decoder0, gaps0, refused0, last0);
        PrefixGrows(datagrams, i);
        ds := datagrams[..i + 1];
        i := i + 1;
      }
      assert ds == datagrams;
    }
  }

  ghost function LastSeq(last: nat, datagrams: seq<seq<byte>>): nat
    decreases |datagrams|
  {
    if datagrams == [] then last else LastSeq(NumberAfter(last, datagrams[0]), datagrams[1..])
  }

  /** How often the loop reports a gap over a list of datagrams. */
  ghost function GapsIn(last: nat, datagrams: seq<seq<byte>>): nat
    decreases |datagrams|
  {
    if datagrams == [] then 0
    else
      var now := NumberAfter(last, datagrams[0]);
      (if GapReported(last, now) then 1 else 0) + GapsIn(now, datagrams[1..])
  }

  lemma {:induction false} OneMoreGiven(ds: seq<seq<byte>>, d: seq<byte>)
    requires AllTakeable(ds) && Takeable(d)
    ensures AllTakeable(ds + [d]) && GivenAll(ds + [d]) == GivenAll(ds) + Given(d)
    ensures ShortIn(ds + [d]) == ShortIn(ds) + Short(d)
  {
    hide Given, Takeable, Short;
    if ds == [] {
      assert [] + [d] == [d] && [d][1..] == [];
      assert Given(d) + [] == Given(d);
    } else {
      assert (ds + [d])[1..] == ds[1..] + [d];
      OneMoreGiven(ds[1..], d);
      ConcatAssociative(Given(ds[0]), GivenAll(ds[1..]), Given(d));
    }
  }

  lemma {:induction false} OneMoreGap(last: nat, ds: seq<seq<byte>>, d: seq<byte>)
    ensures var was := LastSeq(last, ds);
            && LastSeq(last, ds + [d]) == NumberAfter(was, d)
            && GapsIn(last, ds + [d]) == GapsIn(last, ds) + if GapReported(was, NumberAfter(was, d)) then 1 else 0
    decreases |ds|
  {
    hide NumberAfter, GapReported;
    if ds == [] {
      assert [] + [d] == [d] && [d][1..] == [];
    } else {
      assert (ds + [d])[1..] == ds[1..] + [d];
      OneMoreGap(NumberAfter(last, ds[0]), ds[1..], d);
    }
  }

  /** Where no datagram is short, the decoder gets what the packets decode to. */
  lemma {:induction false} GivenIsDecoded(ds: seq<seq<byte>>)
    requires AllReceivable(ds)
    ensures AllTakeable(ds) && GivenAll(ds) == DecodedAll(ds) && ShortIn(ds) == 0
  {
    hide Decoded, Unpackable, Received;
    if ds != [] {
      assert Receivable(ds[0]);
      GivenIsDecoded(ds[1..]);
    }
  }

  /** A datagram too short for a header is reported as a gap unless the packet before carried the number zero. */
  lemma ShortIsReported(last: nat, d: seq<byte>)
    requires |d| < RTP_HEADLEN
    ensures GapReported(last, NumberAfter(last, d)) <==> last != 0
    ensures Given(d) == [] && Short(d) == 1
  {
  }

  lemma NextIsNoGap(last: nat)
    requires last < 65536
    ensures !GapReported(last, NextSeq(last, 1))
  {
  }

  /** Packets numbered through are never reported as a gap, wrap-around included. */
  lemma {:induction false} NoGapInOrder(last: nat, datagrams: seq<seq<byte>>)
    requires last < 65536 && AllReceivable(datagrams)
    requires forall k :: 0 <= k < |datagrams| ==> SeqNoOf(datagrams[k]) == NextSeq(last, 1 + k)
    ensures GapsIn(last, datagrams) == 0
    decreases |datagrams|
  {
    if datagrams != [] {
      var next, later := SeqNoOf(datagrams[0]), datagrams[1..];
      assert next == NextSeq(last, 1);
      NextIsNoGap(last);
      forall k | 0 <= k < |later| ensures SeqNoOf(later[k]) == NextSeq(next, 1 + k) {
        NextSeqAdds(last, 1, 1 + k);
        assert later[k] == datagrams[1 + k];
      }
      NoGapInOrder(next, later);
    }
  }

  /** Packets between k and j were lost, not a multiple of 65536 of them, and j does not carry the number zero. */
  predicate Noticed(k: int, j: nat) {
    (j - k - 1) % 65536 != 0 && NextSeq(1, j) != 0
  }

  /** What the gap test sees when packet j of a session arrives right after packet k, or as the first where k is -1. */
  lemma GapTestExact(k: int, j: nat)
    requires -1 <= k < j
    ensures GapReported(NextSeq(0, k + 1), NextSeq(1, j)) <==> Noticed(k, j)
  {
    var last, now := NextSeq(0, k + 1), NextSeq(1, j);
    assert now == last + 1 ==> (j - k - 1) % 65536 == 0;
    assert (j - k - 1) % 65536 == 0 && now != 0 ==> now == last + 1;
  }
}
