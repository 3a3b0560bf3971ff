/** What the receiver notices of lost packets: any packets of a session may be missing, the others arrive in order. */
module LossyLink {
  import opened Sequences
  import opened AnnexB
  import opened PacketTrain
  import opened RtpPackets
  import opened RtpReceiver
  import opened RtpSender
  import opened VideoLink

  /** The position delivered before the i-th; prev before the first, -1 at the start of a session. */
  function Before(prev: int, ks: seq<nat>, i: nat): int
    requires i < |ks|
  {
    if i == 0 then prev else ks[i - 1]
  }

  /** Positions behind prev, below n and in order: what a link that only loses packets delivers. */
  ghost predicate Rising(prev: int, ks: seq<nat>, n: nat) {
    forall i :: 0 <= i < |ks| ==> Before(prev, ks, i) < ks[i] < n
  }

  lemma RisingTail(prev: int, ks: seq<nat>, n: nat)
    requires Rising(prev, ks, n) && ks != []
    ensures prev < ks[0] < n && Rising(ks[0], ks[1..], n)
  {
    assert Before(prev, ks, 0) == prev;
    forall i | 0 <= i < |ks[1..]| ensures Before(ks[0], ks[1..], i) < ks[1..][i] < n {
      assert Before(prev, ks, i + 1) == Before(ks[0], ks[1..], i);
    }
  }

  /** The packets at those positions. */
  ghost function Delivered(ps: seq<seq<byte>>, prev: int, ks: seq<nat>): seq<seq<byte>>
    requires Rising(prev, ks, |ps|)
    decreases |ks|
  {
    if ks == [] then []
    else
      RisingTail(prev, ks, |ps|);
      [ps[ks[0]]] + Delivered(ps, ks[0], ks[1..])
  }

  /** How many of the losses between delivered packets are noticed. */
  function LossesNoticed(prev: int, ks: seq<nat>): nat
    decreases |ks|
  {
    if ks == [] then 0 else (if Noticed(prev, ks[0]) then 1 else 0) + LossesNoticed(ks[0], ks[1..])
  }

  /** Whatever is lost of packets numbered from 1, the receiver reports exactly the losses that the gap test notices. */
  lemma {:induction false} LossesReported(ps: seq<seq<byte>>, prev: int, ks: seq<nat>)
    requires NumberedFrom(ps, 1) && -1 <= prev && Rising(prev, ks, |ps|)
    ensures GapsIn(NextSeq(0, prev + 1), Delivered(ps, prev, ks)) == LossesNoticed(prev, ks)
    decreases |ks|
  {
    if ks != [] {
      var k, later := ks[0], ks[1..];
      RisingTail(prev, ks, |ps|);
      GapTestExact(prev, k);
      assert SeqNoOf(ps[k]) == NextSeq(1, k);
      var behind := Delivered(ps, k, later);
      assert ([ps[k]] + behind)[1..] == behind;
      hide GapReported, Noticed, SeqNoOf;
      LossesReported(ps, k, later);
    }
  }

  /** A session of the sender over a link that loses any of its packets, and a fresh receiver. */
  lemma SessionLossesReported(c: Params, calls: seq<Call>, ks: seq<nat>)
    requires Rising(-1, ks, |SessionPackets(c, 1, [], calls)|)
    ensures GapsIn(0, Delivered(SessionPackets(c, 1, [], calls), -1, ks)) == LossesNoticed(-1, ks)
  {
    SessionNumbered(c, 1, [], calls);
    LossesReported(SessionPackets(c, 1, [], calls), -1, ks);
  }

  /** The last packet delivered. */
  function LastOf(prev: int, ks: seq<nat>): int {
    if ks == [] then prev else ks[|ks| - 1]
  }

  lemma {:induction false} NoticedInShort(prev: int, ks: seq<nat>, n: nat)
    requires -1 <= prev && Rising(prev, ks, n) && n <= 65535
    ensures LastOf(prev, ks) >= prev + |ks|
    ensures LossesNoticed(prev, ks) == 0 <==> LastOf(prev, ks) == prev + |ks|
    decreases |ks|
  {
    if ks != [] {
      RisingTail(prev, ks, n);
      NoticedInShort(ks[0], ks[1..], n);
      assert LastOf(prev, ks) == LastOf(ks[0], ks[1..]);
      NoticedBelow(prev, ks[0]);
      hide Noticed;
    }
  }

  lemma NoticedBelow(k: int, j: nat)
    requires -1 <= k < j < 65535
    ensures Noticed(k, j) <==> j != k + 1
  {
    assert NextSeq(1, j) == j + 1;
  }

  /**
   * In a session of at most 65535 packets no loss before the last delivered packet goes unnoticed: nothing is reported
   * exactly when as many packets arrived as were sent up to that one.
   */
  lemma ShortSessionLosses(c: Params, calls: seq<Call>, ks: seq<nat>)
    requires |SessionPackets(c, 1, [], calls)| <= 65535
    requires Rising(-1, ks, |SessionPackets(c, 1, [], calls)|)
    ensures GapsIn(0, Delivered(SessionPackets(c, 1, [], calls), -1, ks)) == 0 <==> LastOf(-1, ks) == |ks| - 1
  {
    SessionLossesReported(c, calls, ks);
    NoticedInShort(-1, ks, |SessionPackets(c, 1, [], calls)|);
  }

  lemma {:induction false} NoneNoticed(prev: int, ks: seq<nat>)
    requires forall i :: 0 <= i < |ks| ==> !Noticed(Before(prev, ks, i), ks[i])
    ensures LossesNoticed(prev, ks) == 0
    decreases |ks|
  {
    if ks != [] {
      assert Before(prev, ks, 0) == prev;
      forall i | 0 <= i < |ks[1..]| ensures !Noticed(Before(ks[0], ks[1..], i), ks[1..][i]) {
        assert Before(prev, ks, i + 1) == Before(ks[0], ks[1..], i);
      }
      NoneNoticed(ks[0], ks[1..]);
    }
  }

  /** The first 65536 positions without the last but one. */
  function AllButOne(): (ks: seq<nat>)
    ensures |ks| == 65535
  {
    seq(65535, i requires 0 <= i => if i == 65534 then 65535 else i)
  }

  lemma AllButOneUnnoticed(n: nat)
    requires n > 65535
    ensures Rising(-1, AllButOne(), n) && LossesNoticed(-1, AllButOne()) == 0
  {
    var ks := AllButOne();
    forall i | 0 <= i < |ks| ensures Before(-1, ks, i) < ks[i] < n && !Noticed(Before(-1, ks, i), ks[i]) {
      AllButOneAt(i);
    }
    hide AllButOne, Noticed;
    NoneNoticed(-1, ks);
  }

  lemma AllButOneAt(i: nat)
    requires i < 65535
    ensures Before(-1, AllButOne(), i) == i - 1 && AllButOne()[i] == if i == 65534 then 65535 else i
  {
  }

  /** A loss that goes unnoticed: packet 65534, right before the packet with number zero. */
  lemma LossBeforeZero(c: Params, calls: seq<Call>)
    requires |SessionPackets(c, 1, [], calls)| > 65535
    ensures var ps := SessionPackets(c, 1, [], calls);
            Rising(-1, AllButOne(), |ps|) && GapsIn(0, Delivered(ps, -1, AllButOne())) == 0
  {
    hide AllButOne;
    AllButOneUnnoticed(|SessionPackets(c, 1, [], calls)|);
    SessionLossesReported(c, calls, AllButOne());
  }
}
