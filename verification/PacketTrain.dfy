/**
 * Sequence numbers over several NAL units, whatever the packets of one unit are: numbers run on modulo 65536,
 * and a packet the network refuses uses up no number.
 */
module PacketTrain {
  import opened AnnexB
  import opened Sequences

  function NextSeq(seqno: nat, n: nat): nat {
    (seqno + n) % 65536
  }

  lemma NextSeqAdds(seqno: nat, a: nat, b: nat)
    ensures NextSeq(NextSeq(seqno, a), b) == NextSeq(seqno, a + b)
  {
  }

  /** All packets of several units, numbered through. */
  ghost function Train(f: (nat, seq<byte>) -> seq<seq<byte>>, seqno: nat, nals: seq<seq<byte>>): seq<seq<byte>>
    decreases |nals|
  {
    if nals == [] then []
    else
      var ps := f(seqno, nals[0]);
      ps + Train(f, NextSeq(seqno, |ps|), nals[1..])
  }

  lemma {:induction false} TrainAppend(f: (nat, seq<byte>) -> seq<seq<byte>>, seqno: nat, a: seq<seq<byte>>,
                                       b: seq<seq<byte>>)
    requires seqno < 65536
    ensures var pa := Train(f, seqno, a);
            Train(f, seqno, a + b) == pa + Train(f, NextSeq(seqno, |pa|), b)
    decreases |a|
  {
    if a == [] {
      assert a + b == b;
    } else {
      var ps := f(seqno, a[0]);
      var next := NextSeq(seqno, |ps|);
      assert (a + b)[1..] == a[1..] + b;
      TrainAppend(f, next, a[1..], b);
      NextSeqAdds(seqno, |ps|, |Train(f, next, a[1..])|);
    }
  }

  /**
   * A network that may refuse packets: each unit is sent up to its first refused packet, and the next unit goes
   * on with the first number not used.
   */
  ghost predicate LossyTrain(f: (nat, seq<byte>) -> seq<seq<byte>>, seqno: nat, nals: seq<seq<byte>>,
                             sent: seq<seq<byte>>)
    decreases |nals|
  {
    if nals == [] then sent == []
    else
      exists k: nat :: LossyHead(f(seqno, nals[0]), k, sent) &&
                       LossyTrain(f, NextSeq(seqno, k), nals[1..], sent[k..])
  }

  predicate LossyHead(ps: seq<seq<byte>>, k: nat, sent: seq<seq<byte>>) {
    k <= |sent| && k <= |ps| && sent[..k] == ps[..k]
  }

  lemma {:induction false} LossyTrainMore(f: (nat, seq<byte>) -> seq<seq<byte>>, seqno: nat, nals: seq<seq<byte>>,
                                          sent: seq<seq<byte>>, nal: seq<byte>, k: nat, ps: seq<seq<byte>>)
    requires seqno < 65536 && LossyTrain(f, seqno, nals, sent)
    requires LossyHead(f(NextSeq(seqno, |sent|), nal), k, ps) && |ps| == k
    ensures LossyTrain(f, seqno, nals + [nal], sent + ps)
    decreases |nals|
  {
    if nals == [] {
      LossyCons(f, seqno, nal, [], k, ps, []);
      assert [nal] + [] == [nal] && nals + [nal] == [nal] && sent + ps == ps;
    } else {
      var j: nat :| LossyHead(f(seqno, nals[0]), j, sent) && LossyTrain(f, NextSeq(seqno, j), nals[1..], sent[j..]);
      NextSeqAdds(seqno, j, |sent| - j);
      LossyTrainMore(f, NextSeq(seqno, j), nals[1..], sent[j..], nal, k, ps);
      SplitOfConcat(sent, ps, j);
      LossyCons(f, seqno, nals[0], nals[1..] + [nal], j, sent + ps, sent[j..] + ps);
      assert nals + [nal] == [nals[0]] + (nals[1..] + [nal]);
    }
  }

  /** One unit up to its k-th packet, and the others behind it. */
  lemma LossyCons(f: (nat, seq<byte>) -> seq<seq<byte>>, seqno: nat, nal: seq<byte>, nals: seq<seq<byte>>, k: nat,
                  sent: seq<seq<byte>>, tail: seq<seq<byte>>)
    requires LossyHead(f(seqno, nal), k, sent) && tail == sent[k..] && LossyTrain(f, NextSeq(seqno, k), nals, tail)
    ensures LossyTrain(f, seqno, [nal] + nals, sent)
  {
    assert ([nal] + nals)[1..] == nals;
  }

  lemma TrainOneMore(f: (nat, seq<byte>) -> seq<seq<byte>>, seqno: nat, nals: seq<seq<byte>>, nal: seq<byte>)
    requires seqno < 65536
    ensures var pa := Train(f, seqno, nals);
            Train(f, seqno, nals + [nal]) == pa + f(NextSeq(seqno, |pa|), nal)
  {
    TrainAppend(f, seqno, nals, [nal]);
    assert [nal][1..] == [];
  }
}
