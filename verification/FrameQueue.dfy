/** The circular queue of frames between the receiving and the decoding thread. */
module FrameQueue {
  import opened Sequences

  const QUEUESIZE: nat := 100

  datatype Frame = Frame(data: seq<byte>, timestamp: bv32, seqnum: nat)

  /** The slot i places behind `front`. */
  function Slot(front: nat, i: nat): (r: nat)
    ensures r < QUEUESIZE
  {
    (front + i) % QUEUESIZE
  }

  /** The n frames that start at slot `front`, going round. */
  function Going(slots: seq<Frame>, front: nat, n: nat): (r: seq<Frame>)
    requires |slots| == QUEUESIZE
    ensures |r| == n && forall i :: 0 <= i < n ==> r[i] == slots[Slot(front, i)]
  {
    seq(n, i requires 0 <= i => slots[Slot(front, i)])
  }

  lemma Distinct(front: nat, i: nat, j: nat)
    requires i < j < i + QUEUESIZE
    ensures Slot(front, i) != Slot(front, j)
  {
    var d := j - i;
    assert 0 < d % QUEUESIZE;
  }

  lemma GoingOneMore(slots: seq<Frame>, front: nat, n: nat, e: Frame)
    requires |slots| == QUEUESIZE && n < QUEUESIZE
    ensures Going(slots[Slot(front, n) := e], front, n + 1) == Going(slots, front, n) + [e]
  {
    forall i | 0 <= i < n ensures Slot(front, i) != Slot(front, n) {
      Distinct(front, i, n);
    }
  }

  lemma SlotsAt(front: nat)
    requires front < QUEUESIZE
    ensures Slot(front, 0) == front && Slot(front, 1) == (front + 1) % QUEUESIZE
  {
  }

  lemma SlotBehind(front: nat, i: nat)
    ensures Slot(front, i + 1) == Slot(Slot(front, 1), i)
  {
  }

  lemma GoingTail(slots: seq<Frame>, front: nat, n: nat)
    requires |slots| == QUEUESIZE && n > 0
    ensures Going(slots, front, n) == [slots[Slot(front, 0)]] + Going(slots, Slot(front, 1), n - 1)
  {
    var a, b := Going(slots, front, n), [slots[Slot(front, 0)]] + Going(slots, Slot(front, 1), n - 1);
    forall i | 0 <= i < n ensures a[i] == b[i] {
      if i > 0 {
        SlotBehind(front, i - 1);
      }
    }
  }

  /** A frame, or the end of the program: that is how an empty queue is answered. */
  datatype Head = Exit | Got(e: Frame)

  class CircleQueue {
    const data: array<Frame>
    var front: nat
    var rear: nat
    var count: nat

    ghost predicate Valid()
      reads this
    {
      && data.Length == QUEUESIZE && front < QUEUESIZE && count <= QUEUESIZE
      && rear == Slot(front, count)
    }

    ghost function Contents(): seq<Frame>
      requires Valid()
      reads this, data
    {
      Going(data[..], front, count)
    }

    constructor ()
      ensures Valid() && Contents() == [] && fresh(data)
    {
      data := new Frame[QUEUESIZE](_ => Frame([], 0, 0));
      front, rear, count := 0, 0, 0;
    }

    method IsQueueEmpty() returns (r: bool)
      requires Valid()
      ensures r <==> Contents() == []
    {
      r := count == 0;
    }

    method IsQueueFull() returns (r: bool)
      requires Valid()
      ensures r <==> |Contents()| == QUEUESIZE
    {
      r := count == QUEUESIZE;
    }

    method EnQueue(e: Frame) returns (ok: bool)
      requires Valid()
      modifies this`rear, this`count, data
      ensures Valid()
      ensures ok <==> |old(Contents())| < QUEUESIZE
      ensures Contents() == if ok then old(Contents()) + [e] else old(Contents())
    {
      if count == QUEUESIZE {
        return false;
      }
      GoingOneMore(data[..], front, count, e);
      data[rear] := e;
      rear := (rear + 1) % QUEUESIZE;
      count := count + 1;
      return true;
    }

    method DeQueue() returns (r: Head)
      requires Valid()
      modifies this`front, this`count
      ensures Valid()
      ensures r.Exit? <==> old(Contents()) == []
      ensures r.Got? ==> old(Contents()) == [r.e] + Contents()
      ensures r.Exit? ==> Contents() == []
    {
      if count == 0 {
        return Exit;
      }
      SlotsAt(front);
      hide Going, Slot;
      r := Got(data[front]);
      GoingTail(data[..], front, count);
      SlotBehind(front, count - 1);
      front := (front + 1) % QUEUESIZE;
      count := count - 1;
    }

    method GetHead() returns (r: Head)
      requires Valid()
      ensures r.Exit? <==> Contents() == []
      ensures r.Got? ==> r.e == Contents()[0]
    {
      if count == 0 {
        return Exit;
      }
      r := Got(data[front]);
    }

    method ClearQueue()
      modifies this`front, this`rear, this`count
      requires data.Length == QUEUESIZE
      ensures Valid() && Contents() == []
    {
      front, rear, count := 0, 0, 0;
    }
  }
}
