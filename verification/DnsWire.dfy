/**
 * Names on the wire in the numbers of RFC 1035 sections 3.1 and 4.1.4, and the text they are expanded to: what
 * `DnsNames` says with masks and accumulators, told once more without them.
 */
module DnsWire {
  import opened Sequences
  import opened DnsNames

  // ---------------------------------------------------------------- the wire

  /**
   * The name written at cp: a length byte from 1 to 63 and that many bytes, a pointer 192 + t / 256, t % 256 to place
   * t, or a zero byte at the end.
   */
  ghost predicate Written(mem: int -> byte, size: int, cp: int, hops: seq<Hop>)
    decreases |hops|
  {
    if hops == [] then mem(cp) as int == 0
    else match hops[0]
      case Label(b) =>
        && 1 <= |b| <= 63 && mem(cp) as int == |b| && cp + 1 + |b| <= size
        && (forall i :: 0 <= i < |b| ==> b[i] == mem(cp + 1 + i))
        && Written(mem, size, cp + 1 + |b|, hops[1..])
      case Jump(t) =>
        && 0 <= t < 16384 && t < size
        && mem(cp) as int == 192 + t / 256 && mem(cp + 1) as int == t % 256
        && Written(mem, size, t, hops[1..])
  }

  lemma LengthBits(b: byte)
    ensures b & 0xc0 == 0 <==> b as int <= 63
    ensures b & 0xc0 == 0xc0 <==> b as int >= 192
    ensures b == 0 <==> b as int == 0
  {
  }

  lemma PointerBits(first: byte)
    requires first as int >= 192
    ensures (first & 0x3f) as int == first as int - 192
  {
  }

  lemma PointerNumbers(a: int, b: int, t: int)
    requires 0 <= a < 64 && 0 <= b < 256
    ensures t == a * 256 + b <==> 0 <= t < 16384 && a == t / 256 && b == t % 256
  {
  }

  lemma TargetInNumbers(first: byte, second: byte, t: int)
    requires first as int >= 192
    ensures t == Target(first, second) <==>
            0 <= t < 16384 && first as int == 192 + t / 256 && second as int == t % 256
  {
    PointerBits(first);
    PointerNumbers(first as int - 192, second as int, t);
  }

  lemma LabelBytes(mem: int -> byte, at: int, b: seq<byte>)
    ensures b == Bytes(mem, at, |b|) <==> forall i :: 0 <= i < |b| ==> b[i] == mem(at + i)
  {
  }

  /** What a name is spelled by is what is written. */
  lemma {:induction false} SpellsWhatIsWritten(mem: int -> byte, size: int, cp: int, hops: seq<Hop>)
    ensures Spells(mem, size, cp, hops) <==> Written(mem, size, cp, hops)
    decreases |hops|
  {
    hide Bytes, Target;
    LengthBits(mem(cp));
    if hops != [] {
      match hops[0]
      case Label(b) =>
        LabelBytes(mem, cp + 1, b);
        SpellsWhatIsWritten(mem, size, cp + 1 + |b|, hops[1..]);
        assert Spells(mem, size, cp, hops) ==> |b| == mem(cp) as int;
      case Jump(t) =>
        if mem(cp) as int >= 192 {
          TargetInNumbers(mem(cp), mem(cp + 1), t);
        }
        SpellsWhatIsWritten(mem, size, t, hops[1..]);
    }
  }

  /** A pointer to t: the name there is whatever is written at t. */
  lemma PointerFollowed(mem: int -> byte, size: int, cp: int, t: int, hops: seq<Hop>)
    requires 0 <= t < 16384 && t < size && mem(cp) as int == 192 + t / 256 && mem(cp + 1) as int == t % 256
    ensures Spells(mem, size, cp, [Jump(t)] + hops) <==> Spells(mem, size, t, hops)
  {
    var all := [Jump(t)] + hops;
    assert all[1..] == hops;
    SpellsWhatIsWritten(mem, size, cp, all);
    SpellsWhatIsWritten(mem, size, t, hops);
    hide Spells;
  }

  // ---------------------------------------------------------------- the text

  /** The labels on the way. */
  function Labels(hops: seq<Hop>): seq<seq<byte>> {
    if hops == [] then []
    else (match hops[0] case Label(b) => [b] case Jump(_) => []) + Labels(hops[1..])
  }

  /** A label as text: a backslash, which is 92, before each dot, which is 46, and each backslash. */
  function LabelText(b: seq<byte>): seq<byte> {
    if b == [] then []
    else (if b[0] as int == 46 || b[0] as int == 92 then [92, b[0]] else [b[0]]) + LabelText(b[1..])
  }

  /** Labels with dots between them. */
  function Dotted(labels: seq<seq<byte>>): seq<byte> {
    if labels == [] then []
    else if |labels| == 1 then LabelText(labels[0])
    else LabelText(labels[0]) + [46] + Dotted(labels[1..])
  }

  lemma SpecialNumbers(c: byte)
    ensures Special(c) <==> c as int == 46 || c as int == 92
  {
  }

  lemma {:induction false} EscapedIsText(b: seq<byte>)
    ensures Escaped(b) == LabelText(b)
    ensures b != [] ==> LabelText(b) != []
  {
    if b != [] {
      SpecialNumbers(b[0]);
      EscapedIsText(b[1..]);
    }
  }

  ghost predicate NoneEmpty(labels: seq<seq<byte>>) {
    forall i :: 0 <= i < |labels| ==> labels[i] != []
  }

  /** Text already there, and the labels behind it. */
  function Behind(front: seq<byte>, labels: seq<seq<byte>>): seq<byte> {
    if front == [] || labels == [] then front + Dotted(labels) else front + [46] + Dotted(labels)
  }

  lemma BehindOne(front: seq<byte>, b: seq<byte>, more: seq<seq<byte>>)
    requires b != []
    ensures Behind(front, [b] + more) == Behind((if front == [] then [] else front + [46]) + LabelText(b), more)
  {
    var all := [b] + more;
    EscapedIsText(b);
    assert all[0] == b && all[1..] == more;
    var head := if front == [] then [] else front + [46];
    assert front == [] ==> head + Dotted(all) == Dotted(all);
    if more == [] {
      assert |all| == 1;
    } else {
      ConcatAssociative(head, LabelText(b) + [46], Dotted(more));
      ConcatAssociative(head, LabelText(b), [46]);
    }
  }

  lemma {:induction false} PrintedBehind(front: seq<byte>, hops: seq<Hop>)
    requires NoneEmpty(Labels(hops))
    ensures Printed(front, hops) == Behind(front, Labels(hops))
    decreases |hops|
  {
    hide Escaped, LabelText;
    if hops == [] {
      assert Behind(front, []) == front;
    } else {
      LaterNoneEmpty(hops);
      match hops[0]
      case Label(b) =>
        EscapedIsText(b);
        assert Labels(hops)[0] == b;
        BehindOne(front, b, Labels(hops[1..]));
        PrintedBehind((if front == [] then [] else front + [DOT]) + Escaped(b), hops[1..]);
      case Jump(_) =>
        assert [] + Labels(hops[1..]) == Labels(hops[1..]);
        PrintedBehind(front, hops[1..]);
    }
  }

  lemma LaterNoneEmpty(hops: seq<Hop>)
    requires hops != [] && NoneEmpty(Labels(hops))
    ensures NoneEmpty(Labels(hops[1..]))
  {
    var first: seq<seq<byte>> := match hops[0] case Label(b) => [b] case Jump(_) => [];
    var later := Labels(hops[1..]);
    assert Labels(hops) == first + later;
    hide Labels;
    NoneEmptyBehind(first, later);
  }

  lemma NoneEmptyBehind(first: seq<seq<byte>>, later: seq<seq<byte>>)
    requires NoneEmpty(first + later)
    ensures NoneEmpty(later)
  {
    forall i | 0 <= i < |later| ensures later[i] != [] {
      assert later[i] == (first + later)[|first| + i];
    }
  }

  /** The text of a name that is written: its labels with dots between them. */
  lemma PrintedIsDotted(mem: int -> byte, size: int, start: int, hops: seq<Hop>)
    requires Written(mem, size, start, hops)
    ensures Printed([], hops) == Dotted(Labels(hops))
  {
    WrittenNoneEmpty(mem, size, start, hops);
    PrintedBehind([], hops);
    assert [] + Dotted(Labels(hops)) == Dotted(Labels(hops));
  }

  lemma {:induction false} WrittenNoneEmpty(mem: int -> byte, size: int, cp: int, hops: seq<Hop>)
    requires Written(mem, size, cp, hops)
    ensures NoneEmpty(Labels(hops))
    decreases |hops|
  {
    if hops != [] {
      match hops[0]
      case Label(b) => WrittenNoneEmpty(mem, size, cp + 1 + |b|, hops[1..]);
      case Jump(t) => WrittenNoneEmpty(mem, size, t, hops[1..]);
    }
  }

  // ---------------------------------------------------------------- space and limit

  /** The place of the first pointer among the hops. */
  function FirstPointer(hops: seq<Hop>): (i: nat)
    ensures i <= |hops| && (i < |hops| ==> hops[i].Jump?)
  {
    if hops == [] || hops[0].Jump? then 0 else 1 + FirstPointer(hops[1..])
  }

  /** The space a name takes ends with its first pointer, or in front of its zero byte when it has none. */
  lemma {:induction false} SpaceTaken(mem: int -> byte, size: int, cp: int, hops: seq<Hop>)
    requires Written(mem, size, cp, hops)
    ensures var end, i := cp + Used(hops), FirstPointer(hops);
            if i == |hops| then mem(end) as int == 0
            else mem(end - 2) as int == 192 + hops[i].target / 256 && mem(end - 1) as int == hops[i].target % 256
    decreases |hops|
  {
    if hops != [] && hops[0].Label? {
      SpaceTaken(mem, size, cp + 1 + |hops[0].bytes|, hops[1..]);
    }
  }

  /** The bytes a hop takes: a label with its length, or a pointer. */
  function Size(h: Hop): nat {
    match h
    case Label(b) => 1 + |b|
    case Jump(_) => 2
  }

  /** All bytes read on the way. */
  function BytesRead(hops: seq<Hop>): nat {
    if hops == [] then 0 else Size(hops[0]) + BytesRead(hops[1..])
  }

  /** Hop i, when it is a pointer, is read with less than the message. */
  predicate LimitAt(size: int, copied: int, hops: seq<Hop>, i: nat)
    requires i < |hops|
  {
    hops[i].Jump? ==> copied + BytesRead(hops[..i + 1]) < size
  }

  ghost predicate ReadsWithin(size: int, copied: int, hops: seq<Hop>) {
    forall i :: 0 <= i < |hops| ==> LimitAt(size, copied, hops, i)
  }

  lemma LimitLater(size: int, copied: int, hops: seq<Hop>, i: nat)
    requires i + 1 < |hops|
    ensures LimitAt(size, copied, hops, i + 1) <==> LimitAt(size, copied + Size(hops[0]), hops[1..], i)
  {
    assert hops[..i + 2][1..] == hops[1..][..i + 1];
  }

  lemma LimitFirst(size: int, copied: int, hops: seq<Hop>)
    requires hops != []
    ensures LimitAt(size, copied, hops, 0) <==> (hops[0].Jump? ==> copied + 2 < size)
  {
    assert hops[..1] == [hops[0]] && [hops[0]][1..] == [];
    assert BytesRead([hops[0]]) == Size(hops[0]);
  }

  /** A pointer is followed exactly while all that was read, its own two bytes included, is less than the message. */
  lemma {:induction false} PointerLimit(size: int, copied: int, hops: seq<Hop>)
    ensures PointersWithin(size, copied, hops) <==> ReadsWithin(size, copied, hops)
    decreases |hops|
  {
    if hops != [] {
      var later, copied' := hops[1..], copied + Size(hops[0]);
      PointerLimit(size, copied', later);
      LimitFirst(size, copied, hops);
      hide LimitAt;
      if ReadsWithin(size, copied, hops) {
        forall i | 0 <= i < |later| ensures LimitAt(size, copied', later, i) {
          LimitLater(size, copied, hops, i);
        }
      }
      if LimitAt(size, copied, hops, 0) && ReadsWithin(size, copied', later) {
        forall i | 0 <= i < |hops| ensures LimitAt(size, copied, hops, i) {
          if i > 0 {
            LimitLater(size, copied, hops, i - 1);
          }
        }
      }
    }
  }

  /**
   * A name expands exactly when it is written, its text leaves room for a zero byte, and its pointers keep the limit.
   */
  lemma ExpandableInNumbers(mem: int -> byte, size: int, start: int, length: nat, hops: seq<Hop>)
    ensures Expandable(mem, size, start, length, hops) <==>
            Written(mem, size, start, hops) && |Dotted(Labels(hops))| < length && ReadsWithin(size, 0, hops)
  {
    SpellsWhatIsWritten(mem, size, start, hops);
    PointerLimit(size, 0, hops);
    if Written(mem, size, start, hops) {
      PrintedIsDotted(mem, size, start, hops);
    }
  }
}
