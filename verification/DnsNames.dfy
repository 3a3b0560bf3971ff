/**
 * Expanding a compressed domain name (RFC 1035 section 4.1.4). Offsets count from the start of the message; memory
 * answers for every offset, inside the message or not.
 */
module DnsNames {
  import opened Sequences

  const DOT: byte := 0x2e
  const BACKSLASH: byte := 0x5c

  /** Where a name goes: a label of its own bytes, or a pointer to another place. */
  datatype Hop = Label(bytes: seq<byte>) | Jump(target: int)

  function Bytes(mem: int -> byte, at: int, n: nat): (r: seq<byte>)
    ensures |r| == n && forall i :: 0 <= i < n ==> r[i] == mem(at + i)
  {
    seq(n, i requires 0 <= i < n => mem(at + i))
  }

  function Target(first: byte, second: byte): int {
    (first & 0x3f) as int * 256 + second as int
  }

  /** The name at `cp` is spelled by these labels and pointers, and ends there. */
  ghost predicate Spells(mem: int -> byte, size: int, cp: int, hops: seq<Hop>)
    decreases |hops|
  {
    if hops == [] then mem(cp) == 0
    else match hops[0]
      case Label(b) =>
        var w := mem(cp) as int;
        && mem(cp) != 0 && mem(cp) & 0xc0 == 0
        && cp + 1 + w <= size && b == Bytes(mem, cp + 1, w)
        && Spells(mem, size, cp + 1 + w, hops[1..])
      case Jump(t) =>
        && mem(cp) & 0xc0 == 0xc0
        && t == Target(mem(cp), mem(cp + 1)) && 0 <= t < size
        && Spells(mem, size, t, hops[1..])
  }

  /** A name can be spelled in one way only. */
  lemma {:induction false} SpellingUnique(mem: int -> byte, size: int, cp: int, a: seq<Hop>, b: seq<Hop>)
    requires Spells(mem, size, cp, a) && Spells(mem, size, cp, b)
    ensures a == b
    decreases |a|
  {
    ZeroIsNoPointer(mem(cp));
    if a != [] {
      if a[0].Label? {
        SpellingUnique(mem, size, cp + 1 + mem(cp) as int, a[1..], b[1..]);
      } else {
        SpellingUnique(mem, size, a[0].target, a[1..], b[1..]);
      }
      assert a == [a[0]] + a[1..] && b == [b[0]] + b[1..];
    }
  }

  lemma ZeroIsNoPointer(b: byte)
    ensures b & 0xc0 == 0xc0 ==> b != 0
  {
  }

  /** These labels and pointers lead from `cp` to `end`. */
  ghost predicate Leading(mem: int -> byte, size: int, cp: int, hops: seq<Hop>, end: int)
    decreases |hops|
  {
    if hops == [] then cp == end
    else match hops[0]
      case Label(b) =>
        var w := mem(cp) as int;
        && mem(cp) != 0 && mem(cp) & 0xc0 == 0
        && cp + 1 + w <= size && b == Bytes(mem, cp + 1, w)
        && Leading(mem, size, cp + 1 + w, hops[1..], end)
      case Jump(t) =>
        && mem(cp) & 0xc0 == 0xc0
        && t == Target(mem(cp), mem(cp + 1)) && 0 <= t < size
        && Leading(mem, size, t, hops[1..], end)
  }

  /** There is only one way on from any place: a spelling begins with whatever leads away from where it begins. */
  lemma {:induction false} SpellingFollows(mem: int -> byte, size: int, cp: int, hops: seq<Hop>, end: int,
                                           full: seq<Hop>)
    requires Leading(mem, size, cp, hops, end) && Spells(mem, size, cp, full)
    ensures |hops| <= |full| && Spells(mem, size, end, full[|hops|..])
    decreases |hops|
  {
    if hops == [] {
      assert full[0..] == full;
    } else {
      ZeroIsNoPointer(mem(cp));
      var next := if hops[0].Label? then cp + 1 + mem(cp) as int else hops[0].target;
      SpellingFollows(mem, size, next, hops[1..], end, full[1..]);
      assert full[1..][|hops| - 1..] == full[|hops|..];
    }
  }

  /** A name that comes back to where it was, through labels, pointers or both, is spelled by nothing. */
  lemma CircleSpellsNothing(mem: int -> byte, size: int, cp: int, hops: seq<Hop>, full: seq<Hop>)
    requires hops != [] && Leading(mem, size, cp, hops, cp)
    ensures !Spells(mem, size, cp, full)
  {
    if Spells(mem, size, cp, full) {
      SpellingFollows(mem, size, cp, hops, cp, full);
      SpellingUnique(mem, size, cp, full, full[|hops|..]);
      assert false;
    }
  }

  /** So is every name that leads into such a circle. */
  lemma LeadingIntoCircle(mem: int -> byte, size: int, start: int, front: seq<Hop>, cp: int, hops: seq<Hop>,
                          full: seq<Hop>)
    requires Leading(mem, size, start, front, cp) && hops != [] && Leading(mem, size, cp, hops, cp)
    ensures !Spells(mem, size, start, full)
  {
    if Spells(mem, size, start, full) {
      SpellingFollows(mem, size, start, front, cp, full);
      CircleSpellsNothing(mem, size, cp, hops, full[|front|..]);
    }
  }

  // ---------------------------------------------------------------- the printed name

  predicate Special(b: byte) {
    b == DOT || b == BACKSLASH
  }

  /** Dots and backslashes inside a label get a backslash. */
  function Escaped(b: seq<byte>): (r: seq<byte>)
    ensures |r| >= |b|
  {
    if b == [] then [] else EscapedByte(b[0]) + Escaped(b[1..])
  }

  lemma {:induction false} EscapedAppend(a: seq<byte>, b: seq<byte>)
    ensures Escaped(a + b) == Escaped(a) + Escaped(b)
  {
    if a == [] {
      assert a + b == b;
    } else {
      assert (a + b)[1..] == a[1..] + b;
      EscapedAppend(a[1..], b);
    }
  }

  function EscapedByte(c: byte): seq<byte> {
    if Special(c) then [BACKSLASH, c] else [c]
  }

  lemma EscapedOneMore(b: seq<byte>, c: byte)
    ensures Escaped(b + [c]) == Escaped(b) + EscapedByte(c)
  {
    EscapedAppend(b, [c]);
    assert [c][1..] == [];
  }

  /** The labels behind a name already printed, each after a dot unless it is the first. */
  function Printed(front: seq<byte>, hops: seq<Hop>): seq<byte>
    decreases |hops|
  {
    if hops == [] then front
    else match hops[0]
      case Label(b) => Printed((if front == [] then [] else front + [DOT]) + Escaped(b), hops[1..])
      case Jump(_) => Printed(front, hops[1..])
  }

  lemma {:induction false} PrintedAppend(front: seq<byte>, a: seq<Hop>, b: seq<Hop>)
    ensures Printed(front, a + b) == Printed(Printed(front, a), b)
    decreases |a|
  {
    if a == [] {
      assert a + b == b;
    } else {
      assert (a + b)[1..] == a[1..] + b;
      match a[0]
      case Label(bytes) => PrintedAppend((if front == [] then [] else front + [DOT]) + Escaped(bytes), a[1..], b);
      case Jump(_) => PrintedAppend(front, a[1..], b);
    }
  }

  /** How many bytes the name takes where it stands: up to its first pointer, or up to the zero at its end. */
  function Used(hops: seq<Hop>): nat {
    if hops == [] then 0
    else match hops[0]
      case Label(b) => 1 + |b| + Used(hops[1..])
      case Jump(_) => 2
  }

  ghost predicate NoJump(hops: seq<Hop>) {
    forall i :: 0 <= i < |hops| ==> hops[i].Label?
  }

  lemma {:induction false} UsedMore(hops: seq<Hop>, h: Hop)
    ensures Used(hops + [h]) == if NoJump(hops) then Used(hops) + Used([h]) else Used(hops)
    ensures NoJump(hops + [h]) <==> NoJump(hops) && h.Label?
    decreases |hops|
  {
    var all := hops + [h];
    assert all[|hops|] == h && forall i :: 0 <= i < |hops| ==> all[i] == hops[i];
    if hops == [] {
      assert all == [h];
    } else {
      assert all[1..] == hops[1..] + [h];
      UsedMore(hops[1..], h);
      assert forall i :: 1 <= i < |hops| ==> hops[1..][i - 1] == hops[i];
    }
  }

  /** Each pointer is followed only while what was read of labels and pointers is shorter than the message. */
  ghost predicate PointersWithin(size: int, copied: int, hops: seq<Hop>)
    decreases |hops|
  {
    if hops == [] then true
    else match hops[0]
      case Label(b) => PointersWithin(size, copied + 1 + |b|, hops[1..])
      case Jump(_) => copied + 2 < size && PointersWithin(size, copied + 2, hops[1..])
  }

  /** The name is spelled in the message, fits the output, and does not follow pointers for too long. */
  ghost predicate Expandable(mem: int -> byte, size: int, start: int, length: nat, hops: seq<Hop>) {
    Spells(mem, size, start, hops) && |Printed([], hops)| < length && PointersWithin(size, 0, hops)
  }

  lemma {:induction false} PrintedGrows(front: seq<byte>, hops: seq<Hop>)
    ensures |Printed(front, hops)| >= |front|
    decreases |hops|
  {
    if hops != [] {
      match hops[0]
      case Label(b) => PrintedGrows((if front == [] then [] else front + [DOT]) + Escaped(b), hops[1..]);
      case Jump(_) => PrintedGrows(front, hops[1..]);
    }
  }

  /** The one way from `start` to `cp`: whatever is spelled from `start` begins with these hops. */
  ghost predicate Leads(mem: int -> byte, size: int, start: int, hops: seq<Hop>, cp: int) {
    && (forall rest :: Spells(mem, size, cp, rest) ==> Spells(mem, size, start, hops + rest))
    && (forall full :: Spells(mem, size, start, full) ==> Follows(mem, size, hops, cp, full))
  }

  ghost predicate Follows(mem: int -> byte, size: int, hops: seq<Hop>, cp: int, full: seq<Hop>) {
    |hops| <= |full| && full == hops + full[|hops|..] && Spells(mem, size, cp, full[|hops|..])
  }

  /** The bytes read on the way. */
  ghost predicate Copied(size: int, hops: seq<Hop>, copied: int) {
    forall rest :: PointersWithin(size, 0, hops + rest) <==> PointersWithin(size, copied, rest)
  }

  lemma CopiedOn(size: int, hops: seq<Hop>, copied: int, h: Hop, copied': int)
    requires Copied(size, hops, copied)
    requires h.Label? ==> copied' == copied + 1 + |h.bytes|
    requires h.Jump? ==> copied' == copied + 2 < size
    ensures Copied(size, hops + [h], copied')
  {
    forall rest ensures PointersWithin(size, 0, hops + [h] + rest) <==> PointersWithin(size, copied', rest) {
      ConcatAssociative(hops, [h], rest);
      assert ([h] + rest)[1..] == rest;
      assert PointersWithin(size, 0, hops + ([h] + rest)) <==> PointersWithin(size, copied, [h] + rest);
    }
  }

  /** A hop whose name is too long already, or a pointer too many, and nothing spelled from `start` is expandable. */
  lemma NotExpandable(mem: int -> byte, size: int, start: int, length: nat, hops: seq<Hop>, cp: int, copied: int)
    requires Leads(mem, size, start, hops, cp) && Copied(size, hops, copied)
    requires forall rest :: Spells(mem, size, cp, rest) ==>
               |Printed(Printed([], hops), rest)| >= length || !PointersWithin(size, copied, rest)
    ensures forall full :: !Expandable(mem, size, start, length, full)
  {
    forall full ensures !Expandable(mem, size, start, length, full) {
      if Spells(mem, size, start, full) {
        assert Follows(mem, size, hops, cp, full);
        PrintedAppend([], hops, full[|hops|..]);
      }
    }
  }

  lemma LeadsNowhere(mem: int -> byte, size: int, start: int)
    ensures Leads(mem, size, start, [], start) && Copied(size, [], 0)
  {
    forall rest: seq<Hop> ensures [] + rest == rest && rest[0..] == rest {
    }
  }

  lemma LeadsOn(mem: int -> byte, size: int, start: int, hops: seq<Hop>, cp: int, h: Hop, cp': int)
    requires Leads(mem, size, start, hops, cp)
    requires forall rest :: Spells(mem, size, cp', rest) ==> Spells(mem, size, cp, [h] + rest)
    requires forall rest :: Spells(mem, size, cp, rest) ==>
               rest != [] && rest[0] == h && Spells(mem, size, cp', rest[1..])
    ensures Leads(mem, size, start, hops + [h], cp')
  {
    forall rest | Spells(mem, size, cp', rest) ensures Spells(mem, size, start, hops + [h] + rest) {
      assert Spells(mem, size, cp, [h] + rest);
      ConcatAssociative(hops, [h], rest);
    }
    forall full | Spells(mem, size, start, full) ensures Follows(mem, size, hops + [h], cp', full) {
      assert Follows(mem, size, hops, cp, full);
      var rest := full[|hops|..];
      assert rest == [h] + rest[1..] && full[|hops| + 1..] == rest[1..];
      ConcatAssociative(hops, [h], rest[1..]);
    }
  }

  // ---------------------------------------------------------------- the program

  /** A special byte at place i needs two places, and the bytes behind it one each at least. */
  lemma NoRoom(b: seq<byte>, i: nat)
    requires i < |b| && Special(b[i])
    ensures |Escaped(b)| >= |Escaped(b[..i])| + 2 + (|b| - i - 1)
  {
    assert b == b[..i] + b[i..];
    EscapedAppend(b[..i], b[i..]);
    assert b[i..][1..] == b[i + 1..];
  }

  /** One byte of a label with `left` more behind it, after a backslash if it needs one; fails without room for both. */
  method PutEscaped(out: array<byte>, length: nat, left: nat, c: byte, from: nat) returns (ok: bool, dest: nat)
    requires from + left + 1 < length <= out.Length
    modifies out
    ensures ok <==> !Special(c) || from + left + 2 < length
    ensures ok ==> dest == from + |EscapedByte(c)| && out[..dest] == old(out[..from]) + EscapedByte(c)
    ensures dest <= length && out[length..] == old(out[length..])
  {
    dest := from;
    if c == DOT || c == BACKSLASH {
      if dest + left + 2 >= length {
        return false, dest;
      }
      out[dest] := BACKSLASH;
      dest := dest + 1;
    }
    out[dest] := c;
    dest := dest + 1;
    ok := true;
  }

  /** One more byte behind those copied. */
  method CopyByte(out: array<byte>, length: nat, left: nat, c: byte, from: nat, ghost front: seq<byte>,
                  ghost done: seq<byte>)
    returns (ok: bool, dest: nat)
    requires from + left + 1 < length <= out.Length && out[..from] == front + Escaped(done)
    modifies out
    ensures ok <==> !Special(c) || from + left + 2 < length
    ensures ok ==> dest == from + |EscapedByte(c)| && out[..dest] == front + Escaped(done + [c])
    ensures |Escaped(done + [c])| == |Escaped(done)| + |EscapedByte(c)|
    ensures dest <= length && out[length..] == old(out[length..])
  {
    hide Escaped, EscapedByte, Special;
    EscapedOneMore(done, c);
    ConcatAssociative(front, Escaped(done), EscapedByte(c));
    ok, dest := PutEscaped(out, length, left, c, from);
  }

  lemma NothingEscaped(front: seq<byte>)
    ensures Escaped([]) == [] && front + [] == front
  {
  }

  /** Copies the w bytes of a label, with room for the escapes it needs; fails when they do not fit or end too late. */
  method CopyLabel(mem: int -> byte, size: int, at: int, w: nat, out: array<byte>, length: nat, from: nat)
    returns (ok: bool, dest: nat)
    requires length <= out.Length && from + w < length
    modifies out
    ensures ok ==>
              && from + w <= dest < length
              && out[..dest] == old(out[..from]) + Escaped(Bytes(mem, at, w))
    ensures w > 0 ==> (ok <==> at + w <= size && from + |Escaped(Bytes(mem, at, w))| < length)
    ensures dest <= length && out[length..] == old(out[length..])
  {
    dest := from;
    var cp, left := at, w as int - 1;
    ghost var front, done: seq<byte> := out[..from], [];
    hide Escaped, EscapedByte, Bytes;
    NothingEscaped(front);
    ghost var whole := Bytes(mem, at, w);
    while left >= 0
      invariant -1 <= left < w && cp == at + (w - 1 - left)
      invariant from + (w - 1 - left) <= dest && dest + left + 1 < length
      invariant done == whole[..w - 1 - left]
      invariant out[..dest] == front + Escaped(done)
      invariant left < w as int - 1 ==> cp - 1 < size
      invariant dest == from + |Escaped(done)|
      invariant out[length..] == old(out[length..])
    {
      var c := mem(cp);
      assert whole[w - 1 - left] == c;
      PrefixGrows(whole, w - 1 - left);
      ok, dest := CopyByte(out, length, left, c, dest, front, done);
      if !ok {
        NoRoom(whole, w - 1 - left);
        return false, dest;
      }
      if cp >= size {
        return false, dest;
      }
      done := done + [c];
      left, cp := left - 1, cp + 1;
    }
    assert done == whole;
    ok := true;
  }

  /** Where the loop stands. */
  ghost predicate Reached(mem: int -> byte, size: int, start: int, hops: seq<Hop>, cp: int, copied: int, taken: int) {
    && Leads(mem, size, start, hops, cp) && Copied(size, hops, copied)
    && Used(hops) == (if taken < 0 then cp - start else taken)
    && (taken < 0 <==> NoJump(hops))
  }

  lemma PassLabel(mem: int -> byte, size: int, start: int, hops: seq<Hop>, cp: int, copied: int, taken: int)
    requires Reached(mem, size, start, hops, cp, copied, taken)
    requires mem(cp) != 0 && mem(cp) & 0xc0 == 0 && cp + 1 + mem(cp) as int <= size
    ensures var w := mem(cp) as int;
            Reached(mem, size, start, hops + [Label(Bytes(mem, cp + 1, w))], cp + 1 + w, copied + 1 + w, taken)
  {
    var h := Label(Bytes(mem, cp + 1, mem(cp) as int));
    LabelOn(mem, size, start, hops, cp);
    UsedMore(hops, h);
    CopiedOn(size, hops, copied, h, copied + 1 + mem(cp) as int);
  }

  lemma PassPointer(mem: int -> byte, size: int, start: int, hops: seq<Hop>, cp: int, copied: int, taken: int)
    requires Reached(mem, size, start, hops, cp, copied, taken) && mem(cp) & 0xc0 == 0xc0
    requires var t := Target(mem(cp), mem(cp + 1)); 0 <= t < size && copied + 2 < size
    ensures var t := Target(mem(cp), mem(cp + 1));
            && Reached(mem, size, start, hops + [Jump(t)], t, copied + 2, if taken < 0 then cp - start + 2 else taken)
            && Printed([], hops + [Jump(t)]) == Printed([], hops)
  {
    var t := Target(mem(cp), mem(cp + 1));
    JumpOn(mem, size, start, hops, cp, t);
    UsedMore(hops, Jump(t));
    UsedIsNat(hops);
    CopiedOn(size, hops, copied, Jump(t), copied + 2);
    PrintedAppend([], hops, [Jump(t)]);
  }

  lemma UsedIsNat(hops: seq<Hop>)
    ensures Used(hops) >= 0
  {
  }

  lemma Arrived(mem: int -> byte, size: int, start: int, length: nat, hops: seq<Hop>, cp: int, copied: int, taken: int)
    requires Reached(mem, size, start, hops, cp, copied, taken) && mem(cp) == 0 && |Printed([], hops)| < length
    ensures Expandable(mem, size, start, length, hops)
    ensures Used(hops) == if taken < 0 then cp - start else taken
  {
    assert hops + [] == hops && Spells(mem, size, cp, []) && PointersWithin(size, copied, []);
  }

  lemma Fails(mem: int -> byte, size: int, start: int, length: nat, hops: seq<Hop>, cp: int, copied: int, taken: int)
    requires Reached(mem, size, start, hops, cp, copied, taken) && mem(cp) != 0
    requires var w := mem(cp) as int;
             if mem(cp) & 0xc0 == 0 then
               cp + 1 + w > size || |Printed([], hops + [Label(Bytes(mem, cp + 1, w))])| >= length
             else if mem(cp) & 0xc0 == 0xc0 then
               var t := Target(mem(cp), mem(cp + 1)); t < 0 || t >= size || copied + 2 >= size
             else true
    ensures Hopeless(mem, size, start, length)
  {
    if mem(cp) & 0xc0 == 0 {
      LabelFails(mem, size, start, length, hops, cp, copied);
    } else if mem(cp) & 0xc0 == 0xc0 {
      JumpFails(mem, size, start, length, hops, cp, copied);
    } else {
      NotExpandable(mem, size, start, length, hops, cp, copied);
    }
  }

  /** No spelling at `start` can be expanded into that much room. */
  ghost predicate Hopeless(mem: int -> byte, size: int, start: int, length: nat) {
    forall h :: !Expandable(mem, size, start, length, h)
  }

  datatype Place = Place(cp: int, dest: nat, copied: int, taken: int)

  ghost predicate Between(mem: int -> byte, size: int, start: int, hops: seq<Hop>, p: Place, printed: seq<byte>) {
    && Reached(mem, size, start, hops, p.cp, p.copied, p.taken) && 0 <= p.copied && -1 <= p.taken
    && printed == Printed([], hops)
  }

  function Room(p: Place, size: int, length: nat): int {
    length - p.dest + if size > p.copied then size - p.copied else 0
  }

  method HopLabel(mem: int -> byte, size: int, start: int, out: array<byte>, length: nat, p: Place, w: nat,
                  ghost hops: seq<Hop>)
    returns (ok: bool, q: Place, ghost hops': seq<Hop>)
    requires length <= out.Length && mem(p.cp) != 0 && p.dest < length
    requires mem(p.cp) & 0xc0 == 0 && w == mem(p.cp) as int && w > 0
    requires Between(mem, size, start, hops, p, out[..p.dest])
    modifies out
    ensures out[length..] == old(out[length..])
    ensures !ok ==> Hopeless(mem, size, start, length)
    ensures ok ==>
              && q.dest < length && Between(mem, size, start, hops', q, out[..q.dest])
              && Room(q, size, length) < Room(p, size, length)
  {
    hide Reached, Printed, Hopeless, Bytes;
    var dest;
    q, hops' := p, hops;
    ok, dest := AppendLabel(mem, size, p.cp, w, out, length, p.dest, hops);
    if !ok {
      Fails(mem, size, start, length, hops, p.cp, p.copied, p.taken);
      return;
    }
    PassLabel(mem, size, start, hops, p.cp, p.copied, p.taken);
    q := Place(p.cp + 1 + w, dest, p.copied + 1 + w, p.taken);
    hops' := hops + [Label(Bytes(mem, p.cp + 1, w))];
  }

  lemma TakenSoFar(mem: int -> byte, size: int, start: int, hops: seq<Hop>, cp: int, copied: int, taken: int)
    requires Reached(mem, size, start, hops, cp, copied, taken)
    ensures taken < 0 ==> cp >= start
  {
    UsedIsNat(hops);
  }

  method HopPointer(mem: int -> byte, size: int, start: int, length: nat, p: Place, ghost hops: seq<Hop>,
                    ghost printed: seq<byte>)
    returns (ok: bool, q: Place, ghost hops': seq<Hop>)
    requires mem(p.cp) & 0xc0 == 0xc0 && mem(p.cp) != 0 && Between(mem, size, start, hops, p, printed)
    ensures !ok ==> Hopeless(mem, size, start, length)
    ensures ok ==> q.dest == p.dest && Between(mem, size, start, hops', q, printed)
    ensures ok ==> Room(q, size, length) < Room(p, size, length)
  {
    hide Reached, Printed, Hopeless, Used;
    TakenSoFar(mem, size, start, hops, p.cp, p.copied, p.taken);
    var t := Target(mem(p.cp), mem(p.cp + 1));
    if t < 0 || t >= size || p.copied + 2 >= size {
      Fails(mem, size, start, length, hops, p.cp, p.copied, p.taken);
      return false, p, hops;
    }
    PassPointer(mem, size, start, hops, p.cp, p.copied, p.taken);
    q := Place(t, p.dest, p.copied + 2, if p.taken < 0 then p.cp - start + 2 else p.taken);
    hops' := hops + [Jump(t)];
    ok := true;
  }

  /** One pass of the loop: a label or a pointer. */
  method HopOnce(mem: int -> byte, size: int, start: int, out: array<byte>, length: nat, p: Place, ghost hops: seq<Hop>)
    returns (ok: bool, q: Place, ghost hops': seq<Hop>)
    requires length <= out.Length && mem(p.cp) != 0 && p.dest < length
    requires Between(mem, size, start, hops, p, out[..p.dest])
    modifies out
    ensures out[length..] == old(out[length..])
    ensures !ok ==> Hopeless(mem, size, start, length)
    ensures ok ==>
              && q.dest < length && Between(mem, size, start, hops', q, out[..q.dest])
              && Room(q, size, length) < Room(p, size, length)
  {
    var b := mem(p.cp);
    var comp := b & 0xc0;
    if comp == 0 {
      NonZeroLength(b);
      ok, q, hops' := HopLabel(mem, size, start, out, length, p, b as int, hops);
    } else if comp == 0xc0 {
      ok, q, hops' := HopPointer(mem, size, start, length, p, hops, out[..p.dest]);
    } else {
      Fails(mem, size, start, length, hops, p.cp, p.copied, p.taken);
      ok, q, hops' := false, p, hops;
    }
  }

  lemma NonZeroLength(b: byte)
    requires b != 0
    ensures b as int > 0
  {
  }

  /**
   * Expands the name at `start` into `out`: exactly when there is an expandable spelling, and then that one is
   * printed and the result is the space it takes. The loop ends on every message, cyclic pointers included: the
   * output room plus what `copied` lacks to the message's size falls with every hop.
   */
  method DnExpand(mem: int -> byte, size: int, start: int, out: array<byte>, length: nat)
    returns (len: int, ghost hops: seq<Hop>, ghost end: nat)
    requires 1 <= length <= out.Length
    modifies out
    ensures len == -1 ==> Hopeless(mem, size, start, length)
    ensures len != -1 ==>
              && Expandable(mem, size, start, length, hops) && len == Used(hops)
              && end < length && out[..end] == Printed([], hops) && out[end] == 0
    ensures out[length..] == old(out[length..])
  {
    var p := Place(start, 0, 0, -1);
    hops, end := [], 0;
    LeadsNowhere(mem, size, start);
    while mem(p.cp) != 0
      invariant p.dest < length && Between(mem, size, start, hops, p, out[..p.dest])
      invariant out[length..] == old(out[length..])
      decreases Room(p, size, length)
    {
      var ok;
      ok, p, hops := HopOnce(mem, size, start, out, length, p, hops);
      if !ok {
        return -1, hops, end;
      }
    }
    Arrived(mem, size, start, length, hops, p.cp, p.copied, p.taken);
    UsedIsNat(hops);
    end := p.dest;
    out[p.dest] := 0;
    len := if p.taken < 0 then p.cp - start else p.taken;
  }

  /** The dot, if any, and the label. */
  method AppendLabel(mem: int -> byte, size: int, cp: int, w: nat, out: array<byte>, length: nat, from: nat,
                     ghost hops: seq<Hop>)
    returns (ok: bool, dest: nat)
    requires from < length <= out.Length && w > 0 && out[..from] == Printed([], hops)
    modifies out
    ensures out[length..] == old(out[length..])
    ensures dest <= length
    ensures ok ==>
              && from < dest
              && out[..dest] == Printed([], hops + [Label(Bytes(mem, cp + 1, w))])
    ensures ok <==> cp + 1 + w <= size && |Printed([], hops + [Label(Bytes(mem, cp + 1, w))])| < length
  {
    ghost var front := out[..from];
    ghost var h := Label(Bytes(mem, cp + 1, w));
    PrintedAppend([], hops, [h]);
    assert [h][1..] == [];
    dest := from;
    if dest != 0 {
      out[dest] := DOT;
      dest := dest + 1;
    }
    ghost var behind := if front == [] then [] else front + [DOT];
    assert Printed([], hops + [h]) == behind + Escaped(h.bytes);
    if dest + w >= length {
      return false, dest;
    }
    assert out[..dest] == behind;
    ok, dest := CopyLabel(mem, size, cp + 1, w, out, length, dest);
  }

  lemma LabelFails(mem: int -> byte, size: int, start: int, length: nat, hops: seq<Hop>, cp: int, copied: int)
    requires Leads(mem, size, start, hops, cp) && Copied(size, hops, copied)
    requires mem(cp) != 0 && mem(cp) & 0xc0 == 0
    requires var w := mem(cp) as int;
             cp + 1 + w > size || |Printed([], hops + [Label(Bytes(mem, cp + 1, w))])| >= length
    ensures forall h :: !Expandable(mem, size, start, length, h)
  {
    var h := Label(Bytes(mem, cp + 1, mem(cp) as int));
    forall rest | Spells(mem, size, cp, rest) ensures |Printed(Printed([], hops), rest)| >= length {
      assert rest == [h] + rest[1..];
      PrintedAppend([], hops, [h]);
      PrintedAppend(Printed([], hops), [h], rest[1..]);
      PrintedGrows(Printed([], hops + [h]), rest[1..]);
    }
    NotExpandable(mem, size, start, length, hops, cp, copied);
  }

  lemma JumpFails(mem: int -> byte, size: int, start: int, length: nat, hops: seq<Hop>, cp: int, copied: int)
    requires Leads(mem, size, start, hops, cp) && Copied(size, hops, copied)
    requires mem(cp) & 0xc0 == 0xc0
    requires var t := Target(mem(cp), mem(cp + 1)); t < 0 || t >= size || copied + 2 >= size
    ensures forall h :: !Expandable(mem, size, start, length, h)
  {
    ZeroIsNoPointer(mem(cp));
    NotExpandable(mem, size, start, length, hops, cp, copied);
  }

  lemma LabelOn(mem: int -> byte, size: int, start: int, hops: seq<Hop>, cp: int)
    requires Leads(mem, size, start, hops, cp) && mem(cp) != 0 && mem(cp) & 0xc0 == 0
    requires cp + 1 + mem(cp) as int <= size
    ensures var w := mem(cp) as int;
            Leads(mem, size, start, hops + [Label(Bytes(mem, cp + 1, w))], cp + 1 + w)
  {
    var w := mem(cp) as int;
    var h := Label(Bytes(mem, cp + 1, w));
    forall rest | Spells(mem, size, cp + 1 + w, rest) ensures Spells(mem, size, cp, [h] + rest) {
      assert ([h] + rest)[1..] == rest;
    }
    LeadsOn(mem, size, start, hops, cp, h, cp + 1 + w);
  }

  lemma JumpOn(mem: int -> byte, size: int, start: int, hops: seq<Hop>, cp: int, t: int)
    requires Leads(mem, size, start, hops, cp) && mem(cp) & 0xc0 == 0xc0
    requires t == Target(mem(cp), mem(cp + 1)) && 0 <= t < size
    ensures Leads(mem, size, start, hops + [Jump(t)], t)
  {
    ZeroIsNoPointer(mem(cp));
    forall rest | Spells(mem, size, t, rest) ensures Spells(mem, size, cp, [Jump(t)] + rest) {
      assert ([Jump(t)] + rest)[1..] == rest;
    }
    LeadsOn(mem, size, start, hops, cp, Jump(t), t);
  }
}
