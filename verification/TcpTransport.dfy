/** The receive buffer of a TCP connection, its framing loop, and the partial-write sender. */
module TcpTransport {
  import opened CaseFolding
  import opened Sequences
  import opened TcpFraming
  import opened TcpMessages

  const SIP_MESSAGE_MAX_LENGTH: nat := 4000
  const GROWTH: nat := 1000

  // ---------------------------------------------------------------- the framing loop

  method Memchr(hay: array<char>, search: nat, end: nat, c: char) returns (p: nat)
    requires search <= end <= hay.Length
    ensures search <= p <= end
    ensures forall j :: search <= j < p ==> hay[j] != c
    ensures p < end ==> hay[p] == c
  {
    p := search;
    while p < end && hay[p] != c
      invariant search <= p <= end
      invariant forall j :: search <= j < p ==> hay[j] != c
    {
      p := p + 1;
    }
  }

  /** Like strstr on the bytes hay[start..start + len]; `found` tells whether p is a place of the needle. */
  method BufferFind(hay: array<char>, start: nat, len: nat, needle: text) returns (p: nat, found: bool)
    requires start + len <= hay.Length && needle != []
    ensures var k := Find(hay[start..start + len], needle, 0);
            found == (k < len) && (found ==> p == start + k)
  {
    hide Find, MatchAt;
    ghost var s := hay[start..start + len];
    var search, end := start, start + len;
    while search < end
      invariant start <= search <= end
      invariant forall j :: 0 <= j < search - start ==> !MatchAt(s, needle, j)
    {
      p := Memchr(hay, search, end, needle[0]);
      forall j | 0 <= j < p - start ensures !MatchAt(s, needle, j) {
        if search - start <= j {
          Mismatch(s, needle, j, 0);
        }
      }
      if p == end || p + |needle| > end {
        NoRoom(s, needle, p - start);
        return p, false;
      }
      if hay[p..p + |needle|] == needle {
        MatchHere(hay, start, len, needle, p);
        FindUnique(s, needle, 0, p - start);
        return p, true;
      }
      NoMatchHere(hay, start, len, needle, p);
      search := p + 1;
    }
    FindUnique(s, needle, 0, len);
    return search, false;
  }

  lemma MatchHere(hay: array<char>, start: nat, len: nat, needle: text, p: nat)
    requires start <= p && p + |needle| <= start + len <= hay.Length && hay[p..p + |needle|] == needle
    ensures MatchAt(hay[start..start + len], needle, p - start)
  {
    SliceOfSlice(hay, start, p, p + |needle|, start + len);
  }

  lemma NoMatchHere(hay: array<char>, start: nat, len: nat, needle: text, p: nat)
    requires start <= p && p + |needle| <= start + len <= hay.Length && hay[p..p + |needle|] != needle
    ensures !MatchAt(hay[start..start + len], needle, p - start)
  {
    SliceOfSlice(hay, start, p, p + |needle|, start + len);
  }

  lemma NoRoom(s: text, needle: text, p: nat)
    requires needle != [] && p + |needle| > |s| && p <= |s|
    requires forall j :: 0 <= j < p ==> !MatchAt(s, needle, j)
    ensures Find(s, needle, 0) == |s|
  {
    FindUnique(s, needle, 0, |s|);
  }

  /** The NUL-terminated string at `start`: the program writes a NUL at `stop` first. */
  method CStringAt(buf: array<char>, start: nat, stop: nat) returns (s: text)
    requires start <= stop < buf.Length && buf[stop] == '\0'
    ensures s == CString(buf[start..stop])
  {
    ghost var t := buf[start..stop];
    var i := start;
    while buf[i] != '\0'
      invariant start <= i <= stop
      invariant forall j :: 0 <= j < i - start ==> !MatchAt(t, "\0", j)
      decreases stop - i
    {
      Mismatch(t, "\0", i - start, 0);
      i := i + 1;
    }
    s := buf[start..i];
    if i < stop {
      SliceOfSlice(buf, start, i, i + 1, stop);
    }
    FindUnique(t, "\0", 0, i - start);
    FrontOfSlice(buf, start, i, stop);
  }

  /** A stream of bytes between two peers; what was written and not yet read. */
  class TcpStream {
    var wire: text
    var closed: bool

    constructor ()
      ensures wire == [] && !closed
    {
      wire, closed := [], false;
    }

    /** recv: any nonempty part of what is there; zero for no room or the end; negative for nothing yet or an error. */
    method Recv(room: nat) returns (r: int, data: text)
      modifies this
      ensures closed == old(closed)
      ensures data + wire == old(wire)
      ensures r > 0 ==> r == |data| <= room
      ensures r <= 0 ==> data == []
      ensures r == 0 ==> room == 0 || (closed && wire == [])
    {
      var fails: bool := *;
      if room == 0 || (closed && wire == []) {
        r, data := 0, [];
      } else if fails || wire == [] {
        r, data := -1, [];
      } else {
        var n: nat :| 0 < n <= room && n <= |wire| by {
          assert 0 < 1 <= room && 1 <= |wire|;
        }
        r, data := n, wire[..n];
        wire := wire[n..];
      }
    }
  }

  /** How a readable event turns out; the last two are the framing loop going wrong. */
  datatype Outcome = Success | Closed | Crashed | Stuck

  function OutcomeOf(end: LoopEnd): Outcome {
    match end
    case Ends => Success
    case FollowsNull => Crashed
    case NeverEnds => Stuck
  }

  class SockInfo {
    var buf: array?<char>
    var bufsize: nat
    var buflen: nat
    var delivered: seq<text>      // what the layer above was given
    ghost var received: text      // all bytes read since the connection began

    ghost predicate Valid()
      reads this
    {
      && buflen <= bufsize
      && (buf == null ==> bufsize == 0)
      && (buf != null ==> buf.Length == bufsize >= SIP_MESSAGE_MAX_LENGTH)
    }

    ghost function Contents(): text
      requires Valid()
      reads this, buf
    {
      if buf == null then [] else buf[..buflen]
    }

    /** What framing the whole stream so far would give is what was delivered and what is still held. */
    ghost predicate Framed()
      requires Valid()
      reads this, buf
    {
      AllDelivered() && Contents() == Frames(received).rest
    }

    /** Every complete message read so far was delivered once, in order, and nothing else was. */
    ghost predicate AllDelivered()
      reads this
    {
      delivered == MessagesOf(Frames(received).frames)
    }

    constructor ()
      ensures Valid() && buf == null && delivered == [] && received == [] && Framed()
    {
      buf, bufsize, buflen, delivered, received := null, 0, 0, [], [];
      new;
      assert NextStep([]) == Wait;
    }

    /**
     * The length a block of headers announces. The stuffed NUL is taken out again, unless the program crashes first.
     */
    method AnnouncedLength(start: nat, stop: nat) returns (l: Length)
      requires buf != null && start <= stop < buf.Length && buf[stop] == '\r'
      modifies buf
      ensures l == LengthIn(old(buf[start..stop]))
      ensures !l.NoColon? ==> buf[..] == old(buf[..])
    {
      ghost var all := buf[..];
      buf[stop] := '\0';
      assert buf[start..stop] == all[start..stop];
      var h := CStringAt(buf, start, stop);
      var k := HeaderAt(Lower(h));
      l := Absent;
      if k < |h| {
        var colon := Find(h, ":", k);
        if colon == |h| {
          return NoColon;
        }
        l := Value(Atoi(h[colon + 1..]));
      }
      buf[stop] := '\r';
      assert buf[..] == all;
    }

    /** What to do with the frame at `start`, whose headers end at `e`. */
    method MeasureFrame(start: nat, len: nat, e: nat) returns (step: Step)
      requires buf != null && start + len <= buf.Length
      requires var s := buf[start..start + len]; start < e && e - start == Find(s, END_HEADERS, 0) < |s|
      modifies buf
      ensures step == NextStep(old(buf[start..start + len])) && !step.Skip?
      ensures !step.Crash? ==> buf[..] == old(buf[..])
    {
      hide NextStep, Find, LengthIn;
      ghost var h := HeadersAt(buf, start, len, e);
      var l := AnnouncedLength(start, e);
      assert l == LengthIn(h);
      if l.NoColon? {
        return Crash;
      }
      var clen := if l.Value? then l.clen else 0;
      var msglen := e + 4 - start + clen;
      if msglen < 0 || msglen > len {
        step := Wait;
      } else if msglen == 0 {
        step := Stall;
      } else {
        step := Take(msglen);
      }
    }

    method Deliver(start: nat, msglen: nat)
      requires buf != null && start + msglen <= buf.Length
      modifies this`delivered
      ensures delivered == old(delivered) + [buf[start..start + msglen]]
    {
      delivered := delivered + [buf[start..start + msglen]];
    }

    /** One pass of the loop over the `len` bytes s at `start`. */
    method HandleFrame(start: nat, len: nat, ghost delivered0: seq<text>, ghost out: seq<Frame>, ghost s: text)
      returns (step: Step, ghost out': seq<Frame>)
      requires buf != null && start + len <= buf.Length && s == buf[start..start + len]
      requires delivered == delivered0 + MessagesOf(out)
      modifies this`delivered, buf
      ensures step == NextStep(s)
      ensures !step.Crash? ==> buf[..] == old(buf[..])
      ensures if step.Skip? || step.Take? then TookOne(s, out, FirstFrame(s).1, out') else out' == out
      ensures delivered == delivered0 + MessagesOf(out')
    {
      hide MessagesOf, Find, AfterHeaders, LengthIn;
      ghost var all := buf[..];
      assert all[start..start + len] == s;
      var e, found := BufferFind(buf, start, len, END_HEADERS);
      if !found {
        return Wait, out;
      }
      if e == start {
        MessagesOneMore(out, KeepAlive);
        return Skip, out + [KeepAlive];
      }
      step := MeasureFrame(start, len, e);
      out' := out;
      if step.Take? {
        assert buf[..] == all;
        out' := TakeFrame(start, len, step.len, delivered0, out, s);
      }
    }

    lemma HeldBytes()
      requires Valid() && buf != null
      ensures Contents() == buf[..][0..0 + buflen]
    {
    }

    lemma NoMessages()
      ensures MessagesOf([]) == [] && delivered + [] == delivered
    {
    }

    /** A complete message is handed up. */
    method TakeFrame(start: nat, len: nat, msglen: nat, ghost delivered0: seq<text>, ghost out: seq<Frame>,
                     ghost s: text)
      returns (ghost out': seq<Frame>)
      requires buf != null && start + len <= buf.Length && s == buf[..][start..start + len]
      requires NextStep(s) == Take(msglen) && delivered == delivered0 + MessagesOf(out)
      modifies this`delivered
      ensures TookOne(s, out, msglen, out') && FirstFrame(s).1 == msglen
      ensures delivered == delivered0 + MessagesOf(out')
    {
      hide MessagesOf, NextStep;
      ghost var m := s[..msglen];
      SliceFront(buf[..], start, len, msglen);
      ArraySlice(buf, start, start + msglen);
      Deliver(start, msglen);
      MessagesOneMore(out, Message(m));
      ConcatAssociative(delivered0, MessagesOf(out), [m]);
      out' := out + [Message(m)];
    }

    /** The same, seen from the whole stream: `out` was taken before, and `whole` is all there is to take. */
    method HandleNext(start: nat, len: nat, ghost delivered0: seq<text>, ghost whole: Framing,
                      ghost out: seq<Frame>, ghost all: text, ghost s: text)
      returns (step: Step, used: nat, ghost out': seq<Frame>, ghost s': text)
      requires buf != null && start + len <= buf.Length && all == buf[..] && s == all[start..start + len]
      requires Ahead(whole, out, s) && delivered == delivered0 + MessagesOf(out)
      modifies this`delivered, buf
      ensures step == NextStep(s) && delivered == delivered0 + MessagesOf(out')
      ensures !step.Crash? ==> buf[..] == all
      ensures used <= len
      ensures if step.Skip? || step.Take?
              then 0 < used && s' == all[start + used..start + used + (len - used)] && Ahead(whole, out', s')
              else s' == s && whole == Framing(out', s)
    {
      hide MessagesOf, Ahead, NextStep;
      ArraySlice(buf, start, start + len);
      step, out' := HandleFrame(start, len, delivered0, out, s);
      if step.Skip? || step.Take? {
        used := if step.Skip? then 4 else step.len;
        AheadStep(whole, out, s, used, out');
        SliceBehind(all, start, len, used);
        s' := s[used..];
      } else {
        used, s' := 0, s;
        Done(whole, out, s);
      }
    }

    /**
     * A crash ends the program inside the loop; where the program repeats a pass that changes nothing, so does this.
     */
    method FrameLoop(ghost whole: Framing) returns (consumed: nat, end: LoopEnd)
      requires Valid() && buf != null && Ahead(whole, [], Contents())
      modifies this`delivered, buf
      ensures consumed <= buflen && old(buf[..])[consumed..buflen] == whole.rest
      ensures !end.FollowsNull? ==> buf[..] == old(buf[..])
      ensures delivered == old(delivered) + MessagesOf(whole.frames)
      ensures end == EndAt(whole.rest)
    {
      hide MessagesOf, Ahead, NextStep, EndAt, Frames, Find, Contents;
      NothingLeftEnds();
      NoMessages();
      ghost var all, out: seq<Frame>, s: text := buf[..], [], Contents();
      HeldBytes();
      consumed, end := 0, Ends;
      var start, len := 0, buflen;
      while len > 0
        invariant start == consumed && consumed + len == buflen <= buf.Length == |all|
        invariant buf[..] == all && s == all[start..start + len]
        invariant Ahead(whole, out, s) && end == Ends
        invariant delivered == old(delivered) + MessagesOf(out)
        decreases len
      {
        ghost var before := s;
        var step, used;
        step, used, out, s := HandleNext(start, len, old(delivered), whole, out, all, s);
        if !step.Skip? && !step.Take? {
          end := if step.Crash? then FollowsNull else if step.Stall? then NeverEnds else Ends;
          EndAtStep(before);
          return;
        }
        consumed, len, start := consumed + used, len - used, start + used;
      }
      DoneEmpty(whole, out, s);
    }

    /**
     * Delivers every complete message at the front of the buffer and returns how many bytes were used up. The buffer
     * itself is left as it was, byte for byte, unless the program crashes.
     */
    method HandleMessages() returns (consumed: nat, end: LoopEnd)
      requires Valid() && buf != null
      modifies this`delivered, buf
      ensures consumed <= buflen && old(buf[..])[consumed..buflen] == Frames(old(Contents())).rest
      ensures delivered == old(delivered) + MessagesOf(Frames(old(Contents())).frames)
      ensures end == EndOf(old(Contents()))
      ensures !end.FollowsNull? ==> buf[..] == old(buf[..])
    {
      ghost var whole := Frames(Contents());
      consumed, end := FrameLoop(whole);
    }

    /** A buffer with at least one byte of room: allocated, grown when full, back to its first size when empty. */
    method MakeRoom()
      requires Valid()
      modifies this`buf, this`bufsize
      ensures Valid() && buf != null && buflen < bufsize && Contents() == old(Contents())
      ensures buf == old(buf) || fresh(buf)
      ensures buflen == 0 ==> bufsize == 4000
      ensures 0 < buflen < old(bufsize) ==> buf == old(buf) && bufsize == old(bufsize)
      ensures 0 < buflen == old(bufsize) ==> bufsize == old(bufsize) + 1000
    {
      if buf == null {
        buf := new char[SIP_MESSAGE_MAX_LENGTH];
        bufsize := SIP_MESSAGE_MAX_LENGTH;
      }
      if bufsize - buflen <= 0 {
        var bigger := new char[bufsize + GROWTH];
        CopyInto(bigger, 0, buf, 0, bufsize);
        assert bigger[..buflen] == bigger[0..0 + bufsize][..buflen];
        buf, bufsize := bigger, bufsize + GROWTH;
      }
      if buflen == 0 && bufsize > SIP_MESSAGE_MAX_LENGTH {
        buf := new char[SIP_MESSAGE_MAX_LENGTH];
        bufsize := SIP_MESSAGE_MAX_LENGTH;
      }
    }

    /** recv writes behind the bytes held. */
    method PutBehind(data: text)
      requires Valid() && buf != null && buflen + |data| <= bufsize
      modifies this`buflen, this`received, buf
      ensures Valid() && Contents() == old(Contents()) + data && received == old(received) + data
    {
      var at := buflen;
      forall i | 0 <= i < |data| {
        buf[at + i] := data[i];
      }
      buflen, received := buflen + |data|, received + data;
    }

    method DropFront(consumed: nat)
      requires Valid() && buf != null && consumed <= buflen
      modifies this`buflen, buf
      ensures Valid() && Contents() == old(buf[consumed..buflen])
    {
      ghost var kept := buf[consumed..buflen];
      if consumed > 0 {
        if buflen > consumed {
          assert buf[consumed..consumed + (buflen - consumed)] == kept;
          CopyInto(buf, 0, buf, consumed, buflen - consumed);
          buflen := buflen - consumed;
        } else {
          buflen := 0;
        }
      }
    }

    /** Frames what arrived: the invariant moves from the stream before to the stream with `data` behind it. */
    method TakeIn(data: text) returns (end: LoopEnd)
      requires Valid() && Framed() && buf != null && buflen + |data| <= bufsize
      modifies this`buflen, this`received, this`delivered, buf
      ensures Valid() && received == old(received) + data
      ensures AllDelivered() && end == EndOf(received)
      ensures end.Ends? ==> Framed()
    {
      hide Frames, MessagesOf;
      ghost var before, rest := received, Contents();
      FramesSplit(before, data);
      MessagesAppend(Frames(before).frames, Frames(rest + data).frames);
      PutBehind(data);
      var consumed;
      consumed, end := HandleMessages();
      if end.Ends? {
        DropFront(consumed);
      }
    }

    method CloseSocket()
      requires Valid()
      modifies this`buf, this`bufsize, this`buflen
      ensures Valid() && buf == null && Contents() == []
    {
      buf, bufsize, buflen := null, 0, 0;
    }

    /**
     * One readable event; n is what recv returned.
     */
    method TcpRecv(sock: TcpStream) returns (r: Outcome, n: int)
      requires Valid() && Framed()
      modifies this, buf, sock
      ensures Valid()
      ensures buf == null || buf == old(buf) || fresh(buf)
      ensures sock.closed == old(sock.closed) && received + sock.wire == old(received + sock.wire)
      ensures r.Success? ==> Framed()
      ensures r.Closed? ==> buf == null && received == old(received)
      ensures AllDelivered()
      ensures n > 0 ==> r == OutcomeOf(EndOf(received)) && |received| == |old(received)| + n
      ensures r.Crashed? ==> EndOf(received).FollowsNull?
      ensures r.Stuck? ==> EndOf(received).NeverEnds?
      ensures n <= 0 ==> (r.Success? || r.Closed?) && received == old(received) && delivered == old(delivered)
      ensures n == 0 ==> r.Closed? && sock.closed && sock.wire == []
    {
      hide Frames, MessagesOf, EndOf;
      MakeRoom();
      var data;
      n, data := sock.Recv(bufsize - buflen);
      ConcatAssociative(received, data, sock.wire);
      if n == 0 {
        CloseSocket();
        return Closed, n;
      } else if n < 0 {
        var wouldBlock: bool := *;
        if !wouldBlock {
          CloseSocket();
          return Closed, n;
        }
        return Success, n;
      }
      var end := TakeIn(data);
      r := OutcomeOf(end);
    }
  }

  /** `used` bytes at the front of s were one frame, which is now the last of out'. */
  ghost predicate TookOne(s: text, out: seq<Frame>, used: nat, out': seq<Frame>) {
    && (NextStep(s).Skip? || NextStep(s).Take?)
    && FirstFrame(s).1 == used && out' == out + [FirstFrame(s).0]
  }

  /** The headers in front of `e`, and what they decide. */
  lemma HeadersAt(buf: array<char>, start: nat, len: nat, e: nat) returns (h: text)
    requires start + len <= buf.Length
    requires var s := buf[start..start + len]; start < e && e - start == Find(s, END_HEADERS, 0) < |s|
    ensures h == buf[start..e] && buf[e] == '\r'
    ensures NextStep(buf[start..start + len]) == AfterHeaders(e - start, LengthIn(h), len)
  {
    hide NextStep, Find, LengthIn, AfterHeaders;
    var s := buf[start..start + len];
    h := buf[start..e];
    FrontOfSlice(buf, start, e, start + len);
    ReturnAt(s, e - start);
    StepBehindHeaders(s, e - start);
    assert s[e - start] == buf[e];
  }

  lemma ReturnAt(s: text, e: nat)
    requires e == Find(s, END_HEADERS, 0) < |s|
    ensures s[e] == '\r'
  {
    FindIsFirst(s, END_HEADERS, 0);
    assert s[e..e + 4][0] == s[e];
  }

  lemma StepBehindHeaders(s: text, e: nat)
    requires 0 < e == Find(s, END_HEADERS, 0) < |s|
    ensures NextStep(s) == AfterHeaders(e, LengthIn(s[..e]), |s|)
  {
  }

  lemma SliceFront(all: text, start: nat, len: nat, m: nat)
    requires start + len <= |all| && m <= len
    ensures all[start..start + len][..m] == all[start..start + m]
  {
  }

  lemma SliceBehind(all: text, start: nat, len: nat, m: nat)
    requires start + len <= |all| && m <= len
    ensures all[start..start + len][m..] == all[start + m..start + m + (len - m)]
  {
  }

  /** The frames `out` were taken; those of `s` are still to come. */
  ghost predicate Ahead(whole: Framing, out: seq<Frame>, s: text) {
    whole == Framing(out + Frames(s).frames, Frames(s).rest)
  }

  lemma AheadStep(whole: Framing, out: seq<Frame>, s: text, used: nat, out': seq<Frame>)
    requires Ahead(whole, out, s) && TookOne(s, out, used, out')
    ensures 0 < used <= |s| && Ahead(whole, out', s[used..])
  {
    FramesStep(s);
    ConcatAssociative(out, [FirstFrame(s).0], Frames(s[used..]).frames);
  }

  lemma Done(whole: Framing, out: seq<Frame>, s: text)
    requires Ahead(whole, out, s) && !NextStep(s).Skip? && !NextStep(s).Take?
    ensures whole == Framing(out, s)
  {
    assert out + [] == out;
  }

  lemma DoneEmpty(whole: Framing, out: seq<Frame>, s: text)
    requires Ahead(whole, out, s) && s == []
    ensures whole == Framing(out, s)
  {
    assert NextStep([]) == Wait;
    Done(whole, out, s);
  }
}
