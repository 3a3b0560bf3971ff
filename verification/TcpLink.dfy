/** The partial-write sender, and both ends of a connection together. */
module TcpLink {
  import opened Sequences
  import opened TcpFraming
  import opened TcpMessages
  import opened TcpTransport

  /** What one call of send does; `sel` is what select says after a would-block. */
  datatype SendEvent = Wrote(n: nat) | WouldBlock(sel: int) | Failed

  /** Calls that make progress or only have to be repeated. */
  predicate Steady(e: SendEvent) {
    match e
    case Wrote(n) => n > 0
    case WouldBlock(sel) => sel >= 0
    case Failed => false
  }

  ghost predicate AllSteady(schedule: seq<SendEvent>) {
    forall i :: 0 <= i < |schedule| ==> Steady(schedule[i])
  }

  /** How many of `left` bytes go out under a schedule, and what the sender returns. */
  function Sending(schedule: seq<SendEvent>, left: nat): (r: (nat, int))
    ensures r.0 <= left
  {
    if schedule == [] then (left, 0)
    else match schedule[0]
      case Wrote(n) =>
        if n >= left then (left, 0)
        else if n == 0 then (0, 0)
        else (n + Sending(schedule[1..], left - n).0, Sending(schedule[1..], left - n).1)
      case WouldBlock(sel) => if sel < 0 then (0, -1) else Sending(schedule[1..], left)
      case Failed => (0, -1)
  }

  /** Partial writes that all make progress add up to the whole message. */
  lemma {:induction false} SteadySendsAll(schedule: seq<SendEvent>, left: nat)
    requires AllSteady(schedule)
    ensures Sending(schedule, left) == (left, 0)
    decreases |schedule|
  {
    if schedule != [] {
      assert Steady(schedule[0]);
      SteadySendsAll(schedule[1..], left);
      if schedule[0].Wrote? && schedule[0].n < left {
        SteadySendsAll(schedule[1..], left - schedule[0].n);
      }
    }
  }

  /** Success is reported for a message cut short exactly when a send took nothing before it was out. */
  lemma {:induction false} ShortSuccess(schedule: seq<SendEvent>, left: nat)
    requires Sending(schedule, left).1 == 0
    ensures Sending(schedule, left).0 < left <==> TookNothing(schedule, left)
    decreases |schedule|
  {
    if schedule != [] && schedule[0] == Wrote(0) {
      assert Written(schedule[..0]) == 0;
    } else if schedule != [] {
      var w := if schedule[0].Wrote? then schedule[0].n else 0;
      LaterZero(schedule, left, w);
      if w < left {
        ShortSuccess(schedule[1..], left - w);
      } else if left == 0 && !schedule[0].Wrote? {
        ShortSuccess(schedule[1..], 0);
      }
    }
  }

  lemma LaterZero(schedule: seq<SendEvent>, left: nat, w: nat)
    requires schedule != [] && schedule[0] != Wrote(0) && w == if schedule[0].Wrote? then schedule[0].n else 0
    ensures TookNothing(schedule, left) <==> w < left && TookNothing(schedule[1..], left - w)
  {
    var rest := schedule[1..];
    forall i | 0 <= i < |rest| ensures Written(schedule[..i + 1]) == w + Written(rest[..i]) {
      assert schedule[..i + 1][1..] == rest[..i];
    }
    if TookNothing(schedule, left) {
      var i :| 0 <= i < |schedule| && schedule[i] == Wrote(0) && Written(schedule[..i]) < left;
      assert rest[i - 1] == Wrote(0) && Written(rest[..i - 1]) < left - w;
    }
    if w < left && TookNothing(rest, left - w) {
      var i :| 0 <= i < |rest| && rest[i] == Wrote(0) && Written(rest[..i]) < left - w;
      assert schedule[i + 1] == Wrote(0) && Written(schedule[..i + 1]) < left;
    }
  }

  /** The first write that does not move the message forward comes before the writes that finish it. */
  ghost predicate TookNothing(schedule: seq<SendEvent>, left: nat) {
    exists i :: 0 <= i < |schedule| && schedule[i] == Wrote(0) && Written(schedule[..i]) < left
  }

  function Written(schedule: seq<SendEvent>): nat {
    if schedule == [] then 0
    else (if schedule[0].Wrote? then schedule[0].n else 0) + Written(schedule[1..])
  }

  /** A send that failed, or a select that did after a would-block. */
  predicate Broken(e: SendEvent) {
    e.Failed? || (e.WouldBlock? && e.sel < 0)
  }

  /** Before event i every write moved the message forward and did not finish it, and nothing broke. */
  ghost predicate GoesOn(schedule: seq<SendEvent>, left: nat, i: nat)
    requires i <= |schedule|
  {
    forall j :: 0 <= j < i ==> StillGoing(schedule, left, j)
  }

  predicate StillGoing(schedule: seq<SendEvent>, left: nat, j: nat)
    requires j < |schedule|
  {
    !Broken(schedule[j]) && (schedule[j].Wrote? ==> 0 < schedule[j].n && Written(schedule[..j + 1]) < left)
  }

  ghost predicate Breaks(schedule: seq<SendEvent>, left: nat) {
    exists i :: 0 <= i < |schedule| && BreaksAt(schedule, left, i)
  }

  ghost predicate BreaksAt(schedule: seq<SendEvent>, left: nat, i: nat)
    requires i < |schedule|
  {
    Broken(schedule[i]) && GoesOn(schedule, left, i)
  }

  lemma GoingLater(schedule: seq<SendEvent>, left: nat, w: nat, j: nat)
    requires j + 1 < |schedule| && w == (if schedule[0].Wrote? then schedule[0].n else 0) && w <= left
    ensures StillGoing(schedule, left, j + 1) <==> StillGoing(schedule[1..], left - w, j)
  {
    assert schedule[..j + 2][1..] == schedule[1..][..j + 1];
  }

  lemma BreaksLater(schedule: seq<SendEvent>, left: nat, w: nat)
    requires schedule != [] && w == (if schedule[0].Wrote? then schedule[0].n else 0) && w <= left
    requires !Broken(schedule[0]) && StillGoing(schedule, left, 0)
    ensures Breaks(schedule, left) <==> Breaks(schedule[1..], left - w)
  {
    hide StillGoing, Broken;
    var rest, left' := schedule[1..], left - w;
    if Breaks(schedule, left) {
      var i :| 0 <= i < |schedule| && BreaksAt(schedule, left, i);
      assert i > 0;
      forall j | 0 <= j < i - 1 ensures StillGoing(rest, left', j) {
        GoingLater(schedule, left, w, j);
        assert StillGoing(schedule, left, j + 1);
      }
      assert BreaksAt(rest, left', i - 1);
    }
    if Breaks(rest, left') {
      var i :| 0 <= i < |rest| && BreaksAt(rest, left', i);
      forall j | 0 <= j < i + 1 ensures StillGoing(schedule, left, j) {
        if j > 0 {
          GoingLater(schedule, left, w, j - 1);
        }
      }
      assert BreaksAt(schedule, left, i + 1);
    }
  }

  /**
   * The sender reports a failure exactly when a send or a select fails before the message is out or a send takes
   * nothing.
   */
  lemma {:induction false} FailureReported(schedule: seq<SendEvent>, left: nat)
    ensures Sending(schedule, left).1 == if Breaks(schedule, left) then -1 else 0
    decreases |schedule|
  {
    if schedule != [] {
      FirstWritten(schedule);
      var e, w := schedule[0], if schedule[0].Wrote? then schedule[0].n else 0;
      if Broken(e) {
        assert BreaksAt(schedule, left, 0);
      } else if e.Wrote? && (w == 0 || w >= left) {
        forall i | 0 <= i < |schedule| ensures !BreaksAt(schedule, left, i) {
          assert !StillGoing(schedule, left, 0);
        }
      } else {
        BreaksLater(schedule, left, w);
        FailureReported(schedule[1..], left - w);
      }
    }
  }

  lemma FirstWritten(schedule: seq<SendEvent>)
    requires schedule != []
    ensures Written(schedule[..1]) == if schedule[0].Wrote? then schedule[0].n else 0
  {
    assert schedule[..1][1..] == [];
  }

  /** What one pass of the sending loop leads to. */
  datatype Pass = Again | Finished(r: int)

  /** Where a pass gets to in a message of n bytes of which `at` are out, and whether the loop goes on. */
  function AfterSend(e: SendEvent, at: nat, n: nat): (r: (nat, Pass))
    requires at <= n
    ensures at <= r.0 <= n
    ensures Steady(e) && at < n ==> r.1 == (if r.0 < n then Again else Finished(0))
  {
    match e
    case Wrote(k) =>
      if k == 0 || at == n then (at, Finished(0))
      else if k >= n - at then (n, Finished(0))
      else (at + k, Again)
    case WouldBlock(sel) => if sel < 0 then (at, Finished(-1)) else (at, Again)
    case Failed => (at, Finished(-1))
  }

  /** One pass of the loop: `send`, and `select` after a would-block. */
  method SendOnce(sock: TcpStream, msg: text, at: nat, e: SendEvent) returns (at': nat, p: Pass)
    requires at <= |msg|
    modifies sock`wire
    ensures (at', p) == AfterSend(e, at, |msg|)
    ensures at <= at' <= |msg| && sock.wire == old(sock.wire) + msg[at..at']
  {
    at' := at;
    assert sock.wire + msg[at..at] == sock.wire;
    match e {
      case Wrote(n) =>
        var left := |msg| - at;
        var taken := if n < left then n else left;
        sock.wire := sock.wire + msg[at..at + taken];
        at' := at + taken;
        p := if 0 < taken < left then Again else Finished(0);
      case WouldBlock(sel) =>
        p := if sel < 0 then Finished(-1) else Again;
      case Failed =>
        p := Finished(-1);
    }
  }

  /** Writes a message piece by piece under any schedule of partial writes; then whatever is left goes out. */
  method SendSockinfo(sock: TcpStream, msg: text, schedule: seq<SendEvent>) returns (r: int)
    modifies sock`wire
    ensures sock.wire == old(sock.wire) + msg[..Sending(schedule, |msg|).0]
    ensures r == Sending(schedule, |msg|).1
  {
    var i, at := 0, 0;
    ghost var before, end := sock.wire, Sending(schedule, |msg|);
    while i < |schedule|
      invariant 0 <= i <= |schedule| && 0 <= at <= |msg|
      invariant sock.wire == before + msg[..at]
      invariant end == (at + Sending(schedule[i..], |msg| - at).0, Sending(schedule[i..], |msg| - at).1)
    {
      assert schedule[i..][1..] == schedule[i + 1..];
      ghost var was := at;
      var p;
      at, p := SendOnce(sock, msg, at, schedule[i]);
      Extended(before, msg, was, at);
      if p.Finished? {
        return p.r;
      }
      i := i + 1;
    }
    ghost var was := at;
    var p;
    at, p := SendOnce(sock, msg, at, Wrote(|msg| - at));
    Extended(before, msg, was, at);
    return 0;
  }

  lemma Extended(before: text, msg: text, i: nat, j: nat)
    requires i <= j <= |msg|
    ensures (before + msg[..i]) + msg[i..j] == before + msg[..j]
  {
    assert msg[..i] + msg[i..j] == msg[..j];
    ConcatAssociative(before, msg[..i], msg[i..j]);
  }

  lemma {:induction false} BytesAppend(a: seq<Frame>, b: seq<Frame>)
    ensures BytesOfAll(a + b) == BytesOfAll(a) + BytesOfAll(b)
  {
    if a == [] {
      assert a + b == b;
    } else {
      assert (a + b)[1..] == a[1..] + b;
      BytesAppend(a[1..], b);
      ConcatAssociative(BytesOf(a[0]), BytesOfAll(a[1..]), BytesOfAll(b));
    }
  }

  // ---------------------------------------------------------------- both peers, one system call at a time

  /** The reader takes what there is, or the writer makes one pass of its sending loop. */
  datatype Turn = Read | Send(e: SendEvent)

  ghost predicate AllSteadyTurns(turns: seq<Turn>) {
    forall i :: 0 <= i < |turns| && turns[i].Send? ==> Steady(turns[i].e)
  }

  /** How far the writer is: frames out completely, and bytes of the next one. */
  datatype Progress = Progress(next: nat, at: nat)

  predicate Within(frames: seq<Frame>, p: Progress) {
    p.next <= |frames| && if p.next < |frames| then p.at < |BytesOf(frames[p.next])| else p.at == 0
  }

  /** All bytes written so far. */
  function BytesWritten(frames: seq<Frame>, p: Progress): text
    requires Within(frames, p)
  {
    BytesOfAll(frames[..p.next]) + if p.next < |frames| then BytesOf(frames[p.next])[..p.at] else []
  }

  function OnePass(frames: seq<Frame>, p: Progress, t: Turn): Progress
    requires Within(frames, p)
  {
    if t.Read? || p.next == |frames| then p
    else
      var n := |BytesOf(frames[p.next])|;
      var at := AfterSend(t.e, p.at, n).0;
      if at == n then Progress(p.next + 1, 0) else Progress(p.next, at)
  }

  ghost predicate NoneEmpty(frames: seq<Frame>) {
    forall i :: 0 <= i < |frames| ==> BytesOf(frames[i]) != []
  }

  /** How far the writer gets in a number of turns. */
  ghost function AllPasses(frames: seq<Frame>, turns: seq<Turn>): (p: Progress)
    requires NoneEmpty(frames)
    ensures Within(frames, p)
    decreases |turns|
  {
    if turns == [] then Progress(0, 0)
    else OnePass(frames, AllPasses(frames, turns[..|turns| - 1]), turns[|turns| - 1])
  }

  lemma WellFormedNotEmpty(frames: seq<Frame>)
    requires AllWellFormed(frames)
    ensures NoneEmpty(frames)
  {
    forall i | 0 <= i < |frames| ensures BytesOf(frames[i]) != [] {
      if frames[i].Message? {
        assert WellFormed(frames[i].bytes);
      }
    }
  }

  /** What is written is part of all there is to write. */
  lemma WrittenIsPrefix(frames: seq<Frame>, p: Progress) returns (rest: text)
    requires Within(frames, p)
    ensures BytesWritten(frames, p) + rest == BytesOfAll(frames)
    ensures p.next == |frames| ==> rest == []
  {
    assert frames == frames[..p.next] + frames[p.next..];
    BytesAppend(frames[..p.next], frames[p.next..]);
    if p.next < |frames| {
      var m := BytesOf(frames[p.next]);
      rest := m[p.at..] + BytesOfAll(frames[p.next..][1..]);
      assert m[..p.at] + rest == BytesOfAll(frames[p.next..]);
      ConcatAssociative(BytesOfAll(frames[..p.next]), m[..p.at], rest);
    } else {
      rest := [];
      assert frames[p.next..] == [];
    }
  }

  /** One more pass adds its bytes, within a frame or to its end. */
  lemma WrittenMore(frames: seq<Frame>, p: Progress, t: Turn)
    requires NoneEmpty(frames) && Within(frames, p) && t.Send? && p.next < |frames|
    ensures var m := BytesOf(frames[p.next]);
            && Within(frames, OnePass(frames, p, t))
            && BytesWritten(frames, OnePass(frames, p, t)) ==
                 BytesWritten(frames, p) + m[p.at..AfterSend(t.e, p.at, |m|).0]
  {
    var m := BytesOf(frames[p.next]);
    var front, at := BytesOfAll(frames[..p.next]), AfterSend(t.e, p.at, |m|).0;
    Extended(front, m, p.at, at);
    if at == |m| {
      PrefixGrows(frames, p.next);
      BytesAppend(frames[..p.next], [frames[p.next]]);
      assert BytesOfAll([frames[p.next]]) == m + BytesOfAll([frames[p.next]][1..]) == m;
      assert m[..at] == m && front + m + [] == front + m;
    }
  }

  /** What was delivered from part of a well-formed stream is a prefix of its messages; all of them in the end. */
  lemma DeliveredIsPrefix(frames: seq<Frame>, got: text, later: text)
    requires AllWellFormed(frames) && got + later == BytesOfAll(frames)
    ensures Sane(got)
    ensures MessagesOf(Frames(got).frames) <= MessagesOf(frames)
    ensures later == [] ==> MessagesOf(Frames(got).frames) == MessagesOf(frames)
  {
    FramesUndoWriting(frames);
    SanePrefix(got, later);
    hide Sane;
    FramesSplit(got, later);
    var a := Frames(got);
    var b := Frames(a.rest + later);
    assert frames == a.frames + b.frames;
    MessagesAppend(a.frames, b.frames);
    if later == [] {
      assert got + later == got;
    }
  }

  /** Whatever the writer has written of the list, and the reader read of that. */
  lemma Followed(frames: seq<Frame>, p: Progress, got: text, later: text)
    requires AllWellFormed(frames) && Within(frames, p) && got + later == BytesWritten(frames, p)
    ensures Sane(got)
    ensures MessagesOf(Frames(got).frames) <= MessagesOf(frames)
    ensures p.next == |frames| && later == [] ==> MessagesOf(Frames(got).frames) == MessagesOf(frames)
  {
    var rest := WrittenIsPrefix(frames, p);
    ConcatAssociative(got, later, rest);
    hide Sane, Frames, BytesWritten;
    DeliveredIsPrefix(frames, got, later + rest);
    assert later == [] && rest == [] ==> later + rest == [];
  }

  /** The peers' state: the writer is at p, and the reader has followed what it read. */
  ghost predicate InStep(info: SockInfo, sock: TcpStream, frames: seq<Frame>, p: Progress)
    reads info, info.buf, sock
  {
    && Within(frames, p) && info.Valid() && info.Framed()
    && info.received + sock.wire == BytesWritten(frames, p)
  }

  method WriteSome(info: SockInfo, sock: TcpStream, frames: seq<Frame>, p: Progress, e: SendEvent) returns (q: Progress)
    requires InStep(info, sock, frames, p) && NoneEmpty(frames) && Steady(e)
    modifies sock`wire
    ensures q == OnePass(frames, p, Send(e)) && InStep(info, sock, frames, q)
  {
    q := p;
    if p.next < |frames| {
      WrittenMore(frames, p, Send(e));
      hide BytesWritten;
      var m := BytesOf(frames[p.next]);
      ghost var wire := sock.wire;
      var at, pass := SendOnce(sock, m, p.at, e);
      ConcatAssociative(info.received, wire, m[p.at..at]);
      q := if pass.Finished? then Progress(p.next + 1, 0) else Progress(p.next, at);
    }
  }

  method ReadSome(info: SockInfo, sock: TcpStream, frames: seq<Frame>, p: Progress) returns (closed: bool)
    requires InStep(info, sock, frames, p) && AllWellFormed(frames)
    modifies info, info.buf, sock
    ensures !closed ==> InStep(info, sock, frames, p)
    ensures info.buf == null || info.buf == old(info.buf) || fresh(info.buf)
    ensures info.AllDelivered() && info.received + sock.wire == BytesWritten(frames, p)
  {
    var r, n := info.TcpRecv(sock);
    Followed(frames, p, info.received, sock.wire);
    SaneEnds(info.received);
    closed := r.Closed?;
  }

  method TakeTurn(info: SockInfo, sock: TcpStream, frames: seq<Frame>, p: Progress, t: Turn)
    returns (q: Progress, closed: bool)
    requires InStep(info, sock, frames, p) && AllWellFormed(frames) && NoneEmpty(frames) && (t.Send? ==> Steady(t.e))
    modifies info, info.buf, sock
    ensures q == OnePass(frames, p, t) && info.received + sock.wire == BytesWritten(frames, q)
    ensures info.AllDelivered() && (!closed ==> InStep(info, sock, frames, q))
    ensures info.buf == null || info.buf == old(info.buf) || fresh(info.buf)
  {
    hide AllWellFormed, NoneEmpty, BytesWritten, Frames, MessagesOf;
    match t {
      case Send(e) =>
        q := WriteSome(info, sock, frames, p, e);
        closed := false;
      case Read =>
        closed := ReadSome(info, sock, frames, p);
        q := p;
    }
  }

  method TakeTurns(info: SockInfo, sock: TcpStream, frames: seq<Frame>, turns: seq<Turn>)
    returns (ghost p: Progress, closed: bool)
    requires AllWellFormed(frames) && NoneEmpty(frames) && AllSteadyTurns(turns)
    requires InStep(info, sock, frames, Progress(0, 0))
    modifies info, info.buf, sock
    ensures Within(frames, p) && info.AllDelivered() && info.received + sock.wire == BytesWritten(frames, p)
    ensures !closed ==> p == AllPasses(frames, turns)
  {
    hide AllWellFormed, NoneEmpty, BytesWritten, AllPasses, OnePass, Frames, MessagesOf;
    var q, i := Progress(0, 0), 0;
    closed := false;
    NothingPassed(frames, turns);
    while i < |turns| && !closed
      invariant 0 <= i <= |turns| && Within(frames, q)
      invariant !closed ==> InStep(info, sock, frames, q) && q == AllPasses(frames, turns[..i])
      invariant info.AllDelivered() && info.received + sock.wire == BytesWritten(frames, q)
      invariant info.buf == null || info.buf == old(info.buf) || fresh(info.buf)
    {
      PassesMore(frames, turns, i);
      q, closed := TakeTurn(info, sock, frames, q, turns[i]);
      i := i + 1;
    }
    assert turns[..|turns|] == turns;
    p := q;
  }

  /** What the reader got when the writer is at p and these bytes are unread. */
  ghost predicate GotAllRead(frames: seq<Frame>, p: Progress, got: seq<text>, unread: text)
    requires Within(frames, p)
  {
    var out := BytesWritten(frames, p);
    && |unread| <= |out| && out[|out| - |unread|..] == unread
    && got == MessagesOf(Frames(out[..|out| - |unread|]).frames)
    && (p.next == |frames| && unread == [] ==> got == MessagesOf(frames))
  }

  /**
   * Both ends under any interleaving of single system calls: any partial writes and any reads, also in the middle of
   * a message. The reader gets messages of the list intact, in order and once each, keep-alives between them unseen.
   * As long as the connection was not closed, what it got is what the bytes written and read so far hold: all
   * messages once everything is out and nothing unread.
   */
  method Exchange(frames: seq<Frame>, turns: seq<Turn>) returns (got: seq<text>, unread: text, closed: bool)
    requires AllWellFormed(frames) && AllSteadyTurns(turns)
    ensures got <= MessagesOf(frames)
    ensures !closed ==> NoneEmpty(frames) && GotAllRead(frames, AllPasses(frames, turns), got, unread)
  {
    WellFormedNotEmpty(frames);
    var sock := new TcpStream();
    var info := new SockInfo();
    NothingWritten(frames);
    hide Frames, MessagesOf, AllWellFormed, BytesWritten, AllPasses, NoneEmpty;
    ghost var p;
    p, closed := TakeTurns(info, sock, frames, turns);
    got, unread := info.delivered, sock.wire;
    Followed(frames, p, info.received, unread);
    Halves(info.received, unread);
  }

  lemma PassesMore(frames: seq<Frame>, turns: seq<Turn>, i: nat)
    requires NoneEmpty(frames) && i < |turns|
    ensures AllPasses(frames, turns[..i + 1]) == OnePass(frames, AllPasses(frames, turns[..i]), turns[i])
  {
    assert turns[..i + 1][..i] == turns[..i];
  }

  lemma NothingPassed(frames: seq<Frame>, turns: seq<Turn>)
    requires NoneEmpty(frames)
    ensures AllPasses(frames, turns[..0]) == Progress(0, 0)
  {
  }

  lemma NothingWritten(frames: seq<Frame>)
    requires NoneEmpty(frames)
    ensures Within(frames, Progress(0, 0)) && BytesWritten(frames, Progress(0, 0)) == []
  {
    assert frames[..0] == [];
  }

  lemma Halves(a: text, b: text)
    ensures (a + b)[..|a + b| - |b|] == a && (a + b)[|a + b| - |b|..] == b
  {
  }
}
