/**
 * Cutting a TCP byte stream into SIP messages by CRLFCRLF and Content-Length (RFC 3261 sections 18.3 and 20.14,
 * keep-alives of RFC 5626 section 3.5.1). A char stands for one byte.
 */
module TcpFraming {
  import opened CaseFolding
  import opened Sequences

  type text = seq<char>

  const END_HEADERS: text := "\r\n\r\n"
  const CLEN: text := "\r\ncontent-length:"
  const CLEN_SPACE: text := "\r\ncontent-length "
  const COMPACT: text := "\r\nl:"
  const COMPACT_SPACE: text := "\r\nl "

  // ---------------------------------------------------------------- C strings

  predicate MatchAt(s: text, needle: text, i: int) {
    0 <= i && i + |needle| <= |s| && s[i..i + |needle|] == needle
  }

  /** The first place of `needle` at or after `from`; |s| when there is none. */
  function Find(s: text, needle: text, from: nat): (k: nat)
    requires needle != []
    ensures k == |s| || (from <= k < |s| && k + |needle| <= |s|)
    decreases |s| - from
  {
    if from >= |s| then |s|
    else if MatchAt(s, needle, from) then from
    else Find(s, needle, from + 1)
  }

  lemma {:induction false} FindIsFirst(s: text, needle: text, from: nat)
    requires needle != []
    ensures var k := Find(s, needle, from);
            && (k < |s| ==> MatchAt(s, needle, k))
            && forall j :: from <= j < k ==> !MatchAt(s, needle, j)
    decreases |s| - from
  {
    if from < |s| && !MatchAt(s, needle, from) {
      FindIsFirst(s, needle, from + 1);
    }
  }

  /** The bytes before the first NUL. */
  function CString(s: text): text {
    s[..Find(s, "\0", 0)]
  }

  function SkipBlanks(s: text): text {
    if s != [] && s[0] in " \t\n\U{000B}\U{000C}\r" then SkipBlanks(s[1..]) else s
  }

  function Digits(s: text, acc: nat): nat {
    if s != [] && '0' <= s[0] <= '9' then Digits(s[1..], 10 * acc + (s[0] - '0') as nat) else acc
  }

  /** The C library's atoi on a NUL-terminated string. */
  function Atoi(s: text): int {
    var t := SkipBlanks(s);
    if t != [] && t[0] == '-' then -(Digits(t[1..], 0) as int)
    else if t != [] && t[0] == '+' then Digits(t[1..], 0)
    else Digits(t, 0)
  }

  // ---------------------------------------------------------------- one frame

  datatype Length = Absent | Value(clen: int) | NoColon

  /** Where the Content-Length header begins; the length of `low` when there is none. */
  function HeaderAt(low: text): nat {
    var a := Find(low, CLEN, 0);
    if a < |low| then a else
    var b := Find(low, CLEN_SPACE, 0);
    if b < |low| then b else
    var c := Find(low, COMPACT, 0);
    if c < |low| then c else Find(low, COMPACT_SPACE, 0)
  }

  /** The Content-Length of a block of headers; NoColon is where the program follows a null pointer. */
  function LengthIn(headers: text): Length {
    var h := CString(headers);
    var k := HeaderAt(Lower(h));
    if k == |h| then Absent
    else
      var colon := Find(h, ":", k);
      if colon == |h| then NoColon else Value(Atoi(h[colon + 1..]))
  }

  datatype Step =
    | Wait                 // no complete frame yet
    | Skip                 // a keep-alive
    | Take(len: nat)       // a message of that many bytes
    | Crash                // a Content-Length header without a colon
    | Stall                // a negative Content-Length that makes the message empty: the loop never ends

  /** Headers that end at e, in a buffer of n bytes. */
  function AfterHeaders(e: nat, l: Length, n: nat): (r: Step)
    requires 0 < e
    ensures r.Take? ==> 0 < r.len <= n
    ensures !r.Skip?
  {
    if l.NoColon? then Crash
    else
      var msglen := e + 4 + if l.Value? then l.clen else 0;
      // msglen is compared as an unsigned number: a negative one is larger than any buffer
      if msglen < 0 || msglen > n then Wait
      else if msglen == 0 then Stall
      else Take(msglen)
  }

  /** What the framing loop does next with the unconsumed bytes. */
  function NextStep(s: text): (r: Step)
    ensures r.Take? ==> 0 < r.len <= |s|
    ensures r.Skip? ==> 4 <= |s|
  {
    var e := Find(s, END_HEADERS, 0);
    if e == |s| then Wait
    else if e == 0 then Skip
    else AfterHeaders(e, LengthIn(s[..e]), |s|)
  }

  datatype Frame = KeepAlive | Message(bytes: text)

  datatype Framing = Framing(frames: seq<Frame>, rest: text)

  /** All complete frames of a stream, and the bytes left over. */
  function Frames(s: text): Framing
    decreases |s|
  {
    match NextStep(s)
    case Skip =>
      var tail := Frames(s[4..]);
      Framing([KeepAlive] + tail.frames, tail.rest)
    case Take(n) =>
      var tail := Frames(s[n..]);
      Framing([Message(s[..n])] + tail.frames, tail.rest)
    case _ => Framing([], s)
  }

  /** How the framing loop comes to an end: normally, by following a null pointer, or not at all. */
  datatype LoopEnd = Ends | FollowsNull | NeverEnds

  /** What happens once all complete frames of the stream are taken. */
  function EndOf(s: text): LoopEnd {
    EndAt(Frames(s).rest)
  }

  function EndAt(rest: text): LoopEnd {
    match NextStep(rest)
    case Crash => FollowsNull
    case Stall => NeverEnds
    case _ => Ends
  }

  lemma NothingLeftEnds()
    ensures EndAt([]) == Ends
  {
  }

  lemma EndAtStep(rest: text)
    ensures var step := NextStep(rest);
            EndAt(rest) == if step.Crash? then FollowsNull else if step.Stall? then NeverEnds else Ends
  {
    hide NextStep;
  }

  /** The loop reaches neither a crash nor an endless repetition on this stream. */
  predicate Sane(s: text)
    decreases |s|
  {
    match NextStep(s)
    case Wait => true
    case Skip => Sane(s[4..])
    case Take(n) => Sane(s[n..])
    case _ => false
  }

  function MessagesOf(frames: seq<Frame>): seq<text> {
    if frames == [] then []
    else if frames[0].Message? then [frames[0].bytes] + MessagesOf(frames[1..])
    else MessagesOf(frames[1..])
  }

  lemma {:induction false} MessagesAppend(a: seq<Frame>, b: seq<Frame>)
    ensures MessagesOf(a + b) == MessagesOf(a) + MessagesOf(b)
  {
    if a == [] {
      assert a + b == b;
    } else {
      assert (a + b)[1..] == a[1..] + b;
      MessagesAppend(a[1..], b);
    }
  }

  lemma MessagesOneMore(a: seq<Frame>, f: Frame)
    ensures MessagesOf(a + [f]) == MessagesOf(a) + if f.Message? then [f.bytes] else []
  {
    MessagesAppend(a, [f]);
    assert [f][1..] == [];
  }

  /** The bytes a frame was cut from. */
  function BytesOf(f: Frame): text {
    if f.KeepAlive? then END_HEADERS else f.bytes
  }

  function BytesOfAll(frames: seq<Frame>): text {
    if frames == [] then [] else BytesOf(frames[0]) + BytesOfAll(frames[1..])
  }

  // ---------------------------------------------------------------- what framing keeps

  /** The first frame of a stream that has one, and its number of bytes. */
  function FirstFrame(s: text): (r: (Frame, nat))
    requires NextStep(s).Skip? || NextStep(s).Take?
    ensures 0 < r.1 <= |s|
  {
    if NextStep(s).Skip? then (KeepAlive, 4) else (Message(s[..NextStep(s).len]), NextStep(s).len)
  }

  lemma FramesStep(s: text)
    requires NextStep(s).Skip? || NextStep(s).Take?
    ensures var (f, n) := FirstFrame(s);
            var tail := Frames(s[n..]);
            Frames(s) == Framing([f] + tail.frames, tail.rest)
  {
  }

  lemma FirstFrameBytes(s: text)
    requires NextStep(s).Skip? || NextStep(s).Take?
    ensures BytesOf(FirstFrame(s).0) == s[..FirstFrame(s).1]
  {
    FindIsFirst(s, END_HEADERS, 0);
  }

  lemma {:induction false} BytesConserved(s: text)
    ensures BytesOfAll(Frames(s).frames) + Frames(s).rest == s
    decreases |s|
  {
    if NextStep(s).Skip? || NextStep(s).Take? {
      var (f, n) := FirstFrame(s);
      FirstFrameBytes(s);
      FramesStep(s);
      BytesConserved(s[n..]);
      ConsConserves(f, Frames(s[n..]), s, n);
    } else {
      assert BytesOfAll([]) + s == s;
    }
  }

  lemma {:induction false} NothingLeftToTake(s: text)
    ensures var next := NextStep(Frames(s).rest);
            !next.Skip? && !next.Take? && (Sane(s) ==> next.Wait?)
    decreases |s|
  {
    hide Find;
    if NextStep(s).Skip? || NextStep(s).Take? {
      NothingLeftToTake(s[FirstFrame(s).1..]);
    }
  }

  /** No byte is lost, repeated or reordered, and what is left holds no complete frame. */
  lemma FramesConserve(s: text)
    ensures var f := Frames(s);
            && BytesOfAll(f.frames) + f.rest == s
            && !NextStep(f.rest).Skip? && !NextStep(f.rest).Take?
            && (Sane(s) ==> NextStep(f.rest).Wait?)
  {
    BytesConserved(s);
    NothingLeftToTake(s);
  }

  lemma ConsConserves(f: Frame, tail: Framing, s: text, n: nat)
    requires n <= |s| && BytesOf(f) == s[..n] && BytesOfAll(tail.frames) + tail.rest == s[n..]
    ensures BytesOfAll([f] + tail.frames) + tail.rest == s
  {
    assert ([f] + tail.frames)[1..] == tail.frames;
    ConcatAssociative(s[..n], BytesOfAll(tail.frames), tail.rest);
    assert s[..n] + s[n..] == s;
  }

  lemma FindUnique(s: text, needle: text, from: nat, k: nat)
    requires needle != []
    requires k == |s| || (from <= k < |s| && MatchAt(s, needle, k))
    requires forall j :: from <= j < k ==> !MatchAt(s, needle, j)
    ensures Find(s, needle, from) == k
  {
    var f := Find(s, needle, from);
    FindIsFirst(s, needle, from);
    assert k < f ==> !MatchAt(s, needle, k);
    assert f < k ==> !MatchAt(s, needle, f);
  }

  lemma FindInPrefix(s: text, t: text, needle: text)
    requires needle != [] && Find(s, needle, 0) < |s|
    ensures Find(s + t, needle, 0) == Find(s, needle, 0)
  {
    var k := Find(s, needle, 0);
    FindIsFirst(s, needle, 0);
    forall j | 0 <= j <= k ensures MatchAt(s + t, needle, j) == MatchAt(s, needle, j) {
      assert (s + t)[j..j + |needle|] == s[j..j + |needle|];
    }
    FindUnique(s + t, needle, 0, k);
  }

  /** A decision once made does not depend on bytes that arrive later. */
  lemma NextStepStable(s: text, t: text)
    requires !NextStep(s).Wait?
    ensures NextStep(s + t) == NextStep(s)
  {
    FindInPrefix(s, t, END_HEADERS);
    var e := Find(s, END_HEADERS, 0);
    assert (s + t)[..e] == s[..e];
  }

  lemma FirstFrameStable(s: text, t: text)
    requires NextStep(s).Skip? || NextStep(s).Take?
    ensures NextStep(s + t) == NextStep(s) && FirstFrame(s + t) == FirstFrame(s)
    ensures (s + t)[FirstFrame(s).1..] == s[FirstFrame(s).1..] + t
  {
    NextStepStable(s, t);
    var n := FirstFrame(s).1;
    assert (s + t)[..n] == s[..n];
  }

  /** Framing a stream in two parts is framing it at once: where `recv` cuts the stream plays no part. */
  lemma {:induction false} FramesSplit(s: text, t: text)
    ensures var a := Frames(s);
            var b := Frames(a.rest + t);
            Frames(s + t) == Framing(a.frames + b.frames, b.rest)
    decreases |s|
  {
    if NextStep(s).Skip? || NextStep(s).Take? {
      var (f, n) := FirstFrame(s);
      FirstFrameStable(s, t);
      FramesStep(s);
      FramesStep(s + t);
      FramesSplit(s[n..], t);
      var tail := Frames(s[n..]);
      ConcatAssociative([f], tail.frames, Frames(tail.rest + t).frames);
    } else {
      assert Frames(s) == Framing([], s);
    }
  }

  /** Sane streams are exactly those on which the loop ends. */
  lemma {:induction false} SaneEnds(s: text)
    ensures Sane(s) <==> EndOf(s).Ends?
    decreases |s|
  {
    hide Find, AfterHeaders, LengthIn;
    NothingLeftToTake(s);
    if NextStep(s).Skip? || NextStep(s).Take? {
      SaneEnds(s[FirstFrame(s).1..]);
    }
  }

  lemma {:induction false} SanePrefix(s: text, t: text)
    requires Sane(s + t)
    ensures Sane(s)
    decreases |s|
  {
    var step := NextStep(s);
    if !step.Wait? {
      NextStepStable(s, t);
      hide NextStep;
      if step.Skip? || step.Take? {
        var n := if step.Skip? then 4 else step.len;
        SplitOfConcat(s, t, n);
        SanePrefix(s[n..], t);
      }
    }
  }

  lemma {:induction false} SaneRest(s: text, t: text)
    requires Sane(s + t)
    ensures Sane(Frames(s).rest + t)
    decreases |s|
  {
    var step := NextStep(s);
    if step.Skip? || step.Take? {
      NextStepStable(s, t);
      hide NextStep;
      var n := if step.Skip? then 4 else step.len;
      SplitOfConcat(s, t, n);
      SaneRest(s[n..], t);
    }
  }
}
