/**
 * Where the framing loop goes wrong: a Content-Length header without a colon, and lengths that leave nothing, or less
 * than nothing, of the message. What decides is a condition on each block of headers the loop reads.
 */
module TcpHazards {
  import opened CaseFolding
  import opened Sequences
  import opened TcpFraming
  import opened TcpMessages

  /** The blocks of headers the loop reads on a stream, in order. */
  function Blocks(s: text): seq<text>
    decreases |s|
  {
    var e := Find(s, END_HEADERS, 0);
    match NextStep(s)
    case Skip => Blocks(s[4..])
    case Take(n) => [s[..e]] + Blocks(s[n..])
    case Wait => if e < |s| then [s[..e]] else []
    case _ => [s[..e]]
  }

  /** The bytes of the message that a block of headers begins, as the loop adds them up. */
  function Sum(h: text): int {
    |h| + 4 + match LengthIn(h) case Value(clen) => clen case _ => 0
  }

  /** A header that names a Content-Length has a colon, and the message is not empty. */
  predicate Good(h: text) {
    !LengthIn(h).NoColon? && Sum(h) != 0
  }

  lemma StepByBlock(s: text)
    ensures var e := Find(s, END_HEADERS, 0);
            && (NextStep(s).Crash? <==> 0 < e < |s| && LengthIn(s[..e]).NoColon?)
            && (NextStep(s).Stall? <==> 0 < e < |s| && !LengthIn(s[..e]).NoColon? && Sum(s[..e]) == 0)
            && (NextStep(s).Take? ==> 0 < e < |s| && Good(s[..e]) && NextStep(s).len == Sum(s[..e]))
            && (NextStep(s).Wait? && e < |s| ==> Good(s[..e]))
  {
    hide Find, LengthIn;
  }

  lemma AllCons(h: text, hs: seq<text>)
    ensures (forall x :: x in [h] + hs ==> Good(x)) <==> Good(h) && forall x :: x in hs ==> Good(x)
  {
    hide Good;
    assert h in [h] + hs;
  }

  /** The loop neither crashes nor repeats itself for ever exactly when every block of headers it reads is good. */
  lemma {:induction false} SaneByBlocks(s: text)
    ensures Sane(s) <==> forall h :: h in Blocks(s) ==> Good(h)
    decreases |s|
  {
    StepByBlock(s);
    hide Find, Sum, LengthIn, NextStep;
    var h := s[..Find(s, END_HEADERS, 0)];
    AllCons(h, []);
    assert [h] + [] == [h];
    match NextStep(s)
    case Skip =>
      SaneByBlocks(s[4..]);
    case Take(n) =>
      SaneByBlocks(s[n..]);
      AllCons(h, Blocks(s[n..]));
    case _ =>
  }

  /** Complete headers whose message would have less than no bytes block the connection: exactly then nothing helps. */
  lemma BlockedForEver(s: text)
    requires NextStep(s).Wait? && Find(s, END_HEADERS, 0) < |s|
    ensures (forall t :: NextStep(s + t).Wait?) <==> Sum(s[..Find(s, END_HEADERS, 0)]) < 0
  {
    hide Find, LengthIn, NextStep;
    var e := Find(s, END_HEADERS, 0);
    var sum := Sum(s[..e]);
    HeadersStay(s, []);
    assert s + [] == s;
    if sum >= 0 {
      var t: text := seq(if sum > |s| then sum - |s| else 0, _ => ' ');
      HeadersStay(s, t);
      assert !NextStep(s + t).Wait?;
    } else {
      forall t: text ensures NextStep(s + t).Wait? {
        HeadersStay(s, t);
      }
    }
  }

  lemma HeadersStay(s: text, t: text)
    requires Find(s, END_HEADERS, 0) < |s| && !NextStep(s).Skip?
    ensures var e := Find(s, END_HEADERS, 0);
            0 < e && NextStep(s + t) == AfterHeaders(e, LengthIn(s[..e]), |s + t|)
  {
    FindInPrefix(s, t, END_HEADERS);
    var e := Find(s, END_HEADERS, 0);
    assert (s + t)[..e] == s[..e];
  }

  // ---------------------------------------------------------------- real inputs

  lemma FoundAt(s: text, needle: text, k: nat)
    requires needle != [] && k + |needle| <= |s| && s[k..k + |needle|] == needle
    requires forall j :: 0 <= j < k ==> DiffersAt(s, needle, j)
    ensures Find(s, needle, 0) == k
  {
    forall j | 0 <= j < k ensures !MatchAt(s, needle, j) {
      Differs(s, needle, j);
    }
    FindUnique(s, needle, 0, k);
  }

  lemma NotFound(s: text, needle: text)
    requires needle != [] && forall j :: 0 <= j < |s| ==> DiffersAt(s, needle, j)
    ensures Lacks(s, needle)
  {
    forall j | 0 <= j < |s| ensures !MatchAt(s, needle, j) {
      Differs(s, needle, j);
    }
    FindUnique(s, needle, 0, |s|);
  }

  /** A place where the needle cannot stand: no room, or one of its first four characters differs. */
  predicate DiffersAt(s: text, needle: text, j: nat) {
    || j + |needle| > |s|
    || (0 < |needle| && s[j] != needle[0])
    || (2 < |needle| && s[j + 2] != needle[2])
    || (3 < |needle| && s[j + 3] != needle[3])
  }

  lemma Differs(s: text, needle: text, j: nat)
    requires DiffersAt(s, needle, j) && needle != []
    ensures !MatchAt(s, needle, j)
  {
    if j + |needle| <= |s| {
      if s[j] != needle[0] {
        Mismatch(s, needle, j, 0);
      } else if 2 < |needle| && s[j + 2] != needle[2] {
        Mismatch(s, needle, j, 2);
      } else {
        Mismatch(s, needle, j, 3);
      }
    }
  }

  const NO_COLON: text := "x\r\nl 5"
  const NOTHING_LEFT: text := "a\r\nl:-12"
  const LESS_THAN_NOTHING: text := "a\r\nl:-13"

  /** No letter of NO_COLON is a colon or a NUL, begins an empty line or the compact form with a colon. */
  lemma LettersOf(h: text, j: nat)
    requires h == ['x', '\r', '\n', 'l', ' ', '5'] && j < 6
    ensures h[j] != ':' && h[j] != '\0' && !MeetsReturn(h, j) && DiffersAt(h, COMPACT, j)
  {
    assert COMPACT == ['\r', '\n', 'l', ':'];
    assert j == 0 || j == 1 || j == 2 || j == 3 || j == 4 || j == 5;
  }

  lemma NoColonHere()
    ensures LengthIn(NO_COLON) == NoColon
  {
    var h := NO_COLON;
    assert h == ['x', '\r', '\n', 'l', ' ', '5'];
    hide Find, Lower, HeaderAt, CString;
    forall j | 0 <= j < |h| ensures h[j] != ':' && h[j] != '\0' {
      LettersOf(h, j);
    }
    NoNul(h);
    SpacedAt(h);
    NoChar(h, ':');
    NothingLater(h, ":", 1);
  }

  lemma SpacedAt(h: text)
    requires h == ['x', '\r', '\n', 'l', ' ', '5']
    ensures HeaderAt(Lower(h)) == 1
  {
    assert Lower(h) == h;
    assert |CLEN| == 17 && |CLEN_SPACE| == 17 && |COMPACT| == 4;
    assert COMPACT_SPACE == ['\r', '\n', 'l', ' '];
    hide Find, Lower;
    NotFound(h, CLEN);
    NotFound(h, CLEN_SPACE);
    forall j | 0 <= j < |h| ensures DiffersAt(h, COMPACT, j) {
      LettersOf(h, j);
    }
    NotFound(h, COMPACT);
    FoundAt(h, COMPACT_SPACE, 1);
    FourthForm(h, 1);
  }

  lemma FourthForm(low: text, k: nat)
    requires Lacks(low, CLEN) && Lacks(low, CLEN_SPACE) && Lacks(low, COMPACT) && Find(low, COMPACT_SPACE, 0) == k
    ensures HeaderAt(low) == k
  {
    hide Find;
  }

  predicate MeetsReturn(h: text, j: nat)
    requires j < |h|
  {
    h[j] == '\r' && (j + 2 >= |h| || h[j + 2] == '\r')
  }

  lemma EndsNotHere(h: text, s: text, j: nat)
    requires j < |h| && s == h + END_HEADERS && !MeetsReturn(h, j)
    ensures !MatchAt(s, END_HEADERS, j)
  {
    hide MatchAt;
    if h[j] == '\r' {
      assert s[j + 2] == h[j + 2];
      Mismatch(s, END_HEADERS, j, 2);
    } else {
      assert s[j] == h[j];
      Mismatch(s, END_HEADERS, j, 0);
    }
  }

  /** Headers in which no return is followed by another one two places on end where they end. */
  lemma HeadersEnd(h: text, s: text)
    requires s == h + END_HEADERS && forall j :: 0 <= j < |h| ==> !MeetsReturn(h, j)
    ensures Find(s, END_HEADERS, 0) == |h|
  {
    assert s[|h|..|h| + 4] == END_HEADERS;
    assert MatchAt(s, END_HEADERS, |h|);
    hide Find, MatchAt, MeetsReturn;
    forall j | 0 <= j < |h| ensures !MatchAt(s, END_HEADERS, j) {
      EndsNotHere(h, s, j);
    }
    FindUnique(s, END_HEADERS, 0, |h|);
  }

  lemma NothingLater(s: text, needle: text, from: nat)
    requires needle != [] && Lacks(s, needle) && from <= |s|
    ensures Find(s, needle, from) == |s|
  {
    FindIsFirst(s, needle, 0);
    FindUnique(s, needle, from, |s|);
  }

  /** A header without a colon crashes the program. */
  lemma CrashesHere()
    ensures NextStep(NO_COLON + END_HEADERS) == Crash
  {
    hide Find, LengthIn, MeetsReturn, DiffersAt;
    var h := NO_COLON;
    assert h == ['x', '\r', '\n', 'l', ' ', '5'];
    forall j | 0 <= j < |h| ensures !MeetsReturn(h, j) {
      LettersOf(h, j);
    }
    NoColonHere();
    HeadersEnd(h, h + END_HEADERS);
    assert (h + END_HEADERS)[..|h|] == h;
  }

  lemma NegativeLetters(h: text, d: char, j: nat)
    requires h == ['a', '\r', '\n', 'l', ':', '-', '1', d] && '0' <= d <= '9' && j < 8
    ensures h[j] != '\0' && !MeetsReturn(h, j)
  {
    assert j == 0 || j == 1 || j == 2 || j == 3 || j == 4 || j == 5 || j == 6 || j == 7;
  }

  lemma NegativeLength(h: text, d: char, n: nat)
    requires h == "a\r\nl:-1" + [d] && '0' <= d <= '9' && n == 10 + (d - '0') as nat
    ensures LengthIn(h) == Value(-(n as int))
    ensures Find(h + END_HEADERS, END_HEADERS, 0) == |h| == 8
  {
    hide Find, LengthIn;
    NegativeValue(h, d);
    NegativeEnd(h, d);
  }

  lemma NegativeEnd(h: text, d: char)
    requires h == "a\r\nl:-1" + [d] && '0' <= d <= '9'
    ensures Find(h + END_HEADERS, END_HEADERS, 0) == |h|
  {
    assert h == ['a', '\r', '\n', 'l', ':', '-', '1', d];
    hide Find, MeetsReturn;
    forall j | 0 <= j < |h| ensures !MeetsReturn(h, j) {
      NegativeLetters(h, d, j);
    }
    HeadersEnd(h, h + END_HEADERS);
  }

  lemma NegativeValue(h: text, d: char)
    requires h == "a\r\nl:-1" + [d] && '0' <= d <= '9'
    ensures LengthIn(h) == Value(-((10 + (d - '0') as nat) as int))
  {
    assert h == ['a', '\r', '\n', 'l', ':', '-', '1', d];
    hide Find, Lower, HeaderAt, Atoi, CString, MeetsReturn, LengthIn;
    forall j | 0 <= j < |h| ensures h[j] != '\0' {
      NegativeLetters(h, d, j);
    }
    NoNul(h);
    CompactAt(h, d);
    ColonAt(h, d);
    LengthAt(h, 1, 4);
    assert h[5..] == ['-', '1', d];
    TwoDigits(h[5..], d);
  }

  lemma LengthAt(h: text, k: nat, colon: nat)
    requires CString(h) == h && HeaderAt(Lower(h)) == k < |h| && Find(h, ":", k) == colon < |h|
    ensures LengthIn(h) == Value(Atoi(h[colon + 1..]))
  {
    hide Find, Lower, HeaderAt, Atoi, CString;
  }

  lemma CompactAt(h: text, d: char)
    requires h == "a\r\nl:-1" + [d] && '0' <= d <= '9'
    ensures HeaderAt(Lower(h)) == 1
  {
    assert Lower(h) == h;
    assert |CLEN| == 17 && |CLEN_SPACE| == 17 && COMPACT == ['\r', '\n', 'l', ':'];
    hide Find, Lower;
    NotFound(h, CLEN);
    NotFound(h, CLEN_SPACE);
    FoundAt(h, COMPACT, 1);
    ThirdForm(h, 1);
  }

  lemma ThirdForm(low: text, k: nat)
    requires Lacks(low, CLEN) && Lacks(low, CLEN_SPACE) && Find(low, COMPACT, 0) == k < |low|
    ensures HeaderAt(low) == k
  {
    hide Find;
  }

  lemma ColonAt(h: text, d: char)
    requires h == "a\r\nl:-1" + [d]
    ensures Find(h, ":", 1) == 4
  {
    assert h[4..5] == ":";
    Mismatch(h, ":", 1, 0);
    Mismatch(h, ":", 2, 0);
    Mismatch(h, ":", 3, 0);
    FindUnique(h, ":", 1, 4);
  }

  lemma TwoDigits(t: text, d: char)
    requires t == ['-', '1', d] && '0' <= d <= '9'
    ensures Atoi(t) == -((10 + (d - '0') as nat) as int)
  {
    assert t[1..] == ['1', d] && ['1', d][1..] == [d] && [d][1..] == [];
    assert Digits([d], 1) == 10 + (d - '0') as nat;
    assert Digits(t[1..], 0) == Digits([d], 1);
    assert SkipBlanks(t) == t;
  }

  const USUAL_HEADERS: text := "x\r\nContent-Length: 5"
  const USUAL_MESSAGE: text := "x\r\nContent-Length: 5\r\n\r\nhello"

  lemma UsualLetters(h: text, j: nat)
    requires h == ['x', '\r', '\n', 'C', 'o', 'n', 't', 'e', 'n', 't', '-', 'L', 'e', 'n', 'g', 't', 'h', ':', ' ', '5']
    requires j < 20
    ensures h[j] != '\0' && !MeetsReturn(h, j)
  {
    assert j != 1 ==> h[j] != '\r';
  }

  lemma UsualBlock() returns (b: Block)
    ensures PlainBlock(b) && b.length == 5 && Head(b) == USUAL_HEADERS
  {
    b := Block("x", "\r\nContent-Length:", " ", 5, "", 0);
    hide Find, Names, Decimal;
    UsualHead();
    UsualEnd(Head(b));
    UsualNames();
    assert |FORMS[0]| == 17;
  }

  lemma UsualHead()
    ensures Head(Block("x", "\r\nContent-Length:", " ", 5, "", 0)) == USUAL_HEADERS
  {
    assert Decimal(5) == "5";
  }

  lemma UsualEnd(h: text)
    requires h == USUAL_HEADERS
    ensures '\0' !in h && Find(h + END_HEADERS, END_HEADERS, 0) == |h|
  {
    assert h == ['x', '\r', '\n', 'C', 'o', 'n', 't', 'e', 'n', 't', '-', 'L', 'e', 'n', 'g', 't', 'h', ':', ' ', '5'];
    hide Find, MeetsReturn;
    forall j | 0 <= j < |h| ensures h[j] != '\0' && !MeetsReturn(h, j) {
      UsualLetters(h, j);
    }
    HeadersEnd(h, h + END_HEADERS);
  }

  /** A header with capitals is found, and with a keep-alive in front its message is delivered whole. */
  lemma UsualStream()
    ensures LengthIn("x\r\nContent-Length: 5") == Value(5)
    ensures Frames("\r\n\r\n" + USUAL_MESSAGE) == Framing([KeepAlive, Message(USUAL_MESSAGE)], [])
  {
    hide Find, LengthIn, PlainBlock, Names;
    var b := UsualBlock();
    LengthFound(b);
    ComposedIsWellFormed(b, "hello");
    assert Compose(b, "hello") == USUAL_MESSAGE;
    var frames := [KeepAlive, Message(USUAL_MESSAGE)];
    assert BytesOfAll([]) == [];
    assert frames[1..] == [Message(USUAL_MESSAGE)] && frames[1..][1..] == [];
    assert BytesOfAll(frames[1..]) == USUAL_MESSAGE;
    assert BytesOfAll(frames) == "\r\n\r\n" + USUAL_MESSAGE;
    hide Frames, BytesOfAll;
    FramesUndoWriting(frames);
  }

  /** A length that leaves nothing of the message keeps the loop in place for ever. */
  lemma StallsHere()
    ensures NextStep(NOTHING_LEFT + END_HEADERS) == Stall
  {
    NegativeLength(NOTHING_LEFT, '2', 12);
    assert (NOTHING_LEFT + END_HEADERS)[..8] == NOTHING_LEFT;
  }

  /** A length of one less blocks the connection, whatever arrives. */
  lemma BlocksHere(t: text)
    ensures NextStep(LESS_THAN_NOTHING + END_HEADERS + t) == Wait
  {
    NegativeLength(LESS_THAN_NOTHING, '3', 13);
    var s := LESS_THAN_NOTHING + END_HEADERS;
    assert s[..8] == LESS_THAN_NOTHING;
    BlockedForEver(s);
    assert NextStep(s + t).Wait?;
  }
}
