/** Writing SIP messages on a stream, and getting them back. */
module TcpMessages {
  import opened CaseFolding
  import opened Sequences
  import opened TcpFraming

  // ---------------------------------------------------------------- messages on a stream

  /** A message whose Content-Length is the length of its body. */
  predicate WellFormed(m: text) {
    NextStep(m) == Take(|m|)
  }

  ghost predicate AllWellFormed(frames: seq<Frame>) {
    forall i :: 0 <= i < |frames| && frames[i].Message? ==> WellFormed(frames[i].bytes)
  }

  lemma FirstOnStream(f: Frame, t: text)
    requires f.Message? ==> WellFormed(f.bytes)
    ensures var s := BytesOf(f) + t;
            && (NextStep(s).Skip? || NextStep(s).Take?)
            && FirstFrame(s) == (f, |BytesOf(f)|)
            && s[|BytesOf(f)|..] == t
  {
    var s := BytesOf(f) + t;
    if f.KeepAlive? {
      assert s[0..4] == END_HEADERS;
      FindUnique(s, END_HEADERS, 0, 0);
    } else {
      NextStepStable(f.bytes, t);
      assert s[..|f.bytes|] == f.bytes;
    }
  }

  /**
   * Framing undoes writing: any sequence of well-formed messages and keep-alives comes back frame by frame, with
   * nothing left over and no byte of one message in another.
   */
  lemma {:induction false} FramesUndoWriting(frames: seq<Frame>)
    requires AllWellFormed(frames)
    ensures Frames(BytesOfAll(frames)) == Framing(frames, [])
    ensures Sane(BytesOfAll(frames))
    decreases |frames|
  {
    if frames == [] {
      assert NextStep([]) == Wait;
    } else {
      var f, t := frames[0], BytesOfAll(frames[1..]);
      FirstOnStream(f, t);
      FramesUndoWriting(frames[1..]);
      FramesStep(BytesOf(f) + t);
      assert frames == [f] + frames[1..];
    }
  }

  // ---------------------------------------------------------------- composing a message

  function Decimal(n: nat): (s: text)
    ensures s != [] && forall i :: 0 <= i < |s| ==> '0' <= s[i] <= '9'
  {
    if n < 10 then ['0' + n as char] else Decimal(n / 10) + ['0' + (n % 10) as char]
  }

  ghost predicate AllDigits(s: text) {
    forall i :: 0 <= i < |s| ==> '0' <= s[i] <= '9'
  }

  lemma {:induction false} DigitsSnoc(s: text, d: char, acc: nat)
    requires AllDigits(s) && '0' <= d <= '9'
    ensures Digits(s + [d], acc) == 10 * Digits(s, acc) + (d - '0') as nat
    decreases |s|
  {
    if s == [] {
      assert [d][1..] == [];
      assert s + [d] == [d];
    } else {
      assert (s + [d])[1..] == s[1..] + [d];
      DigitsSnoc(s[1..], d, 10 * acc + (s[0] - '0') as nat);
    }
  }

  lemma {:induction false} DigitsOfDecimal(n: nat)
    ensures Digits(Decimal(n), 0) == n
  {
    if n < 10 {
      assert Decimal(n)[1..] == [];
    } else {
      DigitsOfDecimal(n / 10);
      DigitsSnoc(Decimal(n / 10), '0' + (n % 10) as char, 0);
    }
  }

  lemma {:induction false} DigitsStop(s: text, more: text, acc: nat)
    requires AllDigits(s) && EndsNumber(more)
    ensures Digits(s + more, acc) == Digits(s, acc)
    decreases |s|
  {
    if s == [] {
      assert s + more == more;
    } else {
      assert (s + more)[1..] == s[1..] + more;
      DigitsStop(s[1..], more, 10 * acc + (s[0] - '0') as nat);
    }
  }

  /** A number in front of this is read up to here. */
  predicate EndsNumber(more: text) {
    more == [] || !('0' <= more[0] <= '9')
  }

  /** The six characters that isspace accepts. */
  predicate Blanks(s: text) {
    forall i :: 0 <= i < |s| ==> s[i] as int == 32 || 9 <= s[i] as int <= 13
  }

  lemma {:induction false} BlanksSkipped(blanks: text, t: text)
    requires Blanks(blanks) && SkipBlanks(t) == t
    ensures SkipBlanks(blanks + t) == t
  {
    if blanks == [] {
      assert blanks + t == t;
    } else {
      assert (blanks + t)[1..] == blanks[1..] + t;
      BlanksSkipped(blanks[1..], t);
    }
  }

  /** A printed number is read back, whatever blanks precede it and whatever follows it. */
  lemma AtoiOfDecimal(blanks: text, n: nat, more: text)
    requires Blanks(blanks) && EndsNumber(more)
    ensures Atoi(blanks + (Decimal(n) + more)) == n
  {
    var t := Decimal(n) + more;
    assert t[0] == Decimal(n)[0];
    BlanksSkipped(blanks, t);
    DigitsOfDecimal(n);
    DigitsStop(Decimal(n), more, 0);
  }

  /** So is one with a sign. */
  lemma AtoiOfSigned(blanks: text, n: nat, more: text)
    requires Blanks(blanks) && EndsNumber(more)
    ensures Atoi(blanks + ("-" + (Decimal(n) + more))) == -(n as int)
    ensures Atoi(blanks + ("+" + (Decimal(n) + more))) == n
  {
    var t := Decimal(n) + more;
    assert ("-" + t)[1..] == t && ("+" + t)[1..] == t;
    BlanksSkipped(blanks, "-" + t);
    BlanksSkipped(blanks, "+" + t);
    DigitsOfDecimal(n);
    DigitsStop(Decimal(n), more, 0);
  }

  // ---------------------------------------------------------------- finding the header

  lemma Mismatch(s: text, needle: text, j: nat, i: nat)
    requires i < |needle| && (j + i < |s| ==> s[j + i] != needle[i])
    ensures !MatchAt(s, needle, j)
  {
    var k := j + i;
    assert k < |s| && j + |needle| <= |s| ==> s[j..j + |needle|][i] == s[k];
  }

  lemma MatchInPrefix(s: text, n: nat, needle: text, j: nat)
    requires n <= |s| && j + |needle| <= n
    ensures MatchAt(s, needle, j) == MatchAt(s[..n], needle, j)
  {
    assert s[..n][j..j + |needle|] == s[j..j + |needle|];
  }

  lemma NoNul(s: text)
    requires forall i :: 0 <= i < |s| ==> s[i] != '\0'
    ensures CString(s) == s
  {
    NoChar(s, '\0');
  }

  lemma NoChar(s: text, c: char)
    requires forall i :: 0 <= i < |s| ==> s[i] != c
    ensures Lacks(s, [c])
  {
    forall j | 0 <= j < |s| ensures !MatchAt(s, [c], j) {
      Mismatch(s, [c], j, 0);
    }
    FindUnique(s, [c], 0, |s|);
  }

  /** The four spellings of the header's name, in the order in which they are looked for. */
  const FORMS: seq<text> := [CLEN, CLEN_SPACE, COMPACT, COMPACT_SPACE]

  /** The word stands at place j, each of its letters in either case. */
  ghost predicate StandsAt(s: text, word: text, j: int) {
    0 <= j && j + |word| <= |s| && SameLetters(s[j..j + |word|], word)
  }

  ghost predicate Nowhere(s: text, word: text) {
    forall j :: 0 <= j < |s| ==> !StandsAt(s, word, j)
  }

  /** Searching the lower-case form finds a word without capitals exactly where it stands, in any mixture of cases. */
  lemma FoundInAnyCase(s: text, word: text, j: int)
    requires NoCapitals(word)
    ensures MatchAt(Lower(s), word, j) <==> StandsAt(s, word, j)
  {
    if 0 <= j && j + |word| <= |s| {
      var part := s[j..j + |word|];
      assert Lower(s)[j..j + |word|] == Lower(part);
      LowerSame(part, word);
      LowerStays(word);
    }
  }

  lemma NowhereLacks(s: text, word: text)
    requires NoCapitals(word) && word != [] && Nowhere(s, word)
    ensures Lacks(Lower(s), word)
  {
    forall j | 0 <= j < |s| ensures !MatchAt(Lower(s), word, j) {
      assert !StandsAt(s, word, j);
      FoundInAnyCase(s, word, j);
    }
    FindUnique(Lower(s), word, 0, |s|);
  }

  lemma FormsAreLower(form: nat)
    requires form < 4
    ensures FORMS[form] != [] && NoCapitals(FORMS[form])
  {
    OneReturn(form);
    forall i | 0 <= i < |FORMS[form]| ensures !(65 <= FORMS[form][i] as int <= 90) {
    }
  }

  /** A name written in that form, in any mixture of cases, up to and including its colon. */
  ghost predicate Names(name: text, form: nat)
    requires form < 4
  {
    && StandsAt(name, FORMS[form], 0)
    && name != [] && name[|name| - 1] == ':' && forall i :: 0 <= i < |name| - 1 ==> name[i] != ':'
  }

  /**
   * The name behind `front` is the one the search finds in the block: no preferred form anywhere, its own not before.
   */
  ghost predicate FirstLength(front: text, name: text, tail: text, form: nat)
    requires form < 4
  {
    && Names(name, form)
    && (forall f :: 0 <= f < form ==> Nowhere(front + name + tail, FORMS[f]))
    && Nowhere(front, FORMS[form])
  }

  ghost predicate Lacks(s: text, needle: text)
    requires needle != []
  {
    Find(s, needle, 0) == |s|
  }

  lemma OneReturn(form: nat)
    requires form < 4
    ensures FORMS[form] != [] && FORMS[form][0] == '\r'
    ensures forall i :: 1 <= i < |FORMS[form]| ==> FORMS[form][i] != '\r'
  {
    assert |CLEN| == 17 && |CLEN_SPACE| == 17 && |COMPACT| == 4 && |COMPACT_SPACE| == 4;
  }

  /** A needle that begins with its only return is found first at k when it stands there and not in what precedes k. */
  lemma FirstAt(s: text, needle: text, k: nat)
    requires needle != [] && needle[0] == '\r' && forall i :: 1 <= i < |needle| ==> needle[i] != '\r'
    requires MatchAt(s, needle, k) && Lacks(s[..k], needle)
    ensures Find(s, needle, 0) == k < |s|
  {
    FindIsFirst(s[..k], needle, 0);
    assert s[k] == s[k..k + |needle|][0];
    forall j | 0 <= j < k ensures !MatchAt(s, needle, j) {
      if j + |needle| <= k {
        MatchInPrefix(s, k, needle, j);
      } else {
        Mismatch(s, needle, j, k - j);
      }
    }
    FindUnique(s, needle, 0, k);
  }

  lemma HeaderFound(front: text, name: text, tail: text, form: nat)
    requires form < 4 && FirstLength(front, name, tail, form)
    ensures HeaderAt(Lower(front + name + tail)) == |front| < |front + name + tail|
  {
    var s, needle := front + name + tail, FORMS[form];
    var low := Lower(s);
    OneReturn(form);
    FormsAreLower(form);
    assert low[..|front|] == Lower(front);
    NowhereLacks(front, needle);
    assert s[|front|..|front| + |needle|] == name[0..0 + |needle|];
    FoundInAnyCase(s, needle, |front|);
    FirstAt(low, needle, |front|);
    forall f | 0 <= f < form ensures Lacks(low, FORMS[f]) {
      FormsAreLower(f);
      NowhereLacks(s, FORMS[f]);
    }
    FirstForm(low, form, |front|);
  }

  lemma FirstForm(low: text, form: nat, k: nat)
    requires form < 4 && Find(low, FORMS[form], 0) == k < |low|
    requires forall f :: 0 <= f < form ==> Lacks(low, FORMS[f])
    ensures HeaderAt(low) == k
  {
    hide Find;
    FormsInOrder();
    assert form > 0 ==> Lacks(low, FORMS[0]);
    assert form > 1 ==> Lacks(low, FORMS[1]);
    assert form > 2 ==> Lacks(low, FORMS[2]);
    assert form == 0 || form == 1 || form == 2 || form == 3;
  }

  lemma FormsInOrder()
    ensures |FORMS| == 4
    ensures FORMS[0] == CLEN && FORMS[1] == CLEN_SPACE && FORMS[2] == COMPACT && FORMS[3] == COMPACT_SPACE
  {
  }

  /** The word stands at k and nowhere before. */
  ghost predicate StandsFirst(h: text, word: text, k: nat) {
    StandsAt(h, word, k) && forall j :: 0 <= j < k ==> !StandsAt(h, word, j)
  }

  lemma FormAt(h: text, word: text)
    requires NoCapitals(word) && word != []
    ensures var k := Find(Lower(h), word, 0);
            if k == |h| then Nowhere(h, word) else StandsFirst(h, word, k)
  {
    var k := Find(Lower(h), word, 0);
    FindIsFirst(Lower(h), word, 0);
    FoundInAnyCase(h, word, k);
    hide Find, MatchAt, StandsAt, Lower;
    forall j | 0 <= j < k ensures !StandsAt(h, word, j) {
      FoundInAnyCase(h, word, j);
    }
  }

  /** The first form that stands anywhere in h stands at k, and not before. */
  ghost predicate Preferred(h: text, form: nat, k: nat)
    requires form < 4
  {
    StandsFirst(h, FORMS[form], k) && forall f :: 0 <= f < form ==> Nowhere(h, FORMS[f])
  }

  /** What the search finds in any headers: the first place of the first form that stands there, letters in any case. */
  lemma HeaderExact(h: text)
    ensures var k := HeaderAt(Lower(h));
            if k == |h| then forall form :: 0 <= form < 4 ==> Nowhere(h, FORMS[form])
            else exists form :: 0 <= form < 4 && Preferred(h, form, k)
  {
    var k, low := HeaderAt(Lower(h)), Lower(h);
    hide Find, Lower, StandsFirst, Nowhere;
    FormsInOrder();
    forall form | 0 <= form < 4 ensures NoCapitals(FORMS[form]) && FORMS[form] != [] {
      FormsAreLower(form);
    }
    FormAt(h, FORMS[0]);
    FormAt(h, FORMS[1]);
    FormAt(h, FORMS[2]);
    FormAt(h, FORMS[3]);
    var form := if Find(low, FORMS[0], 0) < |h| then 0 else if Find(low, FORMS[1], 0) < |h| then 1
                else if Find(low, FORMS[2], 0) < |h| then 2 else 3;
    assert k < |h| ==> Preferred(h, form, k);
  }

  /** The four forms as they are usually written. */
  lemma UsualNames()
    ensures Names("\r\nContent-Length:", 0) && Names("\r\nContent-Length  :", 1)
    ensures Names("\r\nL:", 2) && Names("\r\nl :", 3)
  {
    LongName("\r\nContent-Length:", CLEN);
    LongName("\r\nContent-Length  :", CLEN_SPACE);
  }

  lemma LongName(name: text, word: text)
    requires 17 == |word| <= |name| && word[..16] == "\r\ncontent-length" && name[..16] == "\r\nContent-Length"
    requires name[16] == word[16]
    ensures StandsAt(name, word, 0)
  {
    forall i | 0 <= i < 17 ensures SameLetter(name[i], word[i]) {
      if i < 16 {
        assert name[i] == name[..16][i] && word[i] == word[..16][i];
      }
    }
    assert name[0..0 + |word|] == name[..17];
  }

  lemma ColonFound(front: text, name: text, tail: text, form: nat)
    requires form < 4 && Names(name, form)
    ensures Find(front + name + tail, ":", |front|) == |front| + |name| - 1
  {
    var s, k := front + name + tail, |front| + |name| - 1;
    assert s[k..k + 1] == ":";
    forall j | |front| <= j < k ensures !MatchAt(s, ":", j) {
      assert s[j] == name[j - |front|];
      Mismatch(s, ":", j, 0);
    }
    FindUnique(s, ":", |front|, k);
  }

  /** A block of headers with a Content-Length somewhere in it, other headers before and behind it. */
  datatype Block = Block(front: text, name: text, blanks: text, length: nat, more: text, form: nat)

  function Head(b: Block): text {
    b.front + b.name + (b.blanks + (Decimal(b.length) + b.more))
  }

  /** No NUL, no empty line, the Content-Length in one of its forms and none that the search would find before it. */
  ghost predicate PlainBlock(b: Block) {
    && '\0' !in Head(b)
    && Find(Head(b) + END_HEADERS, END_HEADERS, 0) == |Head(b)|
    && b.form < 4 && FirstLength(b.front, b.name, b.blanks + (Decimal(b.length) + b.more), b.form)
    && Blanks(b.blanks) && EndsNumber(b.more)
  }

  lemma LengthFound(b: Block)
    requires PlainBlock(b)
    ensures LengthIn(Head(b)) == Value(b.length)
  {
    var tail := b.blanks + (Decimal(b.length) + b.more);
    NoNul(Head(b));
    HeaderFound(b.front, b.name, tail, b.form);
    ColonFound(b.front, b.name, tail, b.form);
    AtoiOfDecimal(b.blanks, b.length, b.more);
    hide Find, HeaderAt, Lower, Atoi, FirstLength;
    assert Head(b)[|b.front| + |b.name|..] == tail;
  }

  function Compose(b: Block, body: text): text {
    Head(b) + END_HEADERS + body
  }

  /** A composed message is well-formed, whatever its body, the other headers and the form of the name. */
  lemma ComposedIsWellFormed(b: Block, body: text)
    requires PlainBlock(b) && b.length == |body|
    ensures WellFormed(Compose(b, body))
  {
    LengthFound(b);
    var head, m := Head(b), Compose(b, body);
    FindInPrefix(head + END_HEADERS, body, END_HEADERS);
    assert b.name != [] && |head| >= |b.name|;
    assert m[..|head|] == head;
    hide Find, LengthIn, Head;
  }
}
