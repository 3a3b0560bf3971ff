/**
 * base64 in the numbers of RFC 4648 section 4: which digit of which group of 24 bits stands where, which character a
 * digit is, and which bytes come back.
 */
module Base64Digits {
  import opened Base64
  import opened BlockCodec
  import opened Sequences

  // ---------------------------------------------------------------- characters

  /** The character codes of the 64 digits: letters, numerals, plus and slash. */
  function CodeOf(d: int): int {
    if d <= 25 then 65 + d else if d <= 51 then 97 + (d - 26) else if d <= 61 then 48 + (d - 52)
    else if d == 62 then 43 else 47
  }

  lemma SymbolCodes(k: byte)
    requires k < 64
    ensures Symbol(k) as int == CodeOf(k as int)
  {
    SixBits(k);
    AlphabetCodes(k as int);
  }

  lemma AlphabetCodes(n: nat)
    requires n < 64
    ensures ALPHABET[n] as int == CodeOf(n)
  {
    if n < 26 {
      CapitalCodes(n);
    } else if n < 52 {
      SmallCodes(n - 26);
    } else {
      assert ALPHABET[n] == DIGITS[n - 52];
      NumeralCodes(n - 52);
    }
  }

  lemma CapitalCodes(n: nat)
    requires n < 26
    ensures ALPHABET[n] as int == 65 + n
  {
    assert ALPHABET[n] == UPPER[n];
    assert UPPER[n] == 'A' + n as char;
  }

  lemma SmallCodes(n: nat)
    requires n < 26
    ensures ALPHABET[n + 26] as int == 97 + n
  {
    assert ALPHABET[n + 26] == LOWER[n];
    assert LOWER[n] == 'a' + n as char;
  }

  lemma NumeralCodes(n: nat)
    requires n < 12
    ensures DIGITS[n] as int == CodeOf(n + 52)
  {
    assert n < 10 ==> DIGITS[n] == '0' + n as char;
  }

  /** What the decoder takes a character for: its digit, 255 for '=', zero for anything else. */
  function ValueOf(x: char): int {
    var n := x as int;
    if 65 <= n <= 90 then n - 65 else if 97 <= n <= 122 then n - 97 + 26 else if 48 <= n <= 57 then n - 48 + 52
    else if n == 43 then 62 else if n == 47 then 63 else if n == 61 then 255 else 0
  }

  lemma CharacterValues(x: char)
    ensures Val(x) as int == ValueOf(x)
  {
    if x != '=' {
      ByteOfInt(Index(x));
    }
  }

  // ---------------------------------------------------------------- digits of three bytes

  /** Base-64 digit j of a number of 24 bits, the most significant first. */
  function Digit(n: int, j: int): int {
    if j == 0 then n / 262144 else if j == 1 then n / 4096 % 64 else if j == 2 then n / 64 % 64 else n % 64
  }

  lemma FirstDigit(a: byte)
    ensures First(a) as int == a as int / 4 && First(a) < 64
  {
  }

  lemma SecondDigit(a: byte, b: byte)
    ensures Second(a, b) as int == a as int % 4 * 16 + b as int / 16 && Second(a, b) < 64
  {
    LowTwo(a);
    HighFour(b);
    JoinFour((a & 0x03) << 4, (b & 0xF0) >> 4);
    assert Second(a, b) < 64;
  }

  lemma ThirdDigit(b: byte, c: byte)
    ensures Third(b, c) as int == b as int % 16 * 4 + c as int / 64 && Third(b, c) < 64
  {
    LowFour(b);
    HighTwo(c);
    JoinTwo((b & 0x0F) << 2, (c & 0xC0) >> 6);
    assert Third(b, c) < 64;
  }

  lemma FourthDigit(c: byte)
    ensures Fourth(c) as int == c as int % 64 && Fourth(c) < 64
  {
  }

  lemma LowTwo(a: byte)
    ensures ((a & 0x03) << 4) as int == a as int % 4 * 16 && ((a & 0x03) << 4) & 0x0F == 0
    ensures (a & 0x03) as int == a as int % 4
  {
  }

  lemma HighFour(b: byte)
    ensures ((b & 0xF0) >> 4) as int == b as int / 16 && (b & 0xF0) >> 4 <= 0x0F
  {
  }

  lemma LowFour(b: byte)
    ensures ((b & 0x0F) << 2) as int == b as int % 16 * 4 && ((b & 0x0F) << 2) & 0x03 == 0
  {
  }

  lemma HighTwo(c: byte)
    ensures ((c & 0xC0) >> 6) as int == c as int / 64 && (c & 0xC0) >> 6 <= 0x03
  {
  }

  lemma JoinFour(x: byte, y: byte)
    requires x & 0x0F == 0 && y <= 0x0F
    ensures (x | y) as int == x as int + y as int
  {
  }

  lemma JoinTwo(x: byte, y: byte)
    requires x & 0x03 == 0 && y <= 0x03
    ensures (x | y) as int == x as int + y as int
  {
  }

  /** The four digits of three bytes are those of the number they make. */
  lemma DigitsOfThree(a: byte, b: byte, c: byte)
    ensures var n := a as int * 65536 + b as int * 256 + c as int;
            && First(a) as int == Digit(n, 0) && Second(a, b) as int == Digit(n, 1)
            && Third(b, c) as int == Digit(n, 2) && Fourth(c) as int == Digit(n, 3)
            && First(a) < 64 && Second(a, b) < 64 && Third(b, c) < 64 && Fourth(c) < 64
  {
    FirstDigit(a);
    SecondDigit(a, b);
    ThirdDigit(b, c);
    FourthDigit(c);
    DigitsOfNumber(a as int, b as int, c as int);
  }

  lemma DigitsOfNumber(a: int, b: int, c: int)
    requires 0 <= a < 256 && 0 <= b < 256 && 0 <= c < 256
    ensures var n := a * 65536 + b * 256 + c;
            && Digit(n, 0) == a / 4 && Digit(n, 1) == a % 4 * 16 + b / 16
            && Digit(n, 2) == b % 16 * 4 + c / 64 && Digit(n, 3) == c % 64
  {
    Digits(a / 4, a % 4, b / 16, b % 16, c / 64, c % 64);
  }

  /** The number whose bytes are 4 * p + q, 16 * r + t and 64 * u + v. */
  lemma Digits(p: int, q: int, r: int, t: int, u: int, v: int)
    requires 0 <= p < 64 && 0 <= q < 4 && 0 <= r < 16 && 0 <= t < 16 && 0 <= u < 4 && 0 <= v < 64
    ensures var n := (4 * p + q) * 65536 + (16 * r + t) * 256 + (64 * u + v);
            Digit(n, 0) == p && Digit(n, 1) == q * 16 + r && Digit(n, 2) == t * 4 + u && Digit(n, 3) == v
  {
    var n := (4 * p + q) * 65536 + (16 * r + t) * 256 + (64 * u + v);
    TopDigit(n, p, (16 * q + r) * 4096 + (4 * t + u) * 64 + v);
    NextDigit(n, p, 16 * q + r, (4 * t + u) * 64 + v);
    LaterDigit(n, 64 * p + (16 * q + r), 4 * t + u, v);
    LastDigit(n, 4096 * p + 64 * (16 * q + r) + (4 * t + u), v);
  }

  lemma TopDigit(n: int, d: int, rest: int)
    requires n == d * 262144 + rest && 0 <= rest < 262144
    ensures n / 262144 == d
  {
  }

  lemma NextDigit(n: int, above: int, d: int, rest: int)
    requires n == above * 262144 + d * 4096 + rest && 0 <= d < 64 && 0 <= rest < 4096
    ensures n / 4096 % 64 == d
  {
    assert n / 4096 == above * 64 + d;
  }

  lemma LaterDigit(n: int, above: int, d: int, rest: int)
    requires n == above * 4096 + d * 64 + rest && 0 <= d < 64 && 0 <= rest < 64
    ensures n / 64 % 64 == d
  {
    assert n / 64 == above * 64 + d;
  }

  lemma LastDigit(n: int, above: int, d: int)
    requires n == above * 64 + d && 0 <= d < 64
    ensures n % 64 == d
  {
  }

  // ---------------------------------------------------------------- a whole string

  function ByteAt(s: seq<byte>, i: nat): int {
    if i < |s| then s[i] as int else 0
  }

  /** Group g of three bytes as a number, zeros behind the end. */
  function Group(s: seq<byte>, g: nat): int {
    ByteAt(s, 3 * g) * 65536 + ByteAt(s, 3 * g + 1) * 256 + ByteAt(s, 3 * g + 2)
  }

  /** Character i of the encoding: a digit as long as there are bits left, then '=', which is 61. */
  predicate CharacterAt(s: seq<byte>, i: nat, x: char) {
    x as int == if 6 * i < 8 * |s| then CodeOf(Digit(Group(s, i / 4), i % 4)) else 61
  }

  lemma GroupLater(s: seq<byte>, g: nat)
    requires |s| >= 3
    ensures Group(s, g + 1) == Group(s[3..], g)
  {
    ByteLater(s, 3 * g);
    ByteLater(s, 3 * g + 1);
    ByteLater(s, 3 * g + 2);
  }

  lemma ByteLater(s: seq<byte>, i: nat)
    requires |s| >= 3
    ensures ByteAt(s, i + 3) == ByteAt(s[3..], i)
  {
  }

  lemma CharacterLater(s: seq<byte>, i: nat, x: char)
    requires |s| >= 3
    ensures CharacterAt(s, i + 4, x) <==> CharacterAt(s[3..], i, x)
  {
    GroupLater(s, i / 4);
    assert (i + 4) / 4 == i / 4 + 1 && (i + 4) % 4 == i % 4;
    hide Group, Digit, CodeOf;
  }

  lemma OneCharacter(s: seq<byte>, i: nat, d: byte)
    requires i < 4 && 6 * i < 8 * |s| && d < 64 && d as int == Digit(Group(s, 0), i)
    ensures CharacterAt(s, i, Symbol(d))
  {
    hide Symbol, CodeOf, Digit, Group;
    SymbolCodes(d);
    assert i / 4 == 0 && i % 4 == i;
  }

  lemma FirstBlock(s: seq<byte>, i: nat)
    requires |s| >= 3 && i < 4
    ensures |QuadOf(s[..3])| == 4 && CharacterAt(s, i, QuadOf(s[..3])[i])
  {
    hide Symbol, First, Second, Third, Fourth, CodeOf, Digit, CharacterAt;
    var a, b, c := s[0], s[1], s[2];
    DigitsOfThree(a, b, c);
    assert Group(s, 0) == a as int * 65536 + b as int * 256 + c as int;
    hide Group;
    OneCharacter(s, i, if i == 0 then First(a) else if i == 1 then Second(a, b) else if i == 2 then Third(b, c)
                       else Fourth(c));
  }

  lemma LastBlock(s: seq<byte>, i: nat)
    requires 0 < |s| < 3 && i < 4
    ensures |LastOf(s)| == 4 && CharacterAt(s, i, LastOf(s)[i])
  {
    hide Symbol, First, Second, Third, Fourth, CodeOf, Digit;
    var a, b: byte := s[0], if |s| == 2 then s[1] else 0;
    DigitsOfThree(a, b, 0);
    assert Group(s, 0) == a as int * 65536 + b as int * 256;
    hide Group;
    if i <= |s| {
      hide CharacterAt;
      OneCharacter(s, i, if i == 0 then First(a) else if i == 1 then Second(a, b) else Third(b, 0));
    }
  }

  /** Every character of every encoding, and how many there are. */
  lemma {:induction false} EncodedInDigits(s: seq<byte>)
    ensures var e := Encoded(s);
            |e| == (|s| + 2) / 3 * 4 && forall i :: 0 <= i < |e| ==> CharacterAt(s, i, e[i])
    decreases |s|
  {
    hide CharacterAt, QuadOf, LastOf;
    var e := Encoded(s);
    if |s| >= 3 {
      var later := Encoded(s[3..]);
      EncodedInDigits(s[3..]);
      FirstBlock(s, 0);
      assert e == QuadOf(s[..3]) + later;
      forall i | 0 <= i < |e| ensures CharacterAt(s, i, e[i]) {
        if i < 4 {
          FirstBlock(s, i);
        } else {
          CharacterLater(s, i - 4, later[i - 4]);
        }
      }
    } else if s == [] {
      NothingEncoded();
    } else {
      LastBlock(s, 0);
      forall i | 0 <= i < |e| ensures CharacterAt(s, i, e[i]) {
        LastBlock(s, i);
      }
    }
  }

  lemma NothingEncoded()
    ensures Encoded([]) == []
  {
  }

  // ---------------------------------------------------------------- decoding

  /** Byte j of what four values make: eight bits from place 8 * j on of their low six bits each. */
  function ByteOf(x1: int, x2: int, x3: int, x4: int, j: int): int {
    if j == 0 then x1 % 64 * 4 + x2 / 16 % 4 else if j == 1 then x2 % 16 * 16 + x3 / 4 % 16 else x3 % 4 * 64 + x4 % 64
  }

  lemma FirstByte(x1: byte, x2: byte)
    ensures Byte1(x1, x2) as int == x1 as int % 64 * 4 + x2 as int / 16 % 4
  {
    LowSix(x1);
    MiddleTwo(x2);
    JoinTwo(x1 << 2, (x2 & 0x30) >> 4);
  }

  lemma SecondByte(x2: byte, x3: byte)
    ensures Byte2(x2, x3) as int == x2 as int % 16 * 16 + x3 as int / 4 % 16
  {
    LowerFour(x2);
    MiddleFour(x3);
    JoinFour((x2 & 0x0F) << 4, (x3 & 0x3C) >> 2);
  }

  lemma ThirdByte(x3: byte, x4: byte)
    ensures Byte3(x3, x4) as int == x3 as int % 4 * 64 + x4 as int % 64
  {
    LowestTwo(x3);
    LastSix(x4);
    JoinSix((x3 & 0x03) << 6, x4 & 0x3F);
  }

  lemma LowSix(x: byte)
    ensures (x << 2) as int == x as int % 64 * 4 && (x << 2) & 0x03 == 0
  {
  }

  lemma MiddleTwo(x: byte)
    ensures ((x & 0x30) >> 4) as int == x as int / 16 % 4 && (x & 0x30) >> 4 <= 0x03
  {
  }

  lemma LowerFour(x: byte)
    ensures ((x & 0x0F) << 4) as int == x as int % 16 * 16 && ((x & 0x0F) << 4) & 0x0F == 0
  {
  }

  lemma MiddleFour(x: byte)
    ensures ((x & 0x3C) >> 2) as int == x as int / 4 % 16 && (x & 0x3C) >> 2 <= 0x0F
  {
    assert (x & 0x3C) >> 2 == (x >> 2) & 0x0F;
    Quarter(x);
    LowNibble(x >> 2);
  }

  lemma Quarter(x: byte)
    ensures (x >> 2) as int == x as int / 4
  {
  }

  lemma LowNibble(x: byte)
    ensures (x & 0x0F) as int == x as int % 16
  {
  }

  lemma LowestTwo(x: byte)
    ensures ((x & 0x03) << 6) as int == x as int % 4 * 64 && ((x & 0x03) << 6) & 0x3F == 0
  {
  }

  lemma LastSix(x: byte)
    ensures (x & 0x3F) as int == x as int % 64 && x & 0x3F <= 0x3F
  {
  }

  lemma JoinSix(x: byte, y: byte)
    requires x & 0x3F == 0 && y <= 0x3F
    ensures (x | y) as int == x as int + y as int
  {
  }

  /** The three bytes that four characters make. */
  predicate MadeOf(b: seq<byte>, q: string)
    requires |b| >= 3 && |q| == 4
  {
    forall j :: 0 <= j < 3 ==> b[j] as int == ByteOf(ValueOf(q[0]), ValueOf(q[1]), ValueOf(q[2]), ValueOf(q[3]), j)
  }

  lemma TripleInNumbers(q: string)
    requires |q| == 4
    ensures |TripleOf(q)| == 3 && MadeOf(TripleOf(q), q)
  {
    hide Val, Byte1, Byte2, Byte3;
    CharacterValues(q[0]);
    CharacterValues(q[1]);
    CharacterValues(q[2]);
    CharacterValues(q[3]);
    FirstByte(Val(q[0]), Val(q[1]));
    SecondByte(Val(q[1]), Val(q[2]));
    ThirdByte(Val(q[2]), Val(q[3]));
  }

  /** The bytes of each full group of four characters, whatever the characters, and what the last ones leave. */
  lemma {:induction false} DecodedInNumbers(t: string, g: nat)
    requires 4 * g + 4 <= |t|
    ensures var d := Decoded(t);
            |d| >= 3 * g + 3 && MadeOf(d[3 * g..3 * g + 3], t[4 * g..4 * g + 4])
    decreases g
  {
    hide MadeOf, TripleOf;
    var q, later := t[..4], t[4..];
    TripleInNumbers(q);
    assert Decoded(t) == TripleOf(q) + Decoded(later);
    hide Decoded;
    if g == 0 {
      assert t[0..0 + 4] == q && (TripleOf(q) + Decoded(later))[0..0 + 3] == TripleOf(q);
    } else {
      DecodedInNumbers(later, g - 1);
      SliceLater(TripleOf(q), Decoded(later), 3 * (g - 1));
      assert t[4 * g..4 * g + 4] == later[4 * (g - 1)..4 * (g - 1) + 4];
    }
  }

  /** Behind the full groups comes what the last characters leave, and nothing else. */
  lemma {:induction false} DecodedBehind(t: string)
    ensures var d, m := Decoded(t), |t| / 4;
            |d| >= 3 * m && |t| - 4 * m < 4 && d[3 * m..] == TailOf(t[4 * m..])
    decreases |t|
  {
    hide TripleOf, TailOf;
    if |t| >= 4 {
      var q, later := t[..4], t[4..];
      TripleInNumbers(q);
      DecodedBehind(later);
      assert Decoded(t) == TripleOf(q) + Decoded(later);
      hide Decoded;
      var m := |later| / 4;
      assert |t| / 4 == m + 1;
      RestLater(TripleOf(q), Decoded(later), 3 * m);
      assert t[4 * (m + 1)..] == later[4 * m..];
    } else {
      assert t[0..] == t;
    }
  }

  lemma RestLater(a: seq<byte>, b: seq<byte>, i: nat)
    requires |a| == 3 && i <= |b|
    ensures (a + b)[i + 3..] == b[i..]
  {
  }

  lemma SliceLater(a: seq<byte>, b: seq<byte>, i: nat)
    requires |a| == 3 && i + 3 <= |b|
    ensures (a + b)[i + 3..i + 6] == b[i..i + 3]
  {
  }

  /**
   * One to three characters behind the full groups: nothing for one or where the second is '='; three bytes for two or
   * where the third is '='; one byte for three.
   */
  lemma TailInNumbers(t: string)
    requires |t| < 4
    ensures var d := TailOf(t);
            if |t| < 2 || t[1] as int == 61 then d == [0]
            else if |t| == 2 || t[2] as int == 61 then |d| == 4 && d[3] == 0 && MadeOf(d, [t[0], t[1], '=', '='])
            else |d| == 2 && d[1] == 0 && d[0] as int == ByteOf(ValueOf(t[0]), ValueOf(t[1]), 0, 0, 0)
  {
    hide Val, RestOf, ValueOf, ByteOf;
    if |t| >= 2 {
      TailOfMore(t);
      NoDigitIsMinusOne(t[1]);
      if |t| == 3 {
        NoDigitIsMinusOne(t[2]);
      }
      if t[1] as int == 61 {
        NothingRests(Val(t[0]), if |t| == 2 then MINUS_ONE else Val(t[2]));
      } else if |t| == 2 || t[2] as int == 61 {
        ThreeRest(t[0], t[1]);
      } else {
        OneRests(t[0], t[1], Val(t[2]));
      }
    } else {
      TailOfLess(t);
    }
  }

  lemma TailOfLess(t: string)
    requires |t| < 2
    ensures TailOf(t) == [0]
  {
    hide Val;
  }

  lemma TailOfMore(t: string)
    requires 2 <= |t| < 4
    ensures TailOf(t) == RestOf(Val(t[0]), Val(t[1]), if |t| == 2 then MINUS_ONE else Val(t[2])) + [0]
  {
    hide Val, RestOf;
  }

  lemma NothingRests(x1: byte, x3: byte)
    ensures RestOf(x1, MINUS_ONE, x3) + [0] == [0]
  {
  }

  lemma ThreeRest(x: char, y: char)
    requires Val(y) != MINUS_ONE
    ensures var d := RestOf(Val(x), Val(y), MINUS_ONE) + [0];
            |d| == 4 && d[3] == 0 && MadeOf(d, [x, y, '=', '='])
  {
    hide Val, ValueOf, MadeOf;
    var q := [x, y, '=', '='];
    TripleInNumbers(q);
    NoDigitIsMinusOne('=');
    var d := RestOf(Val(x), Val(y), MINUS_ONE) + [0];
    assert RestOf(Val(x), Val(y), MINUS_ONE) == TripleOf(q);
    hide RestOf, TripleOf;
    MadeOfMore(TripleOf(q), d, q);
  }

  lemma MadeOfMore(b: seq<byte>, d: seq<byte>, q: string)
    requires |b| == 3 && b <= d && |q| == 4 && MadeOf(b, q)
    ensures MadeOf(d, q)
  {
    hide ByteOf, ValueOf;
  }

  lemma OneRests(x: char, y: char, x3: byte)
    requires Val(y) != MINUS_ONE && x3 != MINUS_ONE
    ensures var d := RestOf(Val(x), Val(y), x3) + [0];
            |d| == 2 && d[1] == 0 && d[0] as int == ByteOf(ValueOf(x), ValueOf(y), 0, 0, 0)
  {
    hide Val, ValueOf, Byte1;
    CharacterValues(x);
    CharacterValues(y);
    FirstByte(Val(x), Val(y));
  }

  lemma NoDigitIsMinusOne(x: char)
    ensures Val(x) == MINUS_ONE <==> x as int == 61
  {
    if x != '=' {
      ByteOfInt(Index(x));
    }
  }

  /** What padding leaves behind the bytes: 15 and 255 after one byte too many for full groups, 63 after two. */
  function Garbage(n: nat): seq<byte> {
    if n % 3 == 1 then [15, 255] else if n % 3 == 2 then [63] else []
  }

  /** Decoding an encoded byte string: the bytes, the garbage and a zero byte. */
  lemma DecodedExactly(s: seq<byte>)
    ensures Decoded(Encoded(s)) == s + Garbage(|s|) + [0]
  {
    hide Dec, Enc, TripleOf, QuadOf, LastOf, Garbage;
    var m := Full(|s|);
    var front, x := s[..m], s[m..];
    FullBlocks(s);
    LastExactly(x);
    RestOfThree(|s|);
    assert s == front + x;
    ConcatAssociative(front, x, Garbage(|s|));
    ConcatAssociative(front, x + Garbage(|s|), [0]);
  }

  lemma RestOfThree(n: nat)
    ensures n - Full(n) < 3 && Garbage(n - Full(n)) == Garbage(n)
  {
  }

  lemma LastExactly(x: seq<byte>)
    requires |x| < 3
    ensures Dec(TripleOf, TailOf, LastOf(x)) == x + Garbage(|x|) + [0]
  {
    hide Dec, LastOf, Garbage;
    if x == [] {
      NothingExactly();
    } else if |x| == 1 {
      OneExactly(x[0]);
      assert x == [x[0]];
    } else {
      TwoExactly(x[0], x[1]);
      assert x == [x[0], x[1]];
    }
  }

  lemma NothingExactly()
    ensures Dec(TripleOf, TailOf, LastOf([])) == [] + Garbage(0) + [0]
  {
    assert LastOf([]) == "" && Dec(TripleOf, TailOf, "") == [0];
  }

  lemma OneExactly(a: byte)
    ensures Dec(TripleOf, TailOf, LastOf([a])) == [a] + Garbage(1) + [0]
  {
    hide Symbol, Val, Dec, First, Second;
    assert Val('=') == MINUS_ONE by {
      CharacterValues('=');
      NoDigitIsMinusOne('=');
    }
    Bits(a, 0, 0);
    ValOfSymbol(First(a));
    ValOfSymbol(Second(a, 0));
    FourCharacters(LastOf([a]));
    GarbageOfOne(a);
  }

  lemma GarbageOfOne(a: byte)
    ensures Byte2(Second(a, 0), MINUS_ONE) == 15 && Byte3(MINUS_ONE, MINUS_ONE) == 255
  {
  }

  lemma TwoExactly(a: byte, b: byte)
    ensures Dec(TripleOf, TailOf, LastOf([a, b])) == [a, b] + Garbage(2) + [0]
  {
    hide Symbol, Val, Dec, First, Second, Third;
    assert Val('=') == MINUS_ONE by {
      CharacterValues('=');
      NoDigitIsMinusOne('=');
    }
    Bits(a, b, 0);
    ValOfSymbol(First(a));
    ValOfSymbol(Second(a, b));
    ValOfSymbol(Third(b, 0));
    FourCharacters(LastOf([a, b]));
    GarbageOfTwo(b);
  }

  lemma GarbageOfTwo(b: byte)
    ensures Byte3(Third(b, 0), MINUS_ONE) == 63
  {
  }
}
