/** base64 as the digest code uses it (RFC 4648 section 4), with what it appends to the decoded bytes. */
module Base64 {
  import opened BlockCodec
  import opened Sequences

  const UPPER: string := "ABCDEFGHIJKLMNOPQRSTUVWXYZ"
  const LOWER: string := "abcdefghijklmnopqrstuvwxyz"
  const DIGITS: string := "0123456789+/"
  const ALPHABET: string := UPPER + LOWER + DIGITS

  /** -1: every use below keeps only the low eight bits of an expression, so eight bits of it are enough. */
  const MINUS_ONE: byte := 0xFF

  /** The place of a character in the alphabet; 0 for a character outside it. */
  function Index(x: char): (k: nat)
    ensures k < 64
  {
    if 'A' <= x <= 'Z' then (x - 'A') as nat
    else if 'a' <= x <= 'z' then (x - 'a') as nat + 26
    else if '0' <= x <= '9' then (x - '0') as nat + 52
    else if x == '+' then 62
    else if x == '/' then 63
    else 0
  }

  function Val(x: char): byte {
    if x == '=' then MINUS_ONE else Index(x) as bv8
  }

  function Symbol(k: byte): char {
    ALPHABET[(k & 0x3f) as int % 64]
  }

  lemma IndexOfUpper(n: nat)
    requires n < 26
    ensures Index(UPPER[n]) == n && UPPER[n] != '='
  {
    assert UPPER[n] == 'A' + n as char;
  }

  lemma IndexOfLower(n: nat)
    requires n < 26
    ensures Index(LOWER[n]) == 26 + n && LOWER[n] != '='
  {
    assert LOWER[n] == 'a' + n as char;
  }

  lemma IndexOfDigit(n: nat)
    requires n < 12
    ensures Index(DIGITS[n]) == 52 + n && DIGITS[n] != '='
  {
    assert n < 10 ==> DIGITS[n] == '0' + n as char;
  }

  lemma IndexOfAlphabet(n: nat)
    requires n < 64
    ensures Index(ALPHABET[n]) == n && ALPHABET[n] != '='
  {
    if n < 26 {
      IndexOfUpper(n);
      assert ALPHABET[n] == UPPER[n];
    } else if n < 52 {
      IndexOfLower(n - 26);
      assert ALPHABET[n] == LOWER[n - 26];
    } else {
      IndexOfDigit(n - 52);
      assert ALPHABET[n] == DIGITS[n - 52];
    }
  }

  lemma SixBits(k: byte)
    requires k < 64
    ensures k & 0x3f == k && 0 <= k as int < 64 && k as int as bv8 == k
  {
  }

  lemma ValOfSymbol(k: byte)
    requires k < 64
    ensures Val(Symbol(k)) == k && Symbol(k) != '='
  {
    SixBits(k);
    IndexOfAlphabet(k as int);
  }

  // ---------------------------------------------------------------- specification

  function First(a: byte): byte { (a & 0xFC) >> 2 }

  function Second(a: byte, b: byte): byte { ((a & 0x03) << 4) | ((b & 0xF0) >> 4) }

  function Third(b: byte, c: byte): byte { ((b & 0x0F) << 2) | ((c & 0xC0) >> 6) }

  function Fourth(c: byte): byte { c & 0x3F }

  function Quad(a: byte, b: byte, c: byte): string {
    [Symbol(First(a)), Symbol(Second(a, b)), Symbol(Third(b, c)), Symbol(Fourth(c))]
  }

  /** A block of three bytes. */
  function QuadOf(x: seq<byte>): string {
    if |x| == 3 then Quad(x[0], x[1], x[2]) else ""
  }

  /** What is left behind the full blocks, with its padding. */
  function LastOf(x: seq<byte>): string {
    if |x| == 2 then [Symbol(First(x[0])), Symbol(Second(x[0], x[1])), Symbol(Third(x[1], 0)), '=']
    else if |x| == 1 then [Symbol(First(x[0])), Symbol(Second(x[0], 0)), '=', '=']
    else ""
  }

  function Encoded(s: seq<byte>): string {
    Enc(QuadOf, LastOf, s)
  }

  function Byte1(x1: byte, x2: byte): byte { (x1 << 2) | ((x2 & 0x30) >> 4) }

  function Byte2(x2: byte, x3: byte): byte { ((x2 & 0x0F) << 4) | ((x3 & 0x3C) >> 2) }

  function Byte3(x3: byte, x4: byte): byte { ((x3 & 0x03) << 6) | (x4 & 0x3F) }

  function Triple(x1: byte, x2: byte, x3: byte, x4: byte): (r: seq<byte>)
    ensures |r| == 3
  {
    [Byte1(x1, x2), Byte2(x2, x3), Byte3(x3, x4)]
  }

  function TripleOf(q: string): seq<byte> {
    if |q| == 4 then Triple(Val(q[0]), Val(q[1]), Val(q[2]), Val(q[3])) else []
  }

  /** What one to three characters at the end give: the later bytes are written only when a character is missing. */
  function RestOf(x1: byte, x2: byte, x3: byte): (r: seq<byte>)
    ensures |r| <= 3
  {
    if x2 == MINUS_ONE then []
    else if x3 == MINUS_ONE then Triple(x1, x2, x3, MINUS_ONE)
    else [Byte1(x1, x2)]
  }

  /** The characters at the end, and the final zero. */
  function TailOf(s: string): seq<byte> {
    if s == "" then [0]
    else
      var x1 := Val(s[0]);
      var x2 := if |s| > 1 then Val(s[1]) else MINUS_ONE;
      var x3 := if |s| > 2 then Val(s[2]) else MINUS_ONE;
      RestOf(x1, x2, x3) + [0]
  }

  /** The decoded bytes and a zero byte behind them. */
  function Decoded(s: string): seq<byte> {
    Dec(TripleOf, TailOf, s)
  }

  // ---------------------------------------------------------------- round trip

  lemma Bits(a: byte, b: byte, c: byte)
    ensures First(a) < 64 && Second(a, b) < 64 && Third(b, c) < 64 && Fourth(c) < 64
    ensures Byte1(First(a), Second(a, b)) == a
    ensures Byte2(Second(a, b), Third(b, c)) == b
    ensures Byte3(Third(b, c), Fourth(c)) == c
  {
  }

  lemma QuadDecodes(a: byte, b: byte, c: byte)
    ensures var q := Quad(a, b, c);
            Triple(Val(q[0]), Val(q[1]), Val(q[2]), Val(q[3])) == [a, b, c]
  {
    Bits(a, b, c);
    ValOfSymbol(First(a));
    ValOfSymbol(Second(a, b));
    ValOfSymbol(Third(b, c));
    ValOfSymbol(Fourth(c));
  }

  lemma BlockDecodes(x: seq<byte>)
    requires |x| == 3
    ensures |QuadOf(x)| == 4 && TripleOf(QuadOf(x)) == x
  {
    QuadDecodes(x[0], x[1], x[2]);
  }

  lemma NothingLeft()
    ensures LastComesBack(LastOf, TripleOf, TailOf, 0, [])
  {
    assert Dec(TripleOf, TailOf, "") == [0];
  }

  lemma FourCharacters(e: string)
    requires |e| == 4
    ensures Dec(TripleOf, TailOf, e) == Triple(Val(e[0]), Val(e[1]), Val(e[2]), Val(e[3])) + [0]
  {
    assert e[4..] == "" && e[..4] == e;
  }

  lemma OneCharacterBack(a: byte)
    ensures var e := LastOf([a]);
            && |e| == 4
            && Triple(Val(e[0]), Val(e[1]), Val(e[2]), Val(e[3]))[..1] == [a]
  {
    hide Symbol, Val;
    Bits(a, 0, 0);
    ValOfSymbol(First(a));
    ValOfSymbol(Second(a, 0));
  }

  lemma FirstOne(t: seq<byte>, a: byte)
    requires |t| == 3 && t[..1] == [a]
    ensures [a] <= t + [0]
  {
    assert t[0] == t[..1][0];
  }

  lemma OneLeft(a: byte)
    ensures LastComesBack(LastOf, TripleOf, TailOf, 0, [a])
  {
    hide Triple, Val, LastOf, Dec;
    var e := LastOf([a]);
    OneCharacterBack(a);
    FourCharacters(e);
    FirstOne(Triple(Val(e[0]), Val(e[1]), Val(e[2]), Val(e[3])), a);
  }

  lemma TwoCharactersBack(a: byte, b: byte)
    ensures var e := LastOf([a, b]);
            && |e| == 4
            && Triple(Val(e[0]), Val(e[1]), Val(e[2]), Val(e[3]))[..2] == [a, b]
  {
    Bits(a, b, 0);
    ValOfSymbol(First(a));
    ValOfSymbol(Second(a, b));
    ValOfSymbol(Third(b, 0));
  }

  lemma FirstTwo(t: seq<byte>, a: byte, b: byte)
    requires |t| == 3 && t[..2] == [a, b]
    ensures [a, b] <= t + [0]
  {
    assert t[0] == t[..2][0] && t[1] == t[..2][1];
  }

  lemma TwoLeft(a: byte, b: byte)
    ensures LastComesBack(LastOf, TripleOf, TailOf, 0, [a, b])
  {
    hide Triple, Val, LastOf, Dec;
    var e := LastOf([a, b]);
    TwoCharactersBack(a, b);
    FourCharacters(e);
    FirstTwo(Triple(Val(e[0]), Val(e[1]), Val(e[2]), Val(e[3])), a, b);
  }

  lemma LastDecodes(x: seq<byte>)
    requires |x| < 3
    ensures LastComesBack(LastOf, TripleOf, TailOf, 0, x)
  {
    if x == [] {
      NothingLeft();
    } else if |x| == 1 {
      OneLeft(x[0]);
      assert x == [x[0]];
    } else {
      TwoLeft(x[0], x[1]);
      assert x == [x[0], x[1]];
    }
  }

  lemma FullBlocks(s: seq<byte>)
    ensures Dec(TripleOf, TailOf, Enc(QuadOf, LastOf, s))
         == s[..Full(|s|)] + Dec(TripleOf, TailOf, LastOf(s[Full(|s|)..]))
  {
    forall x: seq<byte> {:trigger QuadOf(x)} | |x| == 3 ensures |QuadOf(x)| == 4 && TripleOf(QuadOf(x)) == x {
      BlockDecodes(x);
    }
    Blocks(QuadOf, LastOf, TripleOf, TailOf, s);
  }

  /**
   * Decoding an encoded byte string gives it back, then the padding garbage, then a zero byte; nothing but that zero is
   * added exactly when the length is a multiple of three.
   */
  lemma DecodedEncoded(s: seq<byte>)
    ensures s <= Decoded(Encoded(s))
    ensures |Decoded(Encoded(s))| == 3 * ((|s| + 2) / 3) + 1
    ensures Decoded(Encoded(s)) == s + [0] <==> |s| % 3 == 0
  {
    var m := Full(|s|);
    FullBlocks(s);
    LastDecodes(s[m..]);
    FrontAndBack(s, Dec(TripleOf, TailOf, LastOf(s[m..])), 0);
  }

  // ---------------------------------------------------------------- the two loops

  method PutQuad(out: array<char>, ptr: nat, a: byte, b: byte, c: byte, ghost block: seq<byte>)
    requires ptr + 4 <= out.Length && block == [a, b, c]
    modifies out
    ensures out[..ptr + 4] == old(out[..ptr]) + QuadOf(block)
  {
    hide Symbol;
    var k := (a & 0xFC) >> 2;
    out[ptr] := Symbol(k);
    k := (a & 0x03) << 4;
    k := k | ((b & 0xF0) >> 4);
    out[ptr + 1] := Symbol(k);
    k := (b & 0x0F) << 2;
    k := k | ((c & 0xC0) >> 6);
    out[ptr + 2] := Symbol(k);
    k := c & 0x3F;
    out[ptr + 3] := Symbol(k);
  }

  method PutLast(out: array<char>, ptr: nat, a: byte, b: byte, two: bool)
    requires ptr + 4 <= out.Length
    modifies out
    ensures out[..ptr + 4] == old(out[..ptr]) + LastOf(if two then [a, b] else [a])
  {
    hide Symbol;
    out[ptr] := Symbol((a & 0xFC) >> 2);
    if two {
      out[ptr + 1] := Symbol(((a & 0x03) << 4) | ((b & 0xF0) >> 4));
      ThirdOfTwo(b);
      out[ptr + 2] := Symbol((b & 0x0F) << 2);
    } else {
      SecondOfOne(a);
      out[ptr + 1] := Symbol((a & 0x03) << 4);
      out[ptr + 2] := '=';
    }
    out[ptr + 3] := '=';
  }

  lemma ThirdOfTwo(b: byte)
    ensures Third(b, 0) == (b & 0x0F) << 2
  {
  }

  lemma SecondOfOne(a: byte)
    ensures Second(a, 0) == (a & 0x03) << 4
  {
  }

  method EncodeString(buf: array<byte>, len: nat) returns (out: array<char>, newlen: nat)
    requires len <= buf.Length
    ensures fresh(out) && newlen <= out.Length && out[..newlen] == Encoded(buf[..len])
  {
    out := new char[len / 3 * 4 + 8];
    var ptr := EncodeTriplets(buf, len, out, QuadOf, LastOf);
    newlen := EncodeRest(buf, len, out, ptr);
  }

  method EncodeTriplet(buf: array<byte>, i: nat, out: array<char>, ptr: nat,
                       ghost f: seq<byte> -> string, ghost s: seq<byte>)
    requires i + 3 <= |s| <= buf.Length && s == buf[..|s|] && ptr + 4 <= out.Length && out as object != buf as object
    requires forall x: seq<byte> {:trigger f(x)} :: |x| == 3 ==> f(x) == QuadOf(x)
    modifies out
    ensures out[..ptr + 4] == old(out[..ptr]) + f(s[i..i + 3])
  {
    hide QuadOf;
    ghost var block := s[i..i + 3];
    assert block == [buf[i], buf[i + 1], buf[i + 2]];
    PutQuad(out, ptr, buf[i], buf[i + 1], buf[i + 2], block);
  }

  method EncodeTriplets(buf: array<byte>, len: nat, out: array<char>,
                        ghost f: seq<byte> -> string, ghost last: seq<byte> -> string) returns (ptr: nat)
    requires len <= buf.Length && out.Length == len / 3 * 4 + 8 && out as object != buf as object
    requires forall x: seq<byte> {:trigger f(x)} :: |x| == 3 ==> f(x) == QuadOf(x)
    modifies out
    ensures ptr == len / 3 * 4
    ensures Enc(f, last, buf[..len]) == out[..ptr] + last(buf[len / 3 * 3..len])
  {
    var triplets := len / 3;
    ghost var s := buf[..len];
    var i := 0;
    ptr := 0;
    ghost var n := 0;
    assert s[0..] == s;
    hide Enc, QuadOf;
    while i < triplets * 3
      invariant 0 <= n <= triplets && i == 3 * n && ptr == 4 * n
      invariant buf[..len] == s && Enc(f, last, s) == out[..ptr] + Enc(f, last, s[i..])
    {
      EncStep(f, last, s, i, out[..ptr]);
      EncodeTriplet(buf, i, out, ptr, f, s);
      i, ptr, n := i + 3, ptr + 4, n + 1;
    }
    assert n == triplets;
    assert s[i..] == buf[i..len];
  }

  method EncodeRest(buf: array<byte>, len: nat, out: array<char>, ptr: nat) returns (newlen: nat)
    requires len <= buf.Length && ptr + 4 <= out.Length && out as object != buf as object
    modifies out
    ensures newlen <= out.Length && out[..newlen] == old(out[..ptr]) + LastOf(buf[len / 3 * 3..len])
  {
    var i, rest := len / 3 * 3, len % 3;
    assert i + rest == len;
    newlen := ptr;
    if rest == 0 {
      assert buf[i..len] == [];
    } else if rest == 1 {
      assert buf[i..len] == [buf[i]];
      PutLast(out, ptr, buf[i], 0, false);
      newlen := ptr + 4;
    } else {
      assert buf[i..len] == [buf[i], buf[i + 1]];
      PutLast(out, ptr, buf[i], buf[i + 1], true);
      newlen := ptr + 4;
    }
  }

  method PutBlock(out: array<byte>, j: nat, x1: byte, x2: byte, x3: byte, x4: byte, ghost block: string)
    requires j + 3 <= out.Length && |block| == 4
    requires x1 == Val(block[0]) && x2 == Val(block[1]) && x3 == Val(block[2]) && x4 == Val(block[3])
    modifies out
    ensures out[..j + 3] == old(out[..j]) + TripleOf(block)
  {
    PutTriple(out, j, x1, x2, x3, x4);
  }

  method PutTriple(out: array<byte>, j: nat, x1: byte, x2: byte, x3: byte, x4: byte)
    requires j + 3 <= out.Length
    modifies out
    ensures out[..j + 3] == old(out[..j]) + Triple(x1, x2, x3, x4)
  {
    out[j] := (x1 << 2) | ((x2 & 0x30) >> 4);
    out[j + 1] := ((x2 & 0x0F) << 4) | ((x3 & 0x3C) >> 2);
    out[j + 2] := ((x3 & 0x03) << 6) | (x4 & 0x3F);
  }

  method DecodeString(buf: array<char>, len: nat) returns (out: array<byte>, newlen: nat)
    requires len <= buf.Length
    ensures fresh(out) && newlen <= out.Length && out[..newlen] == Decoded(buf[..len])
  {
    out := new byte[len * 3 / 4 + 8];
    var i, j := DecodeQuads(buf, len, out, TripleOf, TailOf);
    newlen := DecodeRest(buf, i, len, out, j);
  }

  method DecodeQuad(buf: array<char>, i: nat, out: array<byte>, j: nat, ghost g: string -> seq<byte>, ghost s: string)
    requires i + 4 <= |s| <= buf.Length && s == buf[..|s|] && j + 3 <= out.Length && out as object != buf as object
    requires forall q: string {:trigger g(q)} :: |q| == 4 ==> g(q) == TripleOf(q)
    modifies out
    ensures out[..j + 3] == old(out[..j]) + g(s[i..i + 4])
  {
    hide TripleOf, Val;
    var x1, x2, x3, x4 := Val(buf[i]), Val(buf[i + 1]), Val(buf[i + 2]), Val(buf[i + 3]);
    ghost var block := s[i..i + 4];
    assert block[0] == buf[i] && block[1] == buf[i + 1] && block[2] == buf[i + 2] && block[3] == buf[i + 3];
    PutBlock(out, j, x1, x2, x3, x4, block);
  }

  method DecodeQuads(buf: array<char>, len: nat, out: array<byte>,
                     ghost g: string -> seq<byte>, ghost tail: string -> seq<byte>) returns (i: nat, j: nat)
    requires len <= buf.Length && out.Length == len * 3 / 4 + 8 && out as object != buf as object
    requires forall q: string {:trigger g(q)} :: |q| == 4 ==> g(q) == TripleOf(q)
    modifies out
    ensures i <= len < i + 4 && j + 4 <= out.Length
    ensures Dec(g, tail, buf[..len]) == out[..j] + tail(buf[i..len])
  {
    hide Dec, TripleOf;
    ghost var s := buf[..len];
    i, j := 0, 0;
    ghost var n := 0;
    assert s[0..] == s;
    while i + 3 < len
      invariant 0 <= i <= len && i == 4 * n && j == 3 * n
      invariant buf[..len] == s && Dec(g, tail, s) == out[..j] + Dec(g, tail, s[i..])
    {
      DecStep(g, tail, s, i, out[..j]);
      DecodeQuad(buf, i, out, j, g, s);
      i, j, n := i + 4, j + 3, n + 1;
    }
    assert s[i..] == buf[i..len];
    DecEnd(g, tail, s[i..]);
  }

  lemma DecEnd(g: string -> seq<byte>, tail: string -> seq<byte>, s: string)
    requires |s| < 4
    ensures Dec(g, tail, s) == tail(s)
  {
  }

  /** The characters behind the last full group, and the zero byte. */
  method DecodeRest(buf: array<char>, i: nat, len: nat, out: array<byte>, j: nat) returns (newlen: nat)
    requires i <= len <= buf.Length && len < i + 4 && j + 4 <= out.Length && out as object != buf as object
    modifies out
    ensures newlen <= out.Length && out[..newlen] == old(out[..j]) + TailOf(buf[i..len])
  {
    hide Val, RestOf;
    ghost var front, s, more := out[..j], buf[i..len], [];
    newlen := j;
    if i < len {
      var x1 := Val(buf[i]);
      var x2 := if i + 1 < len then Val(buf[i + 1]) else MINUS_ONE;
      var x3 := if i + 2 < len then Val(buf[i + 2]) else MINUS_ONE;
      newlen := PutRest(out, j, x1, x2, x3);
      more := RestOf(x1, x2, x3);
      assert TailOf(s) == more + [0];
    }
    ConcatAssociative(front, more, [0]);
    PutByte(out, newlen, 0);
    newlen := newlen + 1;
  }

  method PutRest(out: array<byte>, j: nat, x1: byte, x2: byte, x3: byte) returns (newlen: nat)
    requires j + 3 <= out.Length
    modifies out
    ensures newlen == j + |RestOf(x1, x2, x3)| && out[..newlen] == old(out[..j]) + RestOf(x1, x2, x3)
  {
    newlen := j;
    if x2 != MINUS_ONE {
      if x3 == MINUS_ONE {
        PutTriple(out, j, x1, x2, x3, MINUS_ONE);
        newlen := j + 3;
      } else {
        PutByte(out, j, (x1 << 2) | ((x2 & 0x30) >> 4));
        newlen := j + 1;
      }
    }
  }

  method PutByte(out: array<byte>, j: nat, x: byte)
    requires j < out.Length
    modifies out
    ensures out[..j + 1] == old(out[..j]) + [x]
  {
    out[j] := x;
  }
}
