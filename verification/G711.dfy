/** G.711 companding: u-law and A-law on 16-bit samples (ITU-T G.711). */
module G711 {
  import opened Sequences

  type code = bv8

  const SIGN_BIT: code := 0x80
  const QUANT_MASK: code := 0xf
  const SEG_MASK: code := 0x70
  const BIAS: int := 0x84
  const SEG_END: seq<int> := [0xFF, 0x1FF, 0x3FF, 0x7FF, 0xFFF, 0x1FFF, 0x3FFF, 0x7FFF]

  // ---------------------------------------------------------------- segments

  /** The first segment whose end is not below the value; 8 when there is none. */
  function Segment(val: int): (s: nat)
    ensures s <= 8
  {
    if val <= 0xFF then 0 else if val <= 0x1FF then 1 else if val <= 0x3FF then 2 else if val <= 0x7FF then 3
    else if val <= 0xFFF then 4 else if val <= 0x1FFF then 5 else if val <= 0x3FFF then 6 else if val <= 0x7FFF then 7
    else 8
  }

  /** The table walk of the program. */
  method Search(val: int, table: seq<int>) returns (i: nat)
    ensures i <= |table|
    ensures i < |table| ==> val <= table[i]
    ensures forall j :: 0 <= j < i ==> table[j] < val
  {
    i := 0;
    while i < |table|
      invariant 0 <= i <= |table|
      invariant forall j :: 0 <= j < i ==> table[j] < val
    {
      if val <= table[i] {
        return;
      }
      i := i + 1;
    }
  }

  lemma SearchIsSegment(val: int, i: nat)
    requires i <= 8 && (i < 8 ==> val <= SEG_END[i]) && forall j :: 0 <= j < i ==> SEG_END[j] < val
    ensures i == Segment(val)
  {
    var s := Segment(val);
    assert s < 8 ==> val <= SEG_END[s];
    assert s > 0 ==> SEG_END[s - 1] < val;
    assert i > 0 ==> SEG_END[i - 1] < val;
  }

  method SearchSegments(val: int) returns (seg: nat)
    ensures seg == Segment(val)
  {
    seg := Search(val, SEG_END);
    SearchIsSegment(val, seg);
  }

  /** 2 to the power k, for shift counts. */
  function Pow2(k: nat): nat
    requires k <= 10
  {
    if k == 0 then 1 else if k == 1 then 2 else if k == 2 then 4 else if k == 3 then 8 else if k == 4 then 16
    else if k == 5 then 32 else if k == 6 then 64 else if k == 7 then 128 else if k == 8 then 256
    else if k == 9 then 512 else 1024
  }

  // ---------------------------------------------------------------- seven bits

  /** Segment and quantization bits of a code, as a number. */
  function SevenBits(u: code): (n: nat)
    ensures n < 128
  {
    Nibbles(u & 0x7f);
    assert (u & SEG_MASK) >> 4 == (u & 0x7f) >> 4 && u & QUANT_MASK == (u & 0x7f) & 0xf;
    ((u & SEG_MASK) >> 4) as nat * 16 + (u & QUANT_MASK) as nat
  }

  lemma Nibbles(b: code)
    ensures b as nat == 16 * (b >> 4) as nat + (b & 0xf) as nat
    ensures b <= 0x7f ==> b as nat < 128
  {
  }

  lemma SevenBitsAre(u: code)
    ensures SevenBits(u) == (u & 0x7f) as nat
  {
    Nibbles(u & 0x7f);
    assert (u & SEG_MASK) >> 4 == (u & 0x7f) >> 4 && u & QUANT_MASK == (u & 0x7f) & 0xf;
  }

  lemma CodeOfItsNumber(b: code)
    ensures (b as nat) as code == b
  {
  }

  lemma SevenBitsBack(u: code)
    ensures SevenBits(u) as code == u & 0x7f
  {
    hide SevenBits;
    SevenBitsAre(u);
    var b := u & 0x7f;
    CodeOfItsNumber(b);
    assert SevenBits(u) == b as nat;
  }

  lemma BelowHalf(n: nat)
    requires n < 128
    ensures n as code <= 0x7f
  {
    ByteOfInt(n);
  }

  /** Seven bits put under a sign bit and any masks that leave them alone. */
  lemma SevenBitsOf(n: nat, u: code)
    requires n < 128 && u & 0x7f == n as code
    ensures SevenBits(u) == n
  {
    SevenBitsAre(u);
    ByteOfInt(n);
    hide SevenBits;
  }

  // ---------------------------------------------------------------- u-law

  /** Segment and quantization bits of a biased magnitude. */
  function ULawBits(m: int): nat
    requires Segment(m) < 8
  {
    16 * Segment(m) + (m / Pow2(Segment(m) + 3)) % 16
  }

  function Magnitude(x: int): nat {
    if x < 0 then -x else x
  }

  function ULawEncode(x: int): code {
    var m := Magnitude(x) + BIAS;
    var mask: code := if x < 0 then 0x7F else 0xFF;
    if Segment(m) >= 8 then 0x7F ^ mask else (ULawBits(m) as code) ^ mask
  }

  /** The biased magnitude that segment and quantization bits stand for. */
  function ULawLevel(n: nat): nat
    requires n < 128
  {
    ((n % 16) * 8 + BIAS) * Pow2(n / 16)
  }

  function ULawDecode(c: code): int {
    var u := !c;
    var t := ULawLevel(SevenBits(u));
    if u & SIGN_BIT != 0 then BIAS - t else t - BIAS
  }

  method Linear2ULaw(pcm_val: int) returns (uval: code)
    ensures uval == ULawEncode(pcm_val)
  {
    var m, mask: code := pcm_val + BIAS, 0xFF;
    if pcm_val < 0 {
      m, mask := BIAS - pcm_val, 0x7F;
    }
    hide Segment;
    var seg := SearchSegments(m);
    if seg >= 8 {
      return 0x7F ^ mask;
    }
    UFits(m);
    var bits := seg * 16 + (m / Pow2(seg + 3)) % 16;
    assert bits == ULawBits(m);
    hide ULawBits, Pow2;
    return (bits as code) ^ mask;
  }

  lemma UFits(m: int)
    requires Segment(m) < 8
    ensures 0 <= ULawBits(m) < 128
  {
  }

  lemma UMaskBits(n: nat, negative: bool)
    requires n < 128
    ensures var u := !((n as code) ^ (if negative then 0x7F else 0xFF));
            SevenBits(u) == n && (u & SIGN_BIT != 0 <==> negative)
  {
    var b := n as code;
    BelowHalf(n);
    UnmaskedU(b, negative);
    SevenBitsOf(n, !(b ^ (if negative then 0x7F else 0xFF)));
  }

  lemma UnmaskedU(b: code, negative: bool)
    requires b <= 0x7f
    ensures var u := !(b ^ (if negative then 0x7F else 0xFF));
            u & 0x7f == b && (u & SIGN_BIT != 0 <==> negative)
  {
  }

  // ---------------------------------------------------------------- the u-law staircase

  /** What a biased magnitude becomes: the middle of its step. */
  function ULawStep(m: nat): nat
    requires BIAS <= m
  {
    if Segment(m) >= 8 then 32256 else ULawLevel(ULawBits(m))
  }

  /** A segment is sixteen steps long and begins at its sixteenth. */
  lemma SegmentBounds(m: int)
    requires 0x80 <= m <= 0x7FFF
    ensures var s := Segment(m); s < 8 && 16 * Pow2(s + 3) <= m < 32 * Pow2(s + 3)
  {
  }

  /** The step of a segment that m lies in. */
  lemma StepOf(m: nat, s: nat)
    requires s < 8 && 16 * Pow2(s + 3) <= m < 32 * Pow2(s + 3)
    ensures var w := Pow2(s + 3); InStep(m, w, m / w)
  {
    if s == 0 { StepOf8(m); } else if s == 1 { StepOf16(m); } else if s == 2 { StepOf32(m); }
    else if s == 3 { StepOf64(m); } else if s == 4 { StepOf128(m); } else if s == 5 { StepOf256(m); }
    else if s == 6 { StepOf512(m); } else { StepOf1024(m); }
  }

  predicate InStep(m: nat, w: nat, k: nat) {
    16 <= k < 32 && k % 16 == k - 16 && k * w <= m < k * w + w && w / 2 * 2 == w
  }

  lemma StepOf8(m: nat)
    requires 16 * 8 <= m < 32 * 8
    ensures InStep(m, 8, m / 8)
  {
  }

  lemma StepOf16(m: nat)
    requires 16 * 16 <= m < 32 * 16
    ensures InStep(m, 16, m / 16)
  {
  }

  lemma StepOf32(m: nat)
    requires 16 * 32 <= m < 32 * 32
    ensures InStep(m, 32, m / 32)
  {
  }

  lemma StepOf64(m: nat)
    requires 16 * 64 <= m < 32 * 64
    ensures InStep(m, 64, m / 64)
  {
  }

  lemma StepOf128(m: nat)
    requires 16 * 128 <= m < 32 * 128
    ensures InStep(m, 128, m / 128)
  {
  }

  lemma StepOf256(m: nat)
    requires 16 * 256 <= m < 32 * 256
    ensures InStep(m, 256, m / 256)
  {
  }

  lemma StepOf512(m: nat)
    requires 16 * 512 <= m < 32 * 512
    ensures InStep(m, 512, m / 512)
  {
  }

  lemma StepOf1024(m: nat)
    requires 16 * 1024 <= m < 32 * 1024
    ensures InStep(m, 1024, m / 1024)
  {
  }

  lemma ULawStepMiddle(m: nat)
    requires BIAS <= m <= 0x7FFF
    ensures var w := Pow2(Segment(m) + 3);
            && 16 <= m / w < 32
            && ULawStep(m) == (m / w) * w + w / 2
            && ULawBits(m) == 16 * Segment(m) + m / w - 16 < 128
  {
    SegmentBounds(m);
    var s := Segment(m);
    StepOf(m, s);
    hide Segment, Pow2, ULawLevel;
    var k := m / Pow2(s + 3);
    TwoDigits(s, k);
    ULawLevelMiddle(16 * s + k - 16);
  }

  lemma TwoDigits(s: nat, k: nat)
    requires 16 <= k < 32
    ensures var n := 16 * s + k - 16; n / 16 == s && n % 16 == k - 16
  {
  }

  /** Decoding after encoding works on the magnitude alone; the sign is kept. */
  lemma ULawThere(x: int)
    ensures var d := ULawStep(Magnitude(x) + BIAS) - BIAS;
            ULawDecode(ULawEncode(x)) == if x < 0 then -d else d
  {
    assert ULawLevel(127) == 32256;
    hide ULawLevel, ULawBits, Segment, ULawDecode, ULawEncode;
    var n := ULawEncodeBits(x);
    ULawDecodeBits(n, x < 0);
  }

  lemma ULawEncodeBits(x: int) returns (n: nat)
    ensures n < 128 && ULawEncode(x) == (n as code) ^ (if x < 0 then 0x7F else 0xFF)
    ensures var m := Magnitude(x) + BIAS; n == if Segment(m) >= 8 then 127 else ULawBits(m)
  {
    hide ULawBits, Segment;
    var m := Magnitude(x) + BIAS;
    n := 127;
    MaximalBits();
    if Segment(m) < 8 {
      InSegments(m);
      ULawStepMiddle(m);
      n := ULawBits(m);
    }
  }

  lemma InSegments(m: int)
    requires Segment(m) < 8
    ensures m <= 0x7FFF
  {
  }

  lemma MaximalBits()
    ensures 127 as code == 0x7F
  {
  }

  lemma ULawDecodeBits(n: nat, negative: bool)
    requires n < 128
    ensures ULawDecode((n as code) ^ (if negative then 0x7F else 0xFF)) ==
            if negative then BIAS - ULawLevel(n) else ULawLevel(n) - BIAS
  {
    hide ULawLevel;
    UMaskBits(n, negative);
  }

  /** Decode after encode is odd. */
  lemma ULawOdd(x: int)
    ensures ULawDecode(ULawEncode(-x)) == -ULawDecode(ULawEncode(x))
  {
    hide ULawEncode, ULawDecode, ULawStep;
    ULawThere(x);
    ULawThere(-x);
    ZeroStaysZero();
  }

  lemma ZeroStaysZero()
    ensures ULawStep(BIAS) == BIAS
  {
    ULawStepMiddle(BIAS);
  }

  lemma ULawStepMonotone(m: nat, n: nat)
    requires BIAS <= m <= n
    ensures BIAS <= ULawStep(m) <= ULawStep(n)
  {
    if n <= 0x7FFF {
      ULawStepMiddle(m);
      ULawStepMiddle(n);
      ULawStepBounds(m);
      ULawStepBounds(n);
      if Segment(m) == Segment(n) {
        SameSegment(m, n);
      }
    } else if m <= 0x7FFF {
      ULawStepBounds(m);
    }
  }

  /** The steps of a segment stay inside it. */
  lemma ULawStepBounds(m: nat)
    requires BIAS <= m <= 0x7FFF
    ensures var s := Segment(m);
            && Pow2(s) * 128 <= m < Pow2(s) * 256
            && Pow2(s) * 128 < ULawStep(m) < Pow2(s) * 256
            && Segment(ULawStep(m)) == s
    ensures BIAS <= ULawStep(m) <= 32256
  {
    ULawStepMiddle(m);
    var s := Segment(m);
    if s == 0 {} else if s == 1 {} else if s == 2 {} else if s == 3 {}
    else if s == 4 {} else if s == 5 {} else if s == 6 {} else {}
  }

  lemma SameSegment(m: nat, n: nat)
    requires BIAS <= m <= n <= 0x7FFF && Segment(m) == Segment(n)
    ensures ULawStep(m) <= ULawStep(n)
  {
    ULawStepMiddle(m);
    ULawStepMiddle(n);
    hide ULawStep, ULawBits, Segment, Pow2;
    WholeSteps(m, n, Segment(m));
  }

  lemma WholeSteps(m: nat, n: nat, s: nat)
    requires m <= n && s < 8
    ensures var w := Pow2(s + 3); m / w * w <= n / w * w
  {
    var w := Pow2(s + 3);
    assert 8 <= w;
    Quotients(m, n, w);
  }

  lemma Quotients(m: nat, n: nat, w: nat)
    requires m <= n && 0 < w
    ensures m / w * w <= n / w * w
  {
    var a, b := m / w, n / w;
    assert a > b ==> a * w >= (b + 1) * w;
  }

  /** Decode after encode is monotone. */
  lemma ULawMonotone(x: int, y: int)
    requires x <= y
    ensures ULawDecode(ULawEncode(x)) <= ULawDecode(ULawEncode(y))
  {
    ULawThere(x);
    ULawThere(y);
    hide ULawEncode, ULawDecode, ULawStep;
    if 0 <= x {
      ULawStepMonotone(x + BIAS, y + BIAS);
    } else if y < 0 {
      ULawStepMonotone(-y + BIAS, -x + BIAS);
    } else {
      ULawStepMonotone(BIAS, -x + BIAS);
      ULawStepMonotone(BIAS, y + BIAS);
    }
  }

  lemma MiddleOfStep(k: nat, s: nat)
    requires s < 8
    ensures var w := Pow2(s + 3); (k * w + w / 2) / w == k
  {
    if s == 0 {} else if s == 1 {} else if s == 2 {} else if s == 3 {}
    else if s == 4 {} else if s == 5 {} else if s == 6 {} else {}
  }

  /** A step is a fixed point. */
  lemma ULawStepFixed(m: nat)
    requires BIAS <= m
    ensures ULawStep(ULawStep(m)) == ULawStep(m)
  {
    if m <= 0x7FFF {
      ULawStepBounds(m);
      ULawStepMiddle(m);
      ULawStepMiddle(ULawStep(m));
      MiddleOfStep(m / Pow2(Segment(m) + 3), Segment(m));
    } else {
      ULawStepMiddle(32256);
    }
  }

  /** Decode after encode changes nothing the second time. */
  lemma ULawIdempotent(x: int)
    ensures var d := ULawDecode(ULawEncode(x));
            ULawDecode(ULawEncode(d)) == d
  {
    hide ULawEncode, ULawDecode, ULawStep;
    var m := Magnitude(x) + BIAS;
    var d := ULawDecode(ULawEncode(x));
    ULawThere(x);
    ULawThere(d);
    ULawStepMonotone(BIAS, m);
    ULawStepMiddle(BIAS);
    ULawStepFixed(m);
  }

  /** The error is at most (|x| + 132) / 32 up to the clipping level 32635, and the result saturates beyond it. */
  lemma ULawError(x: int)
    ensures var d := ULawDecode(ULawEncode(x));
            && (Magnitude(x) <= 32635 ==> 32 * Magnitude(d - x) <= Magnitude(x) + 132)
            && (x > 32635 ==> d == 32124)
            && (x < -32635 ==> d == -32124)
  {
    var m := Magnitude(x) + BIAS;
    ULawThere(x);
    if m <= 0x7FFF {
      ULawStepMiddle(m);
      ULawStepBounds(m);
      ULawStepError(m);
    }
  }

  lemma ULawStepError(m: nat)
    requires BIAS <= m <= 0x7FFF
    ensures 32 * Magnitude(ULawStep(m) - m) <= m
  {
    ULawStepMiddle(m);
    ULawStepBounds(m);
    var s := Segment(m);
    if s == 0 {} else if s == 1 {} else if s == 2 {} else if s == 3 {}
    else if s == 4 {} else if s == 5 {} else if s == 6 {} else {}
  }

  // ---------------------------------------------------------------- u-law codes

  /** The biased magnitude of a code is the fixed point its bits come from. */
  lemma ULawLevelBits(n: nat)
    requires n < 128
    ensures BIAS <= ULawLevel(n) <= 32256 && ULawBits(ULawLevel(n)) == n
    ensures n > 0 ==> ULawLevel(n) > BIAS
  {
    hide Segment, Pow2, ULawLevel;
    ULawLevelMiddle(n);
    ULawMiddle(n % 16 + 16, n / 16);
  }

  lemma ULawLevelMiddle(n: nat)
    requires n < 128
    ensures var w := Pow2(n / 16 + 3); ULawLevel(n) == (n % 16 + 16) * w + w / 2
  {
    var s := n / 16;
    if s == 0 {} else if s == 1 {} else if s == 2 {} else if s == 3 {}
    else if s == 4 {} else if s == 5 {} else if s == 6 {} else {}
  }

  /** The middle of a step lies in the step's segment. */
  lemma ULawMiddle(k: nat, s: nat)
    requires s < 8 && 16 <= k < 32
    ensures var w := Pow2(s + 3);
            var p := k * w + w / 2;
            && BIAS <= p <= 32256 && Segment(p) == s && p / w == k
            && (s > 0 || k > 16 ==> p > BIAS)
  {
    if s == 0 {} else if s == 1 {} else if s == 2 {} else if s == 3 {}
    else if s == 4 {} else if s == 5 {} else if s == 6 {} else {}
  }

  lemma UCodeBack(c: code)
    ensures var u := !c;
            if u & SIGN_BIT != 0 then (u & 0x7f) ^ 0x7F == c && (c == 0x7F <==> u & 0x7f == 0)
            else (u & 0x7f) ^ 0xFF == c && c != 0x7F
  {
  }

  lemma UDecodeBits(c: code) returns (n: nat)
    ensures n < 128 && n as code == !c & 0x7f
    ensures ULawDecode(c) == if !c & SIGN_BIT != 0 then BIAS - ULawLevel(n) else ULawLevel(n) - BIAS
  {
    SevenBitsBack(!c);
    hide ULawLevel, SevenBits;
    n := SevenBits(!c);
  }

  /** Every code but 0x7F comes back after decoding and encoding; 0x7F, the negative zero, becomes 0xFF. */
  lemma ULawCodes(c: code)
    ensures ULawEncode(ULawDecode(c)) == if c == 0x7F then 0xFF else c
  {
    var n := UDecodeBits(c);
    UCodeBack(c);
    ULawEncodeLevel(n, !c & SIGN_BIT != 0);
    ZeroBits(n);
  }

  lemma ZeroBits(n: nat)
    requires n < 128
    ensures n as code == 0 <==> n == 0
  {
    ByteOfInt(n);
  }

  lemma ULawEncodeLevel(n: nat, negative: bool)
    requires n < 128
    ensures var x := if negative then BIAS - ULawLevel(n) else ULawLevel(n) - BIAS;
            ULawEncode(x) == (n as code) ^ (if negative && n > 0 then 0x7F else 0xFF)
  {
    ULawLevelBits(n);
    var x := if negative then BIAS - ULawLevel(n) else ULawLevel(n) - BIAS;
    assert Magnitude(x) + BIAS == ULawLevel(n);
    ULawStepRange(ULawLevel(n));
  }

  lemma ULawStepRange(m: nat)
    requires m <= 32256
    ensures Segment(m) < 8
  {
  }

  // ---------------------------------------------------------------- A-law

  function ALawBits(p: int): nat
    requires Segment(p) < 8
  {
    16 * Segment(p) + (p / Pow2(if Segment(p) < 2 then 4 else Segment(p) + 3)) % 16
  }

  function ALawEncode(x: int): code {
    var p := if x >= 0 then x else -x - 8;
    var mask: code := if x >= 0 then 0xD5 else 0x55;
    if Segment(p) >= 8 then 0x7F ^ mask else (ALawBits(p) as code) ^ mask
  }

  function ALawLevel(n: nat): nat
    requires n < 128
  {
    var s, t := n / 16, (n % 16) * 16;
    if s == 0 then t + 8 else if s == 1 then t + 0x108 else (t + 0x108) * Pow2(s - 1)
  }

  function ALawDecode(c: code): int {
    var a := c ^ 0x55;
    var t := ALawLevel(SevenBits(a));
    if a & SIGN_BIT != 0 then t else -(t as int)
  }

  method Linear2ALaw(pcm_val: int) returns (aval: code)
    ensures aval == ALawEncode(pcm_val)
  {
    var p, mask: code := pcm_val, 0xD5;
    if pcm_val < 0 {
      p, mask := -pcm_val - 8, 0x55;
    }
    hide Segment;
    var seg := SearchSegments(p);
    if seg >= 8 {
      return 0x7F ^ mask;
    }
    ALawBitsRange(p);
    var bits := seg * 16;
    if seg < 2 {
      bits := bits + (p / 16) % 16;
    } else {
      bits := bits + (p / Pow2(seg + 3)) % 16;
    }
    assert bits == ALawBits(p);
    hide ALawBits, Pow2;
    return (bits as code) ^ mask;
  }

  lemma AMaskBits(n: nat, positive: bool)
    requires n < 128
    ensures var a := ((n as code) ^ (if positive then 0xD5 else 0x55)) ^ 0x55;
            SevenBits(a) == n && (a & SIGN_BIT != 0 <==> positive)
  {
    var b := n as code;
    BelowHalf(n);
    UnmaskedA(b, positive);
    SevenBitsOf(n, (b ^ (if positive then 0xD5 else 0x55)) ^ 0x55);
  }

  lemma UnmaskedA(b: code, positive: bool)
    requires b <= 0x7f
    ensures var a := (b ^ (if positive then 0xD5 else 0x55)) ^ 0x55;
            a & 0x7f == b && (a & SIGN_BIT != 0 <==> positive)
  {
  }

  /** What decode after encode makes of a magnitude after the negative side's offset. */
  function ALawStep(p: int): nat
    requires Segment(p) < 8
  {
    ALawLevel(ALawBits(p))
  }

  lemma ALawThere(x: int)
    requires -32768 <= x <= 32767
    ensures var p := if x >= 0 then x else -x - 8;
            Segment(p) < 8 && ALawDecode(ALawEncode(x)) == if x >= 0 then ALawStep(p) else -(ALawStep(p) as int)
  {
    var p := if x >= 0 then x else -x - 8;
    InRange(p);
    hide ALawLevel, ALawBits, Segment, ALawDecode;
    ALawBitsRange(p);
    ALawDecodeBits(ALawBits(p), x >= 0);
  }

  lemma ALawDecodeBits(n: nat, positive: bool)
    requires n < 128
    ensures ALawDecode((n as code) ^ (if positive then 0xD5 else 0x55)) ==
            if positive then ALawLevel(n) else -(ALawLevel(n) as int)
  {
    hide ALawLevel;
    AMaskBits(n, positive);
  }

  lemma ALawBitsRange(p: int)
    requires Segment(p) < 8
    ensures ALawBits(p) < 128 && ALawBits(p) / 16 == Segment(p)
  {
  }

  lemma ALawStepError(p: nat)
    requires p <= 0x7FFF
    ensures 32 * Magnitude(ALawStep(p) - p) <= p + 256
    ensures 32 * Magnitude(ALawStep(p) - (p + 8)) <= p + 8 + 480
  {
    ALawBitsRange(p);
    if Segment(p) < 2 {
      ALawStepLow(p);
    } else {
      ALawStepHigh(p);
    }
  }

  /** Segments 0 and 1 have steps of 16. */
  lemma ALawStepLow(p: nat)
    requires Segment(p) < 2
    ensures ALawStep(p) == p / 16 * 16 + 8
  {
    if Segment(p) == 0 {} else {}
  }

  /** In the later segments the step doubles each time; the result is its middle. */
  lemma ALawStepHigh(p: nat)
    requires 2 <= Segment(p) < 8
    ensures var w := Pow2(Segment(p) + 3);
            && 16 * w <= p < 32 * w && w >= 32
            && ALawStep(p) == p / w * w + w / 2
            && -(w as int) < 2 * (ALawStep(p) - p) <= w
  {
    SegmentBounds(p);
    var s := Segment(p);
    StepOf(p, s);
    WideSteps(s);
    hide Segment, Pow2, ALawLevel;
    var k := p / Pow2(s + 3);
    TwoDigits(s, k);
    ALawLevelMiddle(16 * s + k - 16);
  }

  lemma WideSteps(s: nat)
    requires 2 <= s < 8
    ensures Pow2(s + 3) >= 32
  {
  }

  /** The error of decode after encode on non-negative samples. */
  lemma ALawErrorPositive(x: int)
    requires 0 <= x <= 32767
    ensures 32 * Magnitude(ALawDecode(ALawEncode(x)) - x) <= x + 256
  {
    ALawThere(x);
    ALawStepError(x);
  }

  /**
   * On negative samples the bound holds exactly outside -7..-1: there the offset of eight makes the magnitude negative,
   * and the sample comes back as -248.
   */
  lemma ALawErrorNegative(x: int)
    requires -32768 <= x < 0
    ensures 32 * Magnitude(ALawDecode(ALawEncode(x)) - x) <= Magnitude(x) + 480 <==> x <= -8
    ensures x > -8 ==> ALawDecode(ALawEncode(x)) == -248
  {
    hide ALawEncode, ALawDecode, ALawStep, Segment;
    ALawThere(x);
    if x <= -8 {
      ALawStepError(-x - 8);
    } else {
      ALawStepBelowZero(-x - 8);
    }
  }

  lemma ALawStepBelowZero(p: int)
    requires -8 < p < 0
    ensures Segment(p) < 8 && ALawStep(p) == 248
  {
    assert ALawBits(p) == 15;
  }

  lemma ALawLevelLow(n: nat, p: int)
    requires n < 32 && (p == ALawLevel(n) || p == ALawLevel(n) - 8)
    ensures 0 <= p <= 0x7FFF && ALawBits(p) == n
  {
    if n / 16 == 0 {} else {}
  }

  lemma ALawLevelMiddle(n: nat)
    requires 32 <= n < 128
    ensures var w := Pow2(n / 16 + 3); ALawLevel(n) == (n % 16 + 16) * w + w / 2
  {
    var s := n / 16;
    if s == 2 {} else if s == 3 {} else if s == 4 {} else if s == 5 {} else if s == 6 {} else {}
  }

  /** The middle of a step, and the same a little below, lie in the step's segment. */
  lemma NearMiddle(k: nat, s: nat, d: nat)
    requires 2 <= s < 8 && 16 <= k < 32 && d <= 8
    ensures var w := Pow2(s + 3);
            var p := k * w + w / 2 - d;
            0 <= p <= 0x7FFF && Segment(p) == s && p / w == k
  {
    if s == 2 {} else if s == 3 {} else if s == 4 {} else if s == 5 {} else if s == 6 {} else {}
  }

  lemma ALawLevelHigh(n: nat, d: nat)
    requires 32 <= n < 128 && d <= 8
    ensures var p := ALawLevel(n) - d; 0 <= p <= 0x7FFF && ALawBits(p) == n
  {
    hide Segment, Pow2, ALawLevel;
    ALawLevelMiddle(n);
    NearMiddle(n % 16 + 16, n / 16, d);
  }

  lemma ALawEncodeLevel(n: nat, positive: bool)
    requires n < 128
    ensures var t := ALawLevel(n) as int;
            ALawEncode(if positive then t else -t) == (n as code) ^ (if positive then 0xD5 else 0x55)
  {
    hide ALawLevel, ALawBits, Segment;
    var t: int := ALawLevel(n);
    if n < 32 {
      ALawLevelLow(n, t);
      ALawLevelLow(n, t - 8);
    } else {
      ALawLevelHigh(n, 0);
      ALawLevelHigh(n, 8);
    }
    ALawLevelRange(n);
    InRange(t);
    InRange(t - 8);
  }

  lemma InRange(p: int)
    requires p <= 0x7FFF
    ensures Segment(p) < 8
  {
  }

  lemma ACodeBack(c: code)
    ensures var a := c ^ 0x55;
            (a & 0x7f) ^ (if a & SIGN_BIT != 0 then 0xD5 else 0x55) == c
  {
  }

  lemma ADecodeBits(c: code) returns (n: nat)
    ensures n < 128 && n as code == (c ^ 0x55) & 0x7f
    ensures ALawDecode(c) == if (c ^ 0x55) & SIGN_BIT != 0 then ALawLevel(n) else -(ALawLevel(n) as int)
  {
    SevenBitsBack(c ^ 0x55);
    hide ALawLevel, SevenBits;
    n := SevenBits(c ^ 0x55);
  }

  /** Every code comes back after decoding and encoding. */
  lemma ALawCodes(c: code)
    ensures ALawEncode(ALawDecode(c)) == c
  {
    var n := ADecodeBits(c);
    ACodeBack(c);
    ALawEncodeLevel(n, (c ^ 0x55) & SIGN_BIT != 0);
  }

  // ---------------------------------------------------------------- buffers

  function Map<S, T>(f: S -> T, s: seq<S>): (r: seq<T>)
    ensures |r| == |s| && forall i :: 0 <= i < |s| ==> r[i] == f(s[i])
  {
    seq(|s|, i requires 0 <= i < |s| => f(s[i]))
  }

  /** Conversion to a 16-bit short. */
  function Short(x: int): int {
    (x + 32768) % 65536 - 32768
  }

  /** Decoded samples fit a short, so the conversion changes nothing. */
  lemma ULawFits(c: code)
    ensures Magnitude(ULawDecode(c)) <= 32124 && Short(ULawDecode(c)) == ULawDecode(c)
  {
    var n := UDecodeBits(c);
    ULawLevelBits(n);
    ShortKeeps(ULawDecode(c));
  }

  lemma ShortKeeps(x: int)
    requires -32768 <= x <= 32767
    ensures Short(x) == x
  {
  }

  lemma ALawFits(c: code)
    ensures 0 < Magnitude(ALawDecode(c)) <= 32256 && Short(ALawDecode(c)) == ALawDecode(c)
  {
    var n := ADecodeBits(c);
    ALawLevelRange(n);
    hide ALawLevel, ALawDecode;
    ShortKeeps(ALawDecode(c));
  }

  lemma ALawLevelRange(n: nat)
    requires n < 128
    ensures 0 < ALawLevel(n) <= 32256
  {
    var s := n / 16;
    if s == 2 {} else if s == 3 {} else if s == 4 {} else if s == 5 {} else if s == 6 {} else {}
  }

  method G711aDecode(amp: array<int>, data: array<code>, bytes: nat) returns (r: int)
    requires bytes <= data.Length && bytes <= amp.Length && amp as object != data as object
    modifies amp
    ensures amp[..bytes] == Map(ALawDecode, data[..bytes]) && amp[bytes..] == old(amp[bytes..])
    ensures r == 2 * bytes
  {
    var i, samples := 0, 0;
    while i < bytes
      invariant 0 <= i == samples <= bytes
      invariant forall j :: 0 <= j < i ==> amp[j] == ALawDecode(data[j])
      invariant amp[bytes..] == old(amp[bytes..])
    {
      ALawFits(data[i]);
      amp[samples] := Short(ALawDecode(data[i]));
      i, samples := i + 1, samples + 1;
    }
    return samples * 2;
  }

  method G711uDecode(amp: array<int>, data: array<code>, bytes: nat) returns (r: int)
    requires bytes <= data.Length && bytes <= amp.Length && amp as object != data as object
    modifies amp
    ensures amp[..bytes] == Map(ULawDecode, data[..bytes]) && amp[bytes..] == old(amp[bytes..])
    ensures r == 2 * bytes
  {
    var i, samples := 0, 0;
    while i < bytes
      invariant 0 <= i == samples <= bytes
      invariant forall j :: 0 <= j < i ==> amp[j] == ULawDecode(data[j])
      invariant amp[bytes..] == old(amp[bytes..])
    {
      ULawFits(data[i]);
      amp[samples] := Short(ULawDecode(data[i]));
      i, samples := i + 1, samples + 1;
    }
    return samples * 2;
  }

  method G711aEncode(data: array<code>, amp: array<int>, len: nat) returns (r: int)
    requires len <= data.Length && len <= amp.Length && amp as object != data as object
    modifies data
    ensures data[..len] == Map(ALawEncode, amp[..len]) && data[len..] == old(data[len..])
    ensures r == len
  {
    for i := 0 to len
      invariant forall j :: 0 <= j < i ==> data[j] == ALawEncode(amp[j])
      invariant data[len..] == old(data[len..])
    {
      data[i] := Linear2ALaw(amp[i]);
    }
    return len;
  }

  method G711uEncode(data: array<code>, amp: array<int>, len: nat) returns (r: int)
    requires len <= data.Length && len <= amp.Length && amp as object != data as object
    modifies data
    ensures data[..len] == Map(ULawEncode, amp[..len]) && data[len..] == old(data[len..])
    ensures r == len
  {
    for i := 0 to len
      invariant forall j :: 0 <= j < i ==> data[j] == ULawEncode(amp[j])
      invariant data[len..] == old(data[len..])
    {
      data[i] := Linear2ULaw(amp[i]);
    }
    return len;
  }

  /** Whole A-law buffers survive decoding and encoding unchanged. */
  lemma ALawBuffers(codes: seq<code>)
    ensures Map(ALawEncode, Map(ALawDecode, codes)) == codes
  {
    forall i | 0 <= i < |codes| ensures ALawEncode(ALawDecode(codes[i])) == codes[i] {
      ALawCodes(codes[i]);
    }
  }

  /** A u-law buffer survives decoding and encoding unchanged exactly when it holds no 0x7F. */
  lemma ULawBuffers(codes: seq<code>)
    ensures Map(ULawEncode, Map(ULawDecode, codes)) == codes <==> 0x7F !in codes
  {
    var back := Map(ULawEncode, Map(ULawDecode, codes));
    forall i | 0 <= i < |codes| ensures back[i] == if codes[i] == 0x7F then 0xFF else codes[i] {
      ULawCodes(codes[i]);
    }
    if 0x7F in codes {
      var i :| 0 <= i < |codes| && codes[i] == 0x7F;
      assert back[i] != codes[i];
    }
  }

  /** Samples that went through the u-law codec once go through it again unchanged. */
  lemma ULawSamplesSettle(samples: seq<int>)
    ensures var once := Map(ULawDecode, Map(ULawEncode, samples));
            Map(ULawDecode, Map(ULawEncode, once)) == once
  {
    forall i | 0 <= i < |samples|
      ensures ULawDecode(ULawEncode(ULawDecode(ULawEncode(samples[i])))) == ULawDecode(ULawEncode(samples[i]))
    {
      ULawIdempotent(samples[i]);
    }
  }
}
