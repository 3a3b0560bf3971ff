/** The two companding laws in the numbers of ITU-T G.711, code by code and sample by sample. */
module G711Tables {
  import opened G711
  import opened Sequences

  const POWERS: seq<int> := [1, 2, 4, 8, 16, 32, 64, 128]

  lemma Powers(e: nat)
    requires e < 8
    ensures POWERS[e] == Pow2(e)
  {
  }

  lemma LowSeven(u: code)
    ensures (u & 0x7f) as int == u as int % 128
    ensures u & 0x80 != 0 <==> u as int >= 128
  {
  }

  lemma Inverted(c: code)
    ensures (!c) as int == 255 - c as int
  {
  }

  // ---------------------------------------------------------------- codes

  /** The sample of a u-law code: all bits inverted, a sign, three bits of segment and four of step. */
  function ULawSample(c: int): int
    requires 0 <= c < 256
  {
    var v := 255 - c;
    var magnitude := (v % 16 * 8 + 132) * POWERS[v / 16 % 8] - 132;
    if v >= 128 then -magnitude else magnitude
  }

  lemma ULawCodeTable(c: code)
    ensures ULawDecode(c) == ULawSample(c as int)
  {
    hide SevenBits, ULawLevel, ULawSample;
    Inverted(c);
    SignAndBits(!c);
    ULawSampleIs(c as int, SevenBits(!c));
  }

  lemma SignAndBits(u: code)
    ensures SevenBits(u) == u as int % 128 && (u & SIGN_BIT != 0 <==> u as int >= 128)
  {
    hide SevenBits;
    LowSeven(u);
    SevenBitsAre(u);
  }

  lemma ULawSampleIs(c: int, n: nat)
    requires 0 <= c < 256 && n == (255 - c) % 128
    ensures ULawSample(c) == if 255 - c >= 128 then BIAS - ULawLevel(n) else ULawLevel(n) - BIAS
  {
    hide ULawLevel;
    SegmentAndStep(255 - c);
    ULawLevelIs(n);
  }

  lemma ULawLevelIs(n: nat)
    requires n < 128
    ensures ULawLevel(n) == (n % 16 * 8 + 132) * POWERS[n / 16]
  {
    hide Pow2;
    Powers(n / 16);
  }

  lemma SegmentAndStep(v: int)
    requires 0 <= v < 256
    ensures v % 128 / 16 == v / 16 % 8 && v % 128 % 16 == v % 16
  {
    if v >= 128 {
      assert v % 128 == v - 128 && v / 16 == (v - 128) / 16 + 8;
    }
  }

  /** The sample of an A-law code whose even bits were inverted back: sign, segment and step. */
  function ALawSample(a: int): int
    requires 0 <= a < 256
  {
    var e, m := a / 16 % 8, a % 16;
    var magnitude := if e == 0 then m * 16 + 8 else (m * 16 + 264) * POWERS[e - 1];
    if a >= 128 then magnitude else -magnitude
  }

  lemma ALawCodeTable(c: code)
    ensures ALawDecode(c) == ALawSample((c ^ 0x55) as int)
  {
    hide SevenBits, ALawLevel, ALawSample;
    var a := c ^ 0x55;
    SignAndBits(a);
    ALawSampleIs(a as int, SevenBits(a));
  }

  lemma ALawSampleIs(a: int, n: nat)
    requires 0 <= a < 256 && n == a % 128
    ensures ALawSample(a) == if a >= 128 then ALawLevel(n) else -(ALawLevel(n) as int)
  {
    hide ALawLevel;
    SegmentAndStep(a);
    ALawLevelIs(n);
  }

  lemma ALawLevelIs(n: nat)
    requires n < 128
    ensures ALawLevel(n) == if n < 16 then n % 16 * 16 + 8 else (n % 16 * 16 + 264) * POWERS[n / 16 - 1]
  {
    if n >= 32 {
      hide Pow2;
      Powers(n / 16 - 1);
    }
  }

  // ---------------------------------------------------------------- samples

  /** The width of the step that a biased magnitude below 32768 lies in. */
  function Width(m: int): int {
    if m < 256 then 8 else if m < 512 then 16 else if m < 1024 then 32 else if m < 2048 then 64
    else if m < 4096 then 128 else if m < 8192 then 256 else if m < 16384 then 512 else 1024
  }

  lemma WidthIs(m: int)
    requires 0x80 <= m <= 0x7FFF
    ensures Segment(m) < 8 && Width(m) == Pow2(Segment(m) + 3)
  {
  }

  /** Any sample through the u-law codec: the middle of its step, the magnitude clipped at 32635. */
  lemma ULawRounds(x: int)
    ensures var m, d := (if x < 0 then -x else x) + 132, ULawDecode(ULawEncode(x));
            var r := (if m < 32768 then m / Width(m) * Width(m) + Width(m) / 2 else 32256) - 132;
            d == if x < 0 then -r else r
  {
    hide ULawEncode, ULawDecode, Segment, Pow2, Width;
    var m := Magnitude(x) + BIAS;
    ULawThere(x);
    if m < 32768 {
      WidthIs(m);
      ULawStepMiddle(m);
    } else {
      Clipped(m);
    }
  }

  lemma Clipped(m: nat)
    requires m >= 32768
    ensures ULawStep(m) == 32256
  {
  }

  /** The middle of the A-law step of a magnitude: steps of 16 below 512, wider ones from there on. */
  function ALawMiddle(p: int): int {
    if p < 512 then p / 16 * 16 + 8 else p / Width(p) * Width(p) + Width(p) / 2
  }

  /** Any 16-bit sample through the A-law codec, negative ones with the offset of eight. */
  lemma ALawRounds(x: int)
    requires -32768 <= x <= 32767
    ensures var d := ALawDecode(ALawEncode(x));
            && (x >= 0 ==> d == ALawMiddle(x))
            && (-8 < x < 0 ==> d == -248)
            && (x <= -8 ==> d == -ALawMiddle(-x - 8))
  {
    if -8 < x < 0 {
      ALawErrorNegative(x);
    } else {
      var p := if x >= 0 then x else -x - 8;
      ALawThere(x);
      ALawMiddleIs(p);
      hide ALawEncode, ALawDecode, Segment, ALawMiddle;
    }
  }

  lemma ALawMiddleIs(p: nat)
    requires p <= 0x7FFF
    ensures Segment(p) < 8 && ALawStep(p) == ALawMiddle(p)
  {
    InRange(p);
    if p < 512 {
      ALawStepLow(p);
    } else {
      WidthIs(p);
      ALawStepHigh(p);
    }
  }
}
