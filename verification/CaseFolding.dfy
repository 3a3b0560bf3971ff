/** The C library's comparison without regard to case, shared by the header search and the digest table. */
module CaseFolding {

  function ToLower(c: char): char {
    if 'A' <= c <= 'Z' then c - 'A' + 'a' else c
  }

  function Lower(s: string): (r: string)
    ensures |r| == |s| && forall i :: 0 <= i < |s| ==> r[i] == ToLower(s[i])
  {
    seq(|s|, i requires 0 <= i < |s| => ToLower(s[i]))
  }

  /** A capital of ASCII and its small letter, 32 places apart. */
  predicate CapitalOf(c: char, x: char) {
    65 <= c as int <= 90 && x as int == c as int + 32
  }

  /** The same character, or the same letter in another case. */
  predicate SameLetter(c: char, d: char) {
    c == d || CapitalOf(c, d) || CapitalOf(d, c)
  }

  /** Character by character the same but for case. */
  ghost predicate SameLetters(a: string, b: string) {
    |a| == |b| && forall i :: 0 <= i < |a| ==> SameLetter(a[i], b[i])
  }

  lemma LowerLetters(c: char, d: char)
    ensures ToLower(c) == ToLower(d) <==> SameLetter(c, d)
  {
  }

  /** Two strings have the same lower-case form exactly when they differ in nothing but the case of letters. */
  lemma LowerSame(a: string, b: string)
    ensures Lower(a) == Lower(b) <==> SameLetters(a, b)
  {
    if Lower(a) == Lower(b) {
      assert |Lower(a)| == |Lower(b)|;
      forall i | 0 <= i < |a| ensures SameLetter(a[i], b[i]) {
        assert Lower(a)[i] == Lower(b)[i];
        LowerLetters(a[i], b[i]);
      }
    }
    if SameLetters(a, b) {
      forall i | 0 <= i < |a| ensures Lower(a)[i] == Lower(b)[i] {
        LowerLetters(a[i], b[i]);
      }
    }
  }

  /** A word without capitals is its own lower-case form. */
  ghost predicate NoCapitals(s: string) {
    forall i :: 0 <= i < |s| ==> !(65 <= s[i] as int <= 90)
  }

  lemma LowerStays(s: string)
    requires NoCapitals(s)
    ensures Lower(s) == s
  {
    forall i | 0 <= i < |s| ensures Lower(s)[i] == s[i] {
    }
  }
}
