/** Codecs that map blocks of three to blocks of four, whatever the mapping: the shape base64 has. */
module BlockCodec {
  import opened Sequences

  function Enc<S, T>(f: seq<S> -> seq<T>, last: seq<S> -> seq<T>, s: seq<S>): seq<T>
    decreases |s|
  {
    if |s| >= 3 then f(s[..3]) + Enc(f, last, s[3..]) else last(s)
  }

  function Dec<S, T>(g: seq<T> -> seq<S>, tail: seq<T> -> seq<S>, t: seq<T>): seq<S>
    decreases |t|
  {
    if |t| >= 4 then g(t[..4]) + Dec(g, tail, t[4..]) else tail(t)
  }

  /** How much of a string of length n are full blocks of three. */
  function Full(n: nat): (m: nat)
    ensures m <= n < m + 3
  {
    n / 3 * 3
  }

  lemma {:induction false} Blocks<S, T>(f: seq<S> -> seq<T>, last: seq<S> -> seq<T>,
                                        g: seq<T> -> seq<S>, tail: seq<T> -> seq<S>, s: seq<S>)
    requires forall x: seq<S> {:trigger f(x)} :: |x| == 3 ==> |f(x)| == 4 && g(f(x)) == x
    ensures Dec(g, tail, Enc(f, last, s)) == s[..Full(|s|)] + Dec(g, tail, last(s[Full(|s|)..]))
    decreases |s|
  {
    if |s| >= 3 {
      var x, e := s[..3], Enc(f, last, s[3..]);
      Blocks(f, last, g, tail, s[3..]);
      assert |f(x)| == 4 && (f(x) + e)[..4] == f(x) && (f(x) + e)[4..] == e;
      var m := Full(|s| - 3);
      assert s[3..][m..] == s[Full(|s|)..];
      assert s[..Full(|s|)] == x + s[3..][..m];
      ConcatAssociative(x, s[3..][..m], Dec(g, tail, last(s[Full(|s|)..])));
    } else {
      assert s[0..] == s;
    }
  }

  /** How far a string of length n is from full blocks. */
  function Padding(n: nat): nat {
    (3 - n % 3) % 3
  }

  /** The last, incomplete block x comes back with padding behind it, and then one element z. */
  ghost predicate LastComesBack<S(!new), T>(last: seq<S> -> seq<T>, g: seq<T> -> seq<S>, tail: seq<T> -> seq<S>,
                                            z: S, x: seq<S>)
  {
    var d := Dec(g, tail, last(x));
    x <= d && |d| == |x| + Padding(|x|) + 1 && (x == [] ==> d == [z])
  }

  lemma Lengths(n: nat)
    ensures var m := Full(n);
            && m + ((n - m) + Padding(n - m) + 1) == 3 * ((n + 2) / 3) + 1
            && (m == n <==> n % 3 == 0)
            && (m < n ==> Padding(n - m) > 0)
  {
  }

  /** Full blocks in front, and what the last block d turned into. */
  lemma FrontAndBack<S>(s: seq<S>, d: seq<S>, z: S)
    requires var x := s[Full(|s|)..]; x <= d && |d| == |x| + Padding(|x|) + 1 && (x == [] ==> d == [z])
    ensures var all := s[..Full(|s|)] + d;
            && s <= all && |all| == 3 * ((|s| + 2) / 3) + 1
            && (all == s + [z] <==> |s| % 3 == 0)
  {
    var m := Full(|s|);
    Lengths(|s|);
    assert s == s[..m] + s[m..];
  }

  lemma EncStep<S, T>(f: seq<S> -> seq<T>, last: seq<S> -> seq<T>, s: seq<S>, i: nat, done: seq<T>)
    requires i + 3 <= |s|
    ensures Enc(f, last, s[i..]) == f(s[i..i + 3]) + Enc(f, last, s[i + 3..])
    ensures done + Enc(f, last, s[i..]) == (done + f(s[i..i + 3])) + Enc(f, last, s[i + 3..])
  {
    assert s[i..][3..] == s[i + 3..] && s[i..][..3] == s[i..i + 3];
    ConcatAssociative(done, f(s[i..i + 3]), Enc(f, last, s[i + 3..]));
  }

  lemma DecStep<S, T>(g: seq<T> -> seq<S>, tail: seq<T> -> seq<S>, t: seq<T>, i: nat, done: seq<S>)
    requires i + 4 <= |t|
    ensures Dec(g, tail, t[i..]) == g(t[i..i + 4]) + Dec(g, tail, t[i + 4..])
    ensures done + Dec(g, tail, t[i..]) == (done + g(t[i..i + 4])) + Dec(g, tail, t[i + 4..])
  {
    assert t[i..][4..] == t[i + 4..] && t[i..][..4] == t[i..i + 4];
    ConcatAssociative(done, g(t[i..i + 4]), Dec(g, tail, t[i + 4..]));
  }
}
