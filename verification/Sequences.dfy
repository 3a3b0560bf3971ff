/** Bytes, flattening and in-place copying, shared by the other modules. */
module Sequences {

  type byte = bv8

  lemma ByteOfInt(n: nat)
    requires n < 256
    ensures (n as byte) as int == n
  {
    assert n % 256 == n;
  }

  /** The parts written one after the other. */
  function Flatten<T>(parts: seq<seq<T>>): seq<T> {
    if parts == [] then [] else parts[0] + Flatten(parts[1..])
  }

  lemma {:induction false} FlattenAppend<T>(xs: seq<seq<T>>, ys: seq<seq<T>>)
    ensures Flatten(xs + ys) == Flatten(xs) + Flatten(ys)
  {
    if xs == [] {
      assert xs + ys == ys;
    } else {
      assert (xs + ys)[1..] == xs[1..] + ys;
      FlattenAppend(xs[1..], ys);
    }
  }

  lemma FlattenOne<T>(x: seq<T>)
    ensures Flatten([x]) == x
  {
    assert [x][1..] == [];
  }

  lemma ConcatAssociative<T>(a: seq<T>, b: seq<T>, c: seq<T>)
    ensures (a + b) + c == a + (b + c)
  {
  }

  lemma SplitOfConcat<T>(a: seq<T>, b: seq<T>, j: nat)
    requires j <= |a|
    ensures (a + b)[..j] == a[..j] && (a + b)[j..] == a[j..] + b
  {
  }

  lemma PrefixGrows<T>(s: seq<T>, i: nat)
    requires i < |s|
    ensures s[..i + 1] == s[..i] + [s[i]]
  {
  }

  lemma ArraySlice<T>(a: array<T>, i: nat, j: nat)
    requires i <= j <= a.Length
    ensures a[i..j] == a[..][i..j]
  {
  }

  lemma SliceOfSlice<T>(a: array<T>, i: nat, p: nat, q: nat, k: nat)
    requires i <= p <= q <= k <= a.Length
    ensures a[i..k][p - i..q - i] == a[p..q]
  {
    var s, t := a[i..k][p - i..q - i], a[p..q];
    assert forall n :: 0 <= n < q - p ==> s[n] == t[n];
  }

  lemma FrontOfSlice<T>(a: array<T>, i: nat, q: nat, k: nat)
    requires i <= q <= k <= a.Length
    ensures a[i..k][..q - i] == a[i..q]
  {
  }

  lemma FrontOfFront<T>(a: array<T>, i: nat, j: nat)
    requires i <= j <= a.Length
    ensures a[..j][..i] == a[..i]
  {
  }

  lemma FrontAndMiddle<T>(a: array<T>, i: nat, j: nat)
    requires i <= j <= a.Length
    ensures a[..j] == a[..i] + a[i..j]
  {
  }

  lemma FrontOfConcat<T>(a: seq<T>, b: seq<T>, n: nat)
    requires n <= |b|
    ensures (a + b[..n])[..n] == (a + b)[..n]
  {
  }

  /** memcpy and memmove: every byte is read before any is written. */
  method CopyInto<T>(dst: array<T>, at: nat, src: array<T>, from: nat, n: nat)
    requires at + n <= dst.Length && from + n <= src.Length
    modifies dst
    ensures dst[..at] == old(dst[..at])
    ensures dst[at..at + n] == old(src[from..from + n])
    ensures dst[at + n..] == old(dst[at + n..])
  {
    forall k | 0 <= k < n {
      dst[at + k] := src[from + k];
    }
  }
}
