/** SRV records: the bubble sort by priority and the failover rotation. */
module SrvRecords {

  const MAX_ENTRIES: nat := 10

  datatype Entry = Entry(srv: string, priority: int, weight: int, rweight: int, port: int, ipaddress: string)

  // ---------------------------------------------------------------- what sorting means

  ghost predicate Sorted(s: seq<Entry>) {
    forall i, j :: 0 <= i < j < |s| ==> s[i].priority <= s[j].priority
  }

  /** The entries of one priority, in their order. */
  function Pick(s: seq<Entry>, p: int): (r: seq<Entry>) {
    if s == [] then [] else (if s[0].priority == p then [s[0]] else []) + Pick(s[1..], p)
  }

  /** The same entries, those of equal priority in the same order. */
  ghost predicate SameStable(a: seq<Entry>, b: seq<Entry>) {
    forall p :: Pick(a, p) == Pick(b, p)
  }

  lemma {:induction false} PickHasOnly(s: seq<Entry>, p: int)
    ensures forall x :: x in Pick(s, p) ==> x in s && x.priority == p
    ensures forall x :: x in s && x.priority == p ==> x in Pick(s, p)
  {
    if s != [] {
      PickHasOnly(s[1..], p);
      assert s == [s[0]] + s[1..];
    }
  }

  lemma {:induction false} PickCount(s: seq<Entry>, x: Entry)
    ensures multiset(Pick(s, x.priority))[x] == multiset(s)[x]
  {
    if s != [] {
      PickCount(s[1..], x);
      assert s == [s[0]] + s[1..];
    }
  }

  /** Stable rearrangements are permutations. */
  lemma StableIsPermutation(a: seq<Entry>, b: seq<Entry>)
    requires SameStable(a, b)
    ensures multiset(a) == multiset(b)
  {
    forall x ensures multiset(a)[x] == multiset(b)[x] {
      PickCount(a, x);
      PickCount(b, x);
      assert Pick(a, x.priority) == Pick(b, x.priority);
    }
  }

  lemma PickTail(s: seq<Entry>, p: int)
    requires s != []
    ensures s[0].priority == p ==> Pick(s, p) != [] && Pick(s[1..], p) == Pick(s, p)[1..]
    ensures s[0].priority != p ==> Pick(s[1..], p) == Pick(s, p)
  {
  }

  lemma SameHead(a: seq<Entry>, b: seq<Entry>)
    requires Sorted(a) && Sorted(b) && SameStable(a, b) && a != []
    ensures b != [] && a[0] == b[0] && SameStable(a[1..], b[1..])
  {
    var m := a[0].priority;
    PickHasOnly(b, m);
    assert a[0] in Pick(a, m) && Pick(a, m) == Pick(b, m);
    assert b != [];
    PickHasOnly(a, b[0].priority);
    assert b[0] in Pick(b, b[0].priority) && Pick(a, b[0].priority) == Pick(b, b[0].priority);
    assert b[0].priority == m;
    assert Pick(a, m)[0] == a[0] && Pick(b, m)[0] == b[0];
    forall p ensures Pick(a[1..], p) == Pick(b[1..], p) {
      assert Pick(a, p) == Pick(b, p);
      PickTail(a, p);
      PickTail(b, p);
    }
  }

  /** There is only one stable sorted arrangement. */
  lemma {:induction false} StableSortUnique(a: seq<Entry>, b: seq<Entry>)
    requires Sorted(a) && Sorted(b) && SameStable(a, b)
    ensures a == b
  {
    if a != [] {
      SameHead(a, b);
      StableSortUnique(a[1..], b[1..]);
      assert a == [a[0]] + a[1..] && b == [b[0]] + b[1..];
    } else {
      StableIsPermutation(a, b);
      assert |multiset(b)| == |b|;
    }
  }

  // ---------------------------------------------------------------- inversions

  function Below(s: seq<Entry>, p: int): nat {
    if s == [] then 0 else (if s[0].priority < p then 1 else 0) + Below(s[1..], p)
  }

  /** Pairs in the wrong order. */
  function Inversions(s: seq<Entry>): nat {
    if s == [] then 0 else Below(s[1..], s[0].priority) + Inversions(s[1..])
  }

  function Swapped(s: seq<Entry>, i: nat): (r: seq<Entry>)
    requires i + 1 < |s|
    ensures |r| == |s|
  {
    s[i := s[i + 1]][i + 1 := s[i]]
  }

  lemma SwappedTail(s: seq<Entry>, i: nat)
    requires 0 < i && i + 1 < |s|
    ensures Swapped(s, i)[0] == s[0] && Swapped(s, i)[1..] == Swapped(s[1..], i - 1)
  {
  }

  lemma SwappedFront(s: seq<Entry>)
    requires 1 < |s|
    ensures Swapped(s, 0)[0] == s[1] && Swapped(s, 0)[1..] == [s[0]] + s[2..] && s[1..] == [s[1]] + s[2..]
  {
  }

  lemma {:induction false} BelowSwapped(s: seq<Entry>, i: nat, p: int)
    requires i + 1 < |s|
    ensures Below(Swapped(s, i), p) == Below(s, p)
    decreases i
  {
    if i == 0 {
      SwappedFront(s);
    } else {
      SwappedTail(s, i);
      BelowSwapped(s[1..], i - 1, p);
    }
  }

  /** Each swap removes exactly one inversion. */
  lemma {:induction false} SwapLowersInversions(s: seq<Entry>, i: nat)
    requires i + 1 < |s| && s[i].priority > s[i + 1].priority
    ensures Inversions(Swapped(s, i)) == Inversions(s) - 1
    decreases i
  {
    if i == 0 {
      SwappedFront(s);
    } else {
      SwappedTail(s, i);
      BelowSwapped(s[1..], i - 1, s[0].priority);
      SwapLowersInversions(s[1..], i - 1);
    }
  }

  lemma {:induction false} SwapKeepsPick(s: seq<Entry>, i: nat, p: int)
    requires i + 1 < |s| && s[i].priority != s[i + 1].priority
    ensures Pick(Swapped(s, i), p) == Pick(s, p)
    decreases i
  {
    if i == 0 {
      SwappedFront(s);
    } else {
      SwappedTail(s, i);
      SwapKeepsPick(s[1..], i - 1, p);
    }
  }

  lemma {:induction false} AdjacentSorted(s: seq<Entry>)
    requires forall i :: 0 <= i < |s| - 1 ==> s[i].priority <= s[i + 1].priority
    ensures Sorted(s)
  {
    if |s| > 1 {
      AdjacentSorted(s[1..]);
      forall j | 0 < j < |s| ensures s[0].priority <= s[j].priority {
        assert s[1].priority <= s[j].priority by {
          if j > 1 {
            assert s[1..][0].priority <= s[1..][j - 1].priority;
          }
        }
      }
    }
  }

  // ---------------------------------------------------------------- the record

  lemma SwapIsStable(s: seq<Entry>, i: nat)
    requires i + 1 < |s| && s[i].priority != s[i + 1].priority
    ensures SameStable(Swapped(s, i), s)
  {
    hide Pick, Swapped;
    forall p ensures Pick(Swapped(s, i), p) == Pick(s, p) {
      SwapKeepsPick(s, i, p);
    }
  }

  class SrvRecord {
    const srventry: array<Entry>
    var index: nat

    constructor (entries: seq<Entry>)
      requires |entries| == MAX_ENTRIES
      ensures fresh(srventry) && srventry[..] == entries && index == 0
    {
      srventry := new Entry[MAX_ENTRIES](i requires 0 <= i < MAX_ENTRIES => entries[i]);
      index := 0;
      new;
      assert srventry[..] == entries;
    }

    method Swap(i: nat, n: nat)
      requires i + 1 < n <= srventry.Length
      modifies srventry
      ensures srventry[..n] == Swapped(old(srventry[..n]), i) && srventry[n..] == old(srventry[n..])
    {
      srventry[i], srventry[i + 1] := srventry[i + 1], srventry[i];
    }

    /** One pass over neighbours: every swap removes an inversion. */
    method Pass(n: nat) returns (permuts: nat)
      requires n <= srventry.Length
      modifies srventry
      ensures SameStable(srventry[..n], old(srventry[..n])) && srventry[n..] == old(srventry[n..])
      ensures Inversions(srventry[..n]) + permuts == Inversions(old(srventry[..n]))
      ensures permuts == 0 ==> srventry[..n] == old(srventry[..n]) && Sorted(srventry[..n])
    {
      permuts := 0;
      var i := 0;
      while i < n - 1
        invariant 0 <= i <= n && (n > 0 ==> i <= n - 1)
        invariant SameStable(srventry[..n], old(srventry[..n])) && srventry[n..] == old(srventry[n..])
        invariant Inversions(srventry[..n]) + permuts == Inversions(old(srventry[..n]))
        invariant permuts == 0 ==>
                    && srventry[..n] == old(srventry[..n])
                    && forall j :: 0 <= j < i ==> srventry[..n][j].priority <= srventry[..n][j + 1].priority
      {
        if srventry[i].priority > srventry[i + 1].priority {
          SwapLowersInversions(srventry[..n], i);
          SwapIsStable(srventry[..n], i);
          Swap(i, n);
          permuts := permuts + 1;
        }
        i := i + 1;
      }
      if permuts == 0 {
        AdjacentSorted(srventry[..n]);
      }
    }

    /** Sorts the first n entries by priority, those of equal priority in their old order. */
    method Sort(n: nat)
      requires n <= srventry.Length
      modifies srventry
      ensures Sorted(srventry[..n]) && SameStable(srventry[..n], old(srventry[..n]))
      ensures srventry[n..] == old(srventry[n..])
    {
      while true
        invariant SameStable(srventry[..n], old(srventry[..n])) && srventry[n..] == old(srventry[n..])
        decreases Inversions(srventry[..n])
      {
        ghost var s := srventry[..n];
        var permuts := Pass(n);
        assert forall p :: Pick(srventry[..n], p) == Pick(s, p) == Pick(old(srventry[..n]), p);
        if permuts == 0 {
          return;
        }
      }
    }

    /** Moves to the next entry; the result is the number of entries behind the first, or -1 for none. */
    method Rotate() returns (r: int)
      requires srventry.Length == MAX_ENTRIES
      requires srventry[0].srv != "" ==> index + 1 < MAX_ENTRIES
      modifies this`index
      ensures srventry[0].srv == "" ==> r == -1 && index == old(index)
      ensures srventry[0].srv != "" ==>
                && index == (if srventry[old(index) + 1].srv == "" then 0 else old(index) + 1)
                && 0 <= r < MAX_ENTRIES && (forall j :: 1 <= j <= r ==> srventry[j].srv != "")
                && (r + 1 < MAX_ENTRIES ==> srventry[r + 1].srv == "")
      ensures forall k :: 1 <= k < MAX_ENTRIES && Contiguous(srventry[..], k) && old(index) < k ==>
                index == NextOf(old(index), k) && r == k - 1
    {
      if srventry[0].srv == "" {
        return -1;
      }
      index := index + 1;
      if srventry[index].srv == "" {
        index := 0;
      }
      var n := 1;
      while n < 10 && srventry[n].srv != ""
        invariant 1 <= n <= 10
        invariant forall j :: 1 <= j < n ==> srventry[..][j].srv != ""
      {
        n := n + 1;
      }
      assert n < 10 ==> srventry[..][n].srv == "";
      return n - 1;
    }

    /** Failovers in a row; `visited` are the entries they lead to. */
    method RotateTimes(times: nat, ghost k: nat) returns (visited: seq<Entry>)
      requires srventry.Length == MAX_ENTRIES && 1 <= k < MAX_ENTRIES && Contiguous(srventry[..], k) && index < k
      modifies this`index
      ensures index == After(old(index), times, k)
      ensures |visited| == times
      ensures forall j :: 0 <= j < times ==> visited[j] == srventry[After(old(index), j + 1, k)]
    {
      visited := [];
      while |visited| < times
        invariant |visited| <= times && index == After(old(index), |visited|, k)
        invariant forall j :: 0 <= j < |visited| ==> visited[j] == srventry[After(old(index), j + 1, k)]
      {
        assert srventry[..][0].srv != "";
        var r := Rotate();
        assert index == After(old(index), |visited| + 1, k);
        visited := visited + [srventry[index]];
      }
    }

    /**
     * A record whose k entries were sorted when it was filled, and the entries then used with failover after failover:
     * by rising priority, those of equal priority in their order, and again from the first after each k.
     */
    method SortAndFailOver(k: nat, times: nat) returns (used: seq<Entry>)
      requires srventry.Length == MAX_ENTRIES && 1 <= k < MAX_ENTRIES && Contiguous(srventry[..], k) && index == 0
      modifies this`index, srventry
      ensures Sorted(srventry[..k]) && SameStable(srventry[..k], old(srventry[..k]))
      ensures srventry[k..] == old(srventry[k..])
      ensures |used| == times + 1 && index == times % k
      ensures forall j :: 0 <= j <= times ==> used[j] == srventry[j % k]
    {
      ghost var s := srventry[..];
      assert s[..k] == srventry[..k] && s[k..] == srventry[k..];
      Sort(k);
      ghost var t := srventry[..];
      assert t[..k] == srventry[..k] && t[k..] == srventry[k..];
      StillContiguous(s, t, k);
      var first := srventry[index];
      var visited := RotateTimes(times, k);
      used := [first] + visited;
      AfterWraps(times, k);
      forall j | 0 <= j <= times ensures used[j] == srventry[j % k] {
        AfterWraps(j, k);
      }
    }
  }

  lemma StillContiguous(s: seq<Entry>, t: seq<Entry>, k: nat)
    requires Contiguous(s, k) && |t| == |s| && SameStable(t[..k], s[..k]) && t[k..] == s[k..]
    ensures Contiguous(t, k)
  {
    StableIsPermutation(t[..k], s[..k]);
    forall j | 0 <= j < k ensures t[j].srv != "" {
      assert t[..k][j] in multiset(t[..k]);
      assert t[..k][j] in s[..k];
    }
    assert t[k..][0] == s[k..][0];
  }

  /** The first k entries are filled, and the one behind them is not. */
  ghost predicate Contiguous(s: seq<Entry>, k: nat) {
    k < |s| && (forall j :: 0 <= j < k ==> s[j].srv != "") && s[k].srv == ""
  }

  function NextOf(i: nat, k: nat): (r: nat)
    requires i < k
    ensures r < k
  {
    if i + 1 == k then 0 else i + 1
  }

  /** The index after some failovers. */
  function After(i: nat, times: nat, k: nat): (r: nat)
    requires i < k
    ensures r < k
    decreases times
  {
    if times == 0 then i else NextOf(After(i, times - 1, k), k)
  }

  lemma {:induction false} AfterAdds(i: nat, a: nat, b: nat, k: nat)
    requires i < k
    ensures After(i, a + b, k) == After(After(i, a, k), b, k)
    decreases b
  {
    if b > 0 {
      AfterAdds(i, a, b - 1, k);
    }
  }

  lemma {:induction false} AfterStraight(i: nat, a: nat, k: nat)
    requires i + a < k
    ensures After(i, a, k) == i + a
    decreases a
  {
    if a > 0 {
      AfterStraight(i, a - 1, k);
    }
  }

  /**
   * Failovers visit the entries in order of their places, and come back after as many as there are entries, not
   * before.
   */
  lemma RotationPeriod(i: nat, a: nat, k: nat)
    requires i < k && a <= k
    ensures After(i, a, k) == if i + a < k then i + a else i + a - k
    ensures 0 < a ==> (After(i, a, k) == i <==> a == k)
  {
    if i + a < k {
      AfterStraight(i, a, k);
    } else {
      AfterStraight(i, k - 1 - i, k);
      assert After(i, k - i, k) == 0;
      AfterAdds(i, k - i, a - (k - i), k);
      AfterStraight(0, a - (k - i), k);
    }
  }

  lemma NextRemainder(j: nat, k: nat)
    requires 0 < k
    ensures (j + 1) % k == if j % k + 1 == k then 0 else j % k + 1
  {
    var q, r := j / k, j % k;
    assert j == q * k + r;
    if r + 1 == k {
      assert j + 1 == (q + 1) * k + 0;
      Remainder(j + 1, q + 1, 0, k);
    } else {
      Remainder(j + 1, q, r + 1, k);
    }
  }

  lemma Remainder(n: nat, q: nat, r: nat, k: nat)
    requires r < k && n == q * k + r
    ensures n % k == r
  {
    var d := n / k;
    assert n == d * k + n % k;
    assert d < q ==> (d + 1) * k <= q * k;
    assert q < d ==> (q + 1) * k <= d * k;
    assert d == q;
  }

  lemma {:induction false} AfterWraps(j: nat, k: nat)
    requires 0 < k
    ensures After(0, j, k) == j % k
  {
    if j == 0 {
      Remainder(0, 0, 0, k);
    } else {
      AfterWraps(j - 1, k);
      NextRemainder(j - 1, k);
    }
  }

  /** After sorting, one round of failovers from the first entry visits every entry once, by rising priority. */
  lemma RoundByPriority(s: seq<Entry>, k: nat)
    requires 1 <= k <= |s| && Sorted(s[..k])
    ensures forall j :: 0 <= j < k ==> After(0, j, k) == j
    ensures forall a, b :: 0 <= a <= b < k ==> s[After(0, a, k)].priority <= s[After(0, b, k)].priority
  {
    forall j | 0 <= j < k ensures After(0, j, k) == j {
      AfterStraight(0, j, k);
    }
    forall a, b | 0 <= a <= b < k ensures s[After(0, a, k)].priority <= s[After(0, b, k)].priority {
      if a < b {
        assert s[..k][a].priority <= s[..k][b].priority;
      }
    }
  }
}
