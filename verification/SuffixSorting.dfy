/** Suffix sorting by prefix doubling, and the search for a longest match in the sorted suffixes. */
module SuffixSorting {
  import opened RangeCoding
  import opened FrequencyCodes

  // --- Lexicographic order ---

  predicate Less(a: seq<Byte>, b: seq<Byte>) {
    |b| > 0 && (|a| == 0 || a[0] < b[0] || (a[0] == b[0] && Less(a[1..], b[1..])))
  }

  lemma {:induction false} LessTotal(a: seq<Byte>, b: seq<Byte>)
    ensures Less(a, b) || a == b || Less(b, a)
    ensures !(Less(a, b) && (Less(b, a) || a == b))
  {
    if |a| > 0 && |b| > 0 {
      LessTotal(a[1..], b[1..]);
      assert a == [a[0]] + a[1..] && b == [b[0]] + b[1..];
    }
  }

  lemma {:induction false} LessTransitive(a: seq<Byte>, b: seq<Byte>, c: seq<Byte>)
    requires Less(a, b) && Less(b, c)
    ensures Less(a, c)
  {
    if |a| > 0 && a[0] == b[0] == c[0] {
      LessTransitive(a[1..], b[1..], c[1..]);
    }
  }

  /** Where the fronts differ they decide; where they are equal the backs do. Only full fronts have backs. */
  lemma {:induction false} LessOfParts(a: seq<Byte>, c: seq<Byte>, b: seq<Byte>, d: seq<Byte>, k: nat)
    requires |a| <= k && |b| <= k && (|a| < k ==> c == []) && (|b| < k ==> d == [])
    ensures Less(a + c, b + d) <==> Less(a, b) || (a == b && Less(c, d))
    decreases k
  {
    if |a| == 0 {
      assert a + c == c;
      if |b| == 0 {
        assert b + d == d;
      } else if k > 0 {
        assert a + c == [];
      }
    } else if |b| == 0 {
      assert b + d == [];
    } else {
      assert (a + c)[1..] == a[1..] + c && (b + d)[1..] == b[1..] + d;
      LessOfParts(a[1..], c, b[1..], d, k - 1);
      assert a == [a[0]] + a[1..] && b == [b[0]] + b[1..];
    }
  }

  // --- Suffixes cut to k bytes ---

  function Cut(data: seq<Byte>, i: nat, k: nat): seq<Byte> {
    if i >= |data| then [] else if i + k <= |data| then data[i..i + k] else data[i..]
  }

  lemma {:induction false} CutDoubles(data: seq<Byte>, i: nat, k: nat)
    requires i < |data|
    ensures Cut(data, i, 2 * k) == Cut(data, i, k) + Cut(data, i + k, k)
    ensures |Cut(data, i, k)| <= k && (|Cut(data, i, k)| < k ==> Cut(data, i + k, k) == [])
  {
  }

  lemma {:induction false} CutWhole(data: seq<Byte>, i: nat, k: nat)
    requires i < |data| <= k
    ensures Cut(data, i, k) == data[i..]
  {
  }

  /** If the cuts differ, the suffixes are in the same order. */
  lemma {:induction false} CutDecides(data: seq<Byte>, i: nat, j: nat, k: nat)
    requires i < |data| && j < |data| && Less(Cut(data, i, k), Cut(data, j, k))
    ensures Less(data[i..], data[j..])
  {
    var a, b := Cut(data, i, k), Cut(data, j, k);
    var c := if i + k <= |data| then data[i + k..] else [];
    var d := if j + k <= |data| then data[j + k..] else [];
    assert a + c == data[i..] && b + d == data[j..];
    LessOfParts(a, c, b, d, k);
  }

  /** Ranks order the suffixes by their first `k` bytes. */
  ghost predicate RanksBy(data: seq<Byte>, rank: seq<nat>, k: nat) {
    |rank| == |data| && forall i, j :: 0 <= i < |data| && 0 <= j < |data| ==>
      (rank[i] < rank[j] <==> Less(Cut(data, i, k), Cut(data, j, k)))
  }

  /** The key of a suffix in one round: its rank, and the rank of the suffix `k` further, from 1; 0 beyond the end. */
  function Second(rank: seq<nat>, i: nat, k: nat): nat {
    if i + k < |rank| then rank[i + k] + 1 else 0
  }

  predicate KeyLess(rank: seq<nat>, k: nat, i: nat, j: nat)
    requires i < |rank| && j < |rank|
  {
    rank[i] < rank[j] || (rank[i] == rank[j] && Second(rank, i, k) < Second(rank, j, k))
  }

  /** Comparing keys is comparing twice as many bytes. */
  lemma {:induction false} KeysCompare(data: seq<Byte>, rank: seq<nat>, k: nat, i: nat, j: nat)
    requires RanksBy(data, rank, k) && k > 0 && i < |data| && j < |data|
    ensures KeyLess(rank, k, i, j) <==> Less(Cut(data, i, 2 * k), Cut(data, j, 2 * k))
  {
    hide Less;
    CutDoubles(data, i, k);
    CutDoubles(data, j, k);
    var a, b, c, d := Cut(data, i, k), Cut(data, j, k), Cut(data, i + k, k), Cut(data, j + k, k);
    LessOfParts(a, c, b, d, k);
    LessTotal(a, b);
    assert rank[i] == rank[j] <==> a == b;
    SecondsCompare(data, rank, k, i, j);
  }

  lemma {:induction false} SecondsCompare(data: seq<Byte>, rank: seq<nat>, k: nat, i: nat, j: nat)
    requires RanksBy(data, rank, k) && k > 0 && i < |data| && j < |data|
    ensures Second(rank, i, k) < Second(rank, j, k) <==> Less(Cut(data, i + k, k), Cut(data, j + k, k))
  {
  }

  // --- Sorting by key ---

  predicate Indices(sa: seq<nat>, n: nat) {
    forall x :: 0 <= x < |sa| ==> sa[x] < n
  }

  predicate SortedByKey(sa: seq<nat>, rank: seq<nat>, k: nat)
    requires Indices(sa, |rank|)
  {
    forall x, y :: 0 <= x < y < |sa| ==> !KeyLess(rank, k, sa[y], sa[x])
  }

  /** Stable insertion by key. */
  function InsertByKey(sa: seq<nat>, i: nat, rank: seq<nat>, k: nat): (r: seq<nat>)
    requires Indices(sa, |rank|) && i < |rank|
    ensures Indices(r, |rank|) && |r| == |sa| + 1 && multiset(r) == multiset(sa) + multiset{i}
  {
    if |sa| == 0 || !KeyLess(rank, k, i, sa[|sa| - 1]) then sa + [i]
    else
      assert sa == sa[..|sa| - 1] + [sa[|sa| - 1]];
      InsertByKey(sa[..|sa| - 1], i, rank, k) + [sa[|sa| - 1]]
  }

  function SortByKey(sa: seq<nat>, rank: seq<nat>, k: nat): (r: seq<nat>)
    requires Indices(sa, |rank|)
    ensures Indices(r, |rank|) && |r| == |sa| && multiset(r) == multiset(sa)
  {
    if |sa| == 0 then []
    else
      assert sa == sa[..|sa| - 1] + [sa[|sa| - 1]];
      InsertByKey(SortByKey(sa[..|sa| - 1], rank, k), sa[|sa| - 1], rank, k)
  }

  lemma {:induction false} InsertMembers(sa: seq<nat>, i: nat, rank: seq<nat>, k: nat)
    requires Indices(sa, |rank|) && i < |rank|
    ensures var r := InsertByKey(sa, i, rank, k); forall x :: 0 <= x < |r| ==> r[x] == i || r[x] in sa
  {
    var r := InsertByKey(sa, i, rank, k);
    forall x | 0 <= x < |r| ensures r[x] == i || r[x] in sa {
      assert r[x] in multiset(r);
    }
  }

  lemma {:induction false} InsertSortedByKey(sa: seq<nat>, i: nat, rank: seq<nat>, k: nat)
    requires Indices(sa, |rank|) && i < |rank| && SortedByKey(sa, rank, k)
    ensures SortedByKey(InsertByKey(sa, i, rank, k), rank, k)
  {
    hide Second;
    if |sa| > 0 && KeyLess(rank, k, i, sa[|sa| - 1]) {
      var front, last := sa[..|sa| - 1], sa[|sa| - 1];
      InsertSortedByKey(front, i, rank, k);
      InsertMembers(front, i, rank, k);
    }
  }

  lemma {:induction false} SortSortsByKey(sa: seq<nat>, rank: seq<nat>, k: nat)
    requires Indices(sa, |rank|)
    ensures SortedByKey(SortByKey(sa, rank, k), rank, k)
  {
    if |sa| > 0 {
      SortSortsByKey(sa[..|sa| - 1], rank, k);
      InsertSortedByKey(SortByKey(sa[..|sa| - 1], rank, k), sa[|sa| - 1], rank, k);
    }
  }

  // --- New ranks ---

  function Identity(n: nat): (r: seq<nat>)
    ensures |r| == n && forall i :: 0 <= i < n ==> r[i] == i
  {
    seq(n, i => i)
  }

  predicate Permutes(sa: seq<nat>, n: nat) {
    && |sa| == n && Indices(sa, n) && (forall x, y :: 0 <= x < y < n ==> sa[x] != sa[y])
    && forall i :: 0 <= i < n ==> i in sa
  }

  lemma {:induction false} IdentityCounts(n: nat, v: nat)
    ensures multiset(Identity(n))[v] == if v < n then 1 else 0
  {
    if n > 0 {
      IdentityCounts(n - 1, v);
      assert Identity(n) == Identity(n - 1) + [n - 1];
    }
  }

  lemma {:induction false} SamePermutes(sa: seq<nat>, n: nat)
    requires multiset(sa) == multiset(Identity(n)) && |sa| == n
    ensures Permutes(sa, n)
  {
    forall x | 0 <= x < |sa| ensures sa[x] < n {
      assert sa[x] in multiset(sa);
      IdentityCounts(n, sa[x]);
    }
    forall x, y | 0 <= x < y < n ensures sa[x] != sa[y] {
      CountedTwice(sa, x, y);
      IdentityCounts(n, sa[x]);
    }
    forall i | 0 <= i < n ensures i in sa {
      IdentityCounts(n, i);
      assert i in multiset(sa);
    }
  }

  predicate SameKey(rank: seq<nat>, k: nat, i: nat, j: nat)
    requires i < |rank| && j < |rank|
  {
    rank[i] == rank[j] && Second(rank, i, k) == Second(rank, j, k)
  }

  /** How many keys come before that of the suffix at `x`. */
  function Grade(sa: seq<nat>, rank: seq<nat>, k: nat, x: nat): (g: nat)
    requires Indices(sa, |rank|) && x < |sa|
    ensures g <= x
  {
    if x == 0 then 0 else Grade(sa, rank, k, x - 1) + if SameKey(rank, k, sa[x - 1], sa[x]) then 0 else 1
  }

  lemma {:induction false} GradeOrder(sa: seq<nat>, rank: seq<nat>, k: nat, x: nat, y: nat)
    requires Indices(sa, |rank|) && SortedByKey(sa, rank, k) && x <= y < |sa|
    ensures Grade(sa, rank, k, x) <= Grade(sa, rank, k, y)
    ensures Grade(sa, rank, k, x) < Grade(sa, rank, k, y) <==> KeyLess(rank, k, sa[x], sa[y])
    ensures Grade(sa, rank, k, y) - Grade(sa, rank, k, x) <= y - x
  {
    hide Second;
    if x < y {
      GradeOrder(sa, rank, k, x, y - 1);
      assert !KeyLess(rank, k, sa[y], sa[y - 1]) && !KeyLess(rank, k, sa[y], sa[x]);
    }
  }

  /** The test for equal keys as it is carried out. */
  predicate KeysEqual(rank: seq<nat>, k: nat, prev: nat, curr: nat)
    requires prev < |rank| && curr < |rank|
    ensures KeysEqual(rank, k, prev, curr) <==> SameKey(rank, k, prev, curr)
  {
    var n := |rank|;
    && rank[prev] == rank[curr]
    && ((prev + k >= n && curr + k >= n) || (prev + k < n && curr + k < n && rank[prev + k] == rank[curr + k]))
  }

  lemma {:induction false} GradeNext(sa: seq<nat>, rank: seq<nat>, k: nat, x: nat)
    requires Permutes(sa, |rank|) && x < |sa|
    ensures Indices(sa, |rank|) && |sa| == |rank| && forall y :: 0 <= y < x ==> sa[y] != sa[x]
    ensures x == 0 ==> Grade(sa, rank, k, 0) == 0
    ensures x > 0 ==>
              Grade(sa, rank, k, x) == Grade(sa, rank, k, x - 1) + if SameKey(rank, k, sa[x - 1], sa[x]) then 0 else 1
  {
    hide SameKey;
  }

  /** Ranks after one round, in the order of the keys. */
  method Rerank(sa: seq<nat>, rank: seq<nat>, k: nat) returns (next: seq<nat>)
    requires Permutes(sa, |rank|) && |sa| > 0
    ensures |next| == |rank| && forall x :: 0 <= x < |sa| ==> next[sa[x]] == Grade(sa, rank, k, x)
  {
    hide Grade, SameKey, Permutes, KeysEqual;
    GradeNext(sa, rank, k, 0);
    next := rank[sa[0] := 0];
    for x := 1 to |sa|
      invariant |next| == |rank| && forall y :: 0 <= y < x ==> next[sa[y]] == Grade(sa, rank, k, y)
    {
      GradeNext(sa, rank, k, x);
      var rise := if KeysEqual(rank, k, sa[x - 1], sa[x]) then 0 else 1;
      next := next[sa[x] := next[sa[x - 1]] + rise];
    }
  }

  lemma {:induction false} PlaceOf(sa: seq<nat>, n: nat, i: nat) returns (x: nat)
    requires Permutes(sa, n) && i < n
    ensures x < n && sa[x] == i
  {
    assert i in sa;
    x :| 0 <= x < |sa| && sa[x] == i;
  }

  lemma {:induction false} RoundRanks(data: seq<Byte>, sa: seq<nat>, rank: seq<nat>, k: nat, next: seq<nat>)
    requires RanksBy(data, rank, k) && k > 0 && Permutes(sa, |data|) && SortedByKey(sa, rank, k)
    requires |next| == |rank| && forall x :: 0 <= x < |sa| ==> next[sa[x]] == Grade(sa, rank, k, x)
    ensures RanksBy(data, next, 2 * k)
  {
    hide KeyLess, Grade, SortedByKey, Cut, RanksBy;
    SameSize(data, rank, k);
    forall i, j | 0 <= i < |data| && 0 <= j < |data|
      ensures next[i] < next[j] <==> Less(Cut(data, i, 2 * k), Cut(data, j, 2 * k)) {
      KeysCompare(data, rank, k, i, j);
      GradesDecide(sa, rank, k, next, i, j);
    }
    AsRanks(data, next, 2 * k);
  }

  lemma {:induction false} SameSize(data: seq<Byte>, rank: seq<nat>, k: nat)
    requires RanksBy(data, rank, k)
    ensures |rank| == |data|
  {
  }

  lemma {:induction false} AsRanks(data: seq<Byte>, rank: seq<nat>, k: nat)
    requires |rank| == |data|
    requires forall i, j :: 0 <= i < |data| && 0 <= j < |data| ==>
               (rank[i] < rank[j] <==> Less(Cut(data, i, k), Cut(data, j, k)))
    ensures RanksBy(data, rank, k)
  {
  }

  lemma {:induction false} GradesDecide(sa: seq<nat>, rank: seq<nat>, k: nat, next: seq<nat>, i: nat, j: nat)
    requires Permutes(sa, |rank|) && SortedByKey(sa, rank, k) && i < |rank| && j < |rank|
    requires |next| == |rank| && forall x :: 0 <= x < |sa| ==> next[sa[x]] == Grade(sa, rank, k, x)
    ensures next[i] < next[j] <==> KeyLess(rank, k, i, j)
  {
    hide Grade, SortedByKey;
    var x := PlaceOf(sa, |rank|, i);
    var y := PlaceOf(sa, |rank|, j);
    if x <= y {
      GradeOrder(sa, rank, k, x, y);
    } else {
      GradeOrder(sa, rank, k, y, x);
      LastNotLess(sa, rank, k, y, x);
    }
  }

  lemma {:induction false} LastNotLess(sa: seq<nat>, rank: seq<nat>, k: nat, x: nat, y: nat)
    requires Indices(sa, |rank|) && SortedByKey(sa, rank, k) && x < y < |sa|
    ensures !KeyLess(rank, k, sa[y], sa[x])
  {
  }

  // --- The suffix array ---

  predicate SuffixSorted(data: seq<Byte>, sa: seq<nat>) {
    && Permutes(sa, |data|)
    && forall x, y :: 0 <= x < y < |sa| ==> Less(data[sa[x]..], data[sa[y]..])
  }

  /** Sorted by their first `k` bytes, and different there. */
  predicate CutSorted(data: seq<Byte>, sa: seq<nat>, k: nat) {
    Permutes(sa, |data|) && forall x, y :: 0 <= x < y < |sa| ==> Less(Cut(data, sa[x], k), Cut(data, sa[y], k))
  }

  lemma {:induction false} CutSortedSuffixes(data: seq<Byte>, sa: seq<nat>, k: nat)
    requires CutSorted(data, sa, k)
    ensures SuffixSorted(data, sa)
  {
    hide Less, Cut;
    forall x, y | 0 <= x < y < |sa| ensures Less(data[sa[x]..], data[sa[y]..]) {
      CutDecides(data, sa[x], sa[y], k);
    }
  }

  lemma {:induction false} ByteRanks(data: seq<Byte>, rank: seq<nat>)
    requires |rank| == |data| && forall i :: 0 <= i < |data| ==> rank[i] == data[i]
    ensures RanksBy(data, rank, 1)
  {
    forall i, j | 0 <= i < |data| && 0 <= j < |data|
      ensures rank[i] < rank[j] <==> Less(Cut(data, i, 1), Cut(data, j, 1)) {
      assert Cut(data, i, 1) == [data[i]] && Cut(data, j, 1) == [data[j]];
    }
  }

  /** All suffixes at least once round: different suffixes, different ranks. */
  lemma {:induction false} DistinctGrades(data: seq<Byte>, sa: seq<nat>, rank: seq<nat>, k: nat, x: nat, y: nat)
    requires RanksBy(data, rank, k) && k > 0 && Permutes(sa, |data|) && SortedByKey(sa, rank, k)
    requires |data| <= 2 * k || Grade(sa, rank, k, |sa| - 1) == |sa| - 1
    requires x < y < |sa|
    ensures Less(Cut(data, sa[x], 2 * k), Cut(data, sa[y], 2 * k))
  {
    hide Less, RanksBy, KeyLess, SortedByKey;
    SameSize(data, rank, k);
    KeysCompare(data, rank, k, sa[x], sa[y]);
    KeysCompare(data, rank, k, sa[y], sa[x]);
    LastNotLess(sa, rank, k, x, y);
    if Grade(sa, rank, k, |sa| - 1) == |sa| - 1 {
      GradeOrder(sa, rank, k, 0, x);
      GradeOrder(sa, rank, k, x, y);
      GradeOrder(sa, rank, k, y, |sa| - 1);
    } else {
      CutWhole(data, sa[x], 2 * k);
      CutWhole(data, sa[y], 2 * k);
      LessTotal(data[sa[x]..], data[sa[y]..]);
      assert |data[sa[x]..]| != |data[sa[y]..]|;
    }
  }

  method SuffixArray(data: seq<Byte>) returns (sa: seq<nat>)
    ensures SuffixSorted(data, sa)
  {
    hide Less, Cut, RanksBy, Permutes, SortedByKey, Grade;
    var n := |data|;
    sa := Identity(n);
    SamePermutes(sa, n);
    if n <= 1 {
      FewSuffixes(data, sa);
      return;
    }
    var rank: seq<nat> := seq(n, i requires 0 <= i < n => data[i] as nat);
    ByteRanks(data, rank);
    var k := 1;
    ghost var sorted := false;
    while k < n
      invariant k >= 1 && |sa| == n == |rank| && multiset(sa) == multiset(Identity(n)) && Permutes(sa, n)
      invariant RanksBy(data, rank, k) && (k >= n ==> CutSorted(data, sa, k))
      decreases n - k
    {
      sa := SortRound(sa, rank, k);
      var next := Rerank(sa, rank, k);
      RoundRanks(data, sa, rank, k, next);
      var last := next[LastOf(sa, n)];
      if last == n - 1 {
        RoundSorted(data, sa, rank, k);
        CutSortedSuffixes(data, sa, 2 * k);
        return;
      }
      if n <= 2 * k {
        RoundSorted(data, sa, rank, k);
      }
      rank, k := next, 2 * k;
    }
    CutSortedSuffixes(data, sa, k);
  }

  function LastOf(sa: seq<nat>, n: nat): (i: nat)
    requires Permutes(sa, n) && n > 0
    ensures i < n && i == sa[n - 1]
  {
    sa[n - 1]
  }

  method SortRound(sa: seq<nat>, rank: seq<nat>, k: nat) returns (r: seq<nat>)
    requires |sa| == |rank| && multiset(sa) == multiset(Identity(|rank|)) && Permutes(sa, |rank|)
    ensures |r| == |rank| && multiset(r) == multiset(Identity(|rank|)) && Permutes(r, |rank|)
    ensures Indices(r, |rank|) && SortedByKey(r, rank, k)
  {
    hide SortedByKey;
    SortSortsByKey(sa, rank, k);
    r := SortByKey(sa, rank, k);
    SamePermutes(r, |rank|);
  }

  lemma {:induction false} RoundSorted(data: seq<Byte>, sa: seq<nat>, rank: seq<nat>, k: nat)
    requires RanksBy(data, rank, k) && k > 0 && Permutes(sa, |data|) && Indices(sa, |rank|) && SortedByKey(sa, rank, k)
    requires |sa| > 0 && (|data| <= 2 * k || Grade(sa, rank, k, |sa| - 1) == |sa| - 1)
    ensures CutSorted(data, sa, 2 * k)
  {
    hide Less, Cut, RanksBy, SortedByKey, Grade;
    forall x, y | 0 <= x < y < |sa| ensures Less(Cut(data, sa[x], 2 * k), Cut(data, sa[y], 2 * k)) {
      DistinctGrades(data, sa, rank, k, x, y);
    }
  }

  lemma {:induction false} FewSuffixes(data: seq<Byte>, sa: seq<nat>)
    requires |data| <= 1 && Permutes(sa, |data|)
    ensures SuffixSorted(data, sa)
  {
  }

  // --- Searching ---

  /** The length of the common front. */
  function Common(a: seq<Byte>, b: seq<Byte>): (n: nat)
    ensures n <= |a| && n <= |b| && a[..n] == b[..n]
    ensures n < |a| && n < |b| ==> a[n] != b[n]
  {
    if |a| > 0 && |b| > 0 && a[0] == b[0] then
      var n := Common(a[1..], b[1..]);
      assert a[..n + 1] == [a[0]] + a[1..][..n] && b[..n + 1] == [b[0]] + b[1..][..n];
      n + 1
    else 0
  }

  /** Of two sequences on the same side of `t`, the nearer one shares at least as much with it. */
  lemma {:induction false} NearerBelow(a: seq<Byte>, b: seq<Byte>, t: seq<Byte>)
    requires Less(a, b) && Less(b, t)
    ensures Common(a, t) <= Common(b, t)
  {
    if |a| > 0 && |b| > 0 && a[0] == t[0] && b[0] == t[0] {
      NearerBelow(a[1..], b[1..], t[1..]);
    }
  }

  lemma {:induction false} NearerAbove(t: seq<Byte>, a: seq<Byte>, b: seq<Byte>)
    requires !Less(a, t) && Less(a, b)
    ensures Common(b, t) <= Common(a, t)
  {
    if |t| > 0 && |a| > 0 && a[0] == t[0] && b[0] == t[0] {
      NearerAbove(t[1..], a[1..], b[1..]);
    }
  }

  method MatchLength(source: seq<Byte>, pos: nat, target: seq<Byte>) returns (n: nat)
    requires pos <= |source|
    ensures n == Common(source[pos..], target)
  {
    n := 0;
    while pos + n < |source| && n < |target| && source[pos + n] == target[n]
      invariant pos + n <= |source| && n <= |target| && source[pos..][..n] == target[..n]
    {
      n := n + 1;
    }
    CommonIs(source[pos..], target, n);
  }

  lemma {:induction false} CommonIs(a: seq<Byte>, b: seq<Byte>, n: nat)
    requires n <= |a| && n <= |b| && a[..n] == b[..n] && (n < |a| && n < |b| ==> a[n] != b[n])
    ensures Common(a, b) == n
  {
    if n > 0 {
      assert a[0] == a[..n][0] == b[..n][0] == b[0];
      assert a[1..][..n - 1] == a[..n][1..] && b[1..][..n - 1] == b[..n][1..];
      CommonIs(a[1..], b[1..], n - 1);
    }
  }

  /** What has been seen: a match at `pos`, at least as long as that of the suffix in place `x`. */
  predicate Found(source: seq<Byte>, target: seq<Byte>, pos: nat, len: nat) {
    pos + len <= |source| && len <= |target| && source[pos..pos + len] == target[..len]
  }

  method Consider(source: seq<Byte>, target: seq<Byte>, at: nat, pos: nat, len: nat) returns (p: nat, n: nat)
    requires at <= |source| && Found(source, target, pos, len)
    ensures Found(source, target, p, n) && n >= len && n >= Common(source[at..], target)
  {
    p, n := pos, len;
    var ml := MatchLength(source, at, target);
    if ml > len {
      assert source[at..][..ml] == source[at..at + ml];
      p, n := at, ml;
    }
  }

  /** The suffixes next to the target are the ones to look at. */
  lemma {:induction false} NeighboursSuffice(source: seq<Byte>, sa: seq<nat>, target: seq<Byte>, lo: nat, x: nat)
    requires SuffixSorted(source, sa) && lo < |sa| && x < |sa|
    requires forall y :: 0 <= y < lo ==> Less(source[sa[y]..], target)
    requires lo == |sa| - 1 || !Less(source[sa[lo]..], target)
    ensures Common(source[sa[x]..], target) <= Common(source[sa[lo]..], target)
            || (lo > 0 && Common(source[sa[x]..], target) <= Common(source[sa[lo - 1]..], target))
  {
    hide Less, Common;
    if x < lo - 1 {
      NearerBelow(source[sa[x]..], source[sa[lo - 1]..], target);
    } else if x > lo {
      NearerAbove(target, source[sa[lo]..], source[sa[x]..]);
    }
  }

  /** Binary search in the suffix array: no suffix shares more with the target than the match returned. */
  method FindMatch(sa: seq<nat>, source: seq<Byte>, target: seq<Byte>) returns (pos: nat, len: nat)
    requires SuffixSorted(source, sa)
    ensures Found(source, target, pos, len)
    ensures forall p :: 0 <= p < |source| ==> Common(source[p..], target) <= len
  {
    hide Less, Common, Found;
    pos, len := 0, 0;
    NothingFound(source, target);
    if |sa| == 0 || |target| == 0 {
      NothingShared(source, target);
      return;
    }
    var lo, hi := 0, |sa| - 1;
    while lo < hi
      invariant 0 <= lo <= hi < |sa| && Found(source, target, pos, len)
      invariant forall y :: 0 <= y < lo ==> Less(source[sa[y]..], target)
      invariant hi == |sa| - 1 || !Less(source[sa[hi]..], target)
      decreases hi - lo
    {
      var mid := lo + (hi - lo) / 2;
      pos, len := Consider(source, target, sa[mid], pos, len);
      if Less(source[sa[mid]..], target) {
        AllBelow(source, sa, target, mid);
        lo := mid + 1;
      } else {
        hi := mid;
      }
    }
    pos, len := Consider(source, target, sa[lo], pos, len);
    pos, len := Consider(source, target, sa[if lo > 0 then lo - 1 else 0], pos, len);
    forall p | 0 <= p < |source| ensures Common(source[p..], target) <= len {
      var x := PlaceOf(sa, |source|, p);
      NeighboursSuffice(source, sa, target, lo, x);
    }
  }

  lemma {:induction false} AllBelow(source: seq<Byte>, sa: seq<nat>, target: seq<Byte>, mid: nat)
    requires SuffixSorted(source, sa) && mid < |sa| && Less(source[sa[mid]..], target)
    ensures forall y :: 0 <= y <= mid ==> Less(source[sa[y]..], target)
  {
    hide Less;
    forall y | 0 <= y < mid ensures Less(source[sa[y]..], target) {
      LessTransitive(source[sa[y]..], source[sa[mid]..], target);
    }
  }

  lemma {:induction false} NothingFound(source: seq<Byte>, target: seq<Byte>)
    ensures Found(source, target, 0, 0)
  {
  }

  lemma {:induction false} NothingShared(source: seq<Byte>, target: seq<Byte>)
    ensures |target| == 0 ==> forall p :: 0 <= p < |source| ==> Common(source[p..], target) == 0
  {
  }
}
