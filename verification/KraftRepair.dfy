/** Repairing a length distribution: leaves are moved between neighbouring lengths until the Kraft sum is
    exactly full. `bl[l]` is the number of codes of length `l`. */
module KraftRepair {
  import opened Powers

  const MAX_ROUNDS := 1_000_000

  /** Kraft sum of the lengths 1 to `l`, scaled by 2^ml. */
  function KSum(bl: seq<nat>, ml: nat, l: nat): nat
    requires l <= ml < |bl|
    decreases l
  {
    if l == 0 then 0 else KSum(bl, ml, l - 1) + bl[l] * Pow2(ml - l)
  }

  function Leaves(bl: seq<nat>, l: nat): nat
    requires l < |bl|
    decreases l
  {
    if l == 0 then 0 else Leaves(bl, l - 1) + bl[l]
  }

  /** Move one leaf from length `a` to length `b`. */
  function Move(bl: seq<nat>, a: nat, b: nat): (r: seq<nat>)
    requires a < |bl| && b < |bl| && a != b && bl[a] > 0
    ensures |r| == |bl|
  {
    bl[a := bl[a] - 1][b := bl[b] + 1]
  }

  lemma {:induction false} MoveSums(bl: seq<nat>, ml: nat, a: nat, b: nat, l: nat)
    requires l <= ml < |bl| && 1 <= a <= ml && 1 <= b <= ml && a != b && bl[a] > 0
    ensures KSum(Move(bl, a, b), ml, l) + (if a <= l then Pow2(ml - a) else 0)
         == KSum(bl, ml, l) + (if b <= l then Pow2(ml - b) else 0)
    ensures Leaves(Move(bl, a, b), l) + (if a <= l then 1 else 0) == Leaves(bl, l) + (if b <= l then 1 else 0)
  {
    if l > 0 {
      hide Pow2;
      MoveSums(bl, ml, a, b, l - 1);
      if l == a {
        Distribute(bl[a] - 1, 1, Pow2(ml - a));
      } else if l == b {
        Distribute(bl[b], 1, Pow2(ml - b));
      }
    }
  }

  lemma {:induction false} LeavesNone(bl: seq<nat>, ml: nat, l: nat)
    requires l <= ml < |bl| && forall k :: 1 <= k <= l ==> bl[k] == 0
    ensures KSum(bl, ml, l) == 0 && Leaves(bl, l) == 0
  {
    if l > 0 {
      LeavesNone(bl, ml, l - 1);
    }
  }

  /** With no code longer than `g` the sum is a multiple of the share of length `g`. */
  lemma {:induction false} KSumMultiple(bl: seq<nat>, ml: nat, g: nat, l: nat) returns (q: nat)
    requires l <= ml < |bl| && g <= ml && forall k :: g < k <= l ==> bl[k] == 0
    ensures KSum(bl, ml, l) == q * Pow2(ml - g)
  {
    q := 0;
    if l > 0 {
      var p := KSumMultiple(bl, ml, g, l - 1);
      if l <= g {
        Pow2Add(g - l, ml - g);
        Associate(bl[l], Pow2(g - l), Pow2(ml - g));
        Distribute(p, bl[l] * Pow2(g - l), Pow2(ml - g));
        q := p + bl[l] * Pow2(g - l);
      } else {
        q := p;
      }
    }
  }

  /** A positive difference of multiples is at least one share. */
  lemma {:induction false} MultipleGap(p: nat, q: nat, h: nat)
    requires p * h < q * h && h > 0
    ensures p * h + h <= q * h
  {
    if q <= p {
      MulMonotone(h, q, p);
    } else {
      MulMonotone(h, p + 1, q);
      Distribute(p, 1, h);
    }
  }

  // --- Too many: lengthen codes ---

  /** The greatest length up to `l` with a code; 0 if there is none. */
  function LastUsed(bl: seq<nat>, l: nat): (k: nat)
    requires l < |bl|
    ensures k <= l && (k > 0 ==> bl[k] > 0) && forall j :: k < j <= l ==> bl[j] == 0
  {
    if l == 0 || bl[l] > 0 then l else LastUsed(bl, l - 1)
  }

  /** The least length from `l` on with a code; 0 if there is none. */
  function FirstUsed(bl: seq<nat>, ml: nat, l: nat): (k: nat)
    requires ml < |bl| && 1 <= l
    ensures k > 0 ==> l <= k <= ml && bl[k] > 0 && forall j :: l <= j < k ==> bl[j] == 0
    ensures k == 0 ==> forall j :: l <= j <= ml ==> bl[j] == 0
    decreases ml + 1 - l
  {
    if l > ml then 0 else if bl[l] > 0 then l else FirstUsed(bl, ml, l + 1)
  }

  /** A code of length `l` can become longer without taking more than `excess` off the sum. */
  predicate CanLengthen(bl: seq<nat>, ml: nat, excess: nat, l: nat)
    requires ml < |bl|
  {
    1 <= l < ml && bl[l] > 0 && Pow2(ml - l - 1) <= excess
  }

  /** A code of length `l` can become shorter without adding more than `deficit` to the sum. */
  predicate CanShorten(bl: seq<nat>, ml: nat, deficit: nat, l: nat)
    requires ml < |bl|
  {
    2 <= l <= ml && bl[l] > 0 && Pow2(ml - l) <= deficit
  }

  predicate PicksLonger(bl: seq<nat>, ml: nat, excess: nat, l: nat)
    requires ml < |bl|
  {
    || (CanLengthen(bl, ml, excess, l) && forall k: nat :: k < l ==> !CanLengthen(bl, ml, excess, k))
    || (l == LastUsed(bl, if ml == 0 then 0 else ml - 1) && forall k: nat :: k < ml ==> !CanLengthen(bl, ml, excess, k))
  }

  predicate PicksShorter(bl: seq<nat>, ml: nat, deficit: nat, l: nat)
    requires ml < |bl|
  {
    || (CanShorten(bl, ml, deficit, l) && forall k: nat :: l < k <= ml ==> !CanShorten(bl, ml, deficit, k))
    || ((forall k: nat :: k <= ml ==> !CanShorten(bl, ml, deficit, k)) && l == FirstUsed(bl, ml, 2))
  }

  /** One move of the first repair leads from `bl` to `bl'`. */
  predicate Lengthens(bl: seq<nat>, ml: nat, bl': seq<nat>)
    requires ml < |bl|
  {
    KSum(bl, ml, ml) > Pow2(ml)
    && exists l: nat :: 1 <= l < ml && PicksLonger(bl, ml, KSum(bl, ml, ml) - Pow2(ml), l) && bl[l] > 0
                        && bl' == Move(bl, l, l + 1)
  }

  predicate Shortens(bl: seq<nat>, ml: nat, bl': seq<nat>)
    requires ml < |bl|
  {
    KSum(bl, ml, ml) < Pow2(ml)
    && exists l: nat :: 2 <= l <= ml && PicksShorter(bl, ml, Pow2(ml) - KSum(bl, ml, ml), l) && bl[l] > 0
                        && bl' == Move(bl, l, l - 1)
  }

  /** `run` leads from `start` to its last distribution, first by lengthening moves and then by shortening ones. */
  ghost predicate RepairRun(run: seq<seq<nat>>, start: seq<nat>, ml: nat) {
    && |run| > 0 && run[0] == start && (forall i: nat :: i < |run| ==> ml < |run[i]|)
    && forall i: nat :: i + 1 < |run| ==> Lengthens(run[i], ml, run[i + 1]) || Shortens(run[i], ml, run[i + 1])
  }

  lemma {:induction false} RunOn(run: seq<seq<nat>>, start: seq<nat>, ml: nat, bl: seq<nat>)
    requires RepairRun(run, start, ml) && ml < |bl|
    requires Lengthens(run[|run| - 1], ml, bl) || Shortens(run[|run| - 1], ml, bl)
    ensures RepairRun(run + [bl], start, ml)
  {
    hide Lengthens, Shortens;
    var r := run + [bl];
    forall i: nat | i + 1 < |r| ensures Lengthens(r[i], ml, r[i + 1]) || Shortens(r[i], ml, r[i + 1]) {
      if i + 1 < |run| {
        assert r[i] == run[i] && r[i + 1] == run[i + 1];
      }
    }
  }

  /** The shortest length below `ml` with a code whose lengthening does not undershoot; otherwise the
      longest one with a code; 0 if there is none. */
  method PickLonger(bl: seq<nat>, ml: nat, excess: nat) returns (l: nat)
    requires ml < |bl|
    ensures l == 0 ==> forall k :: 1 <= k < ml ==> bl[k] == 0
    ensures l > 0 ==> l < ml && bl[l] > 0
    ensures PicksLonger(bl, ml, excess, l)
  {
    l := 1;
    while l < ml
      invariant 1 <= l && forall k: nat :: k < l ==> !CanLengthen(bl, ml, excess, k)
      decreases ml - l
    {
      if bl[l] > 0 && Pow2(ml - l - 1) <= excess {
        return;
      }
      l := l + 1;
    }
    l := if ml == 0 then 0 else ml - 1;
    while l > 0
      invariant ml > 0 ==> l < ml
      invariant forall k :: l < k < ml ==> bl[k] == 0
      invariant LastUsed(bl, l) == LastUsed(bl, if ml == 0 then 0 else ml - 1)
    {
      if bl[l] > 0 {
        return;
      }
      l := l - 1;
    }
  }

  method Scaled(bl: seq<nat>, ml: nat) returns (k: nat)
    requires ml < |bl|
    ensures k == KSum(bl, ml, ml)
  {
    k := 0;
    for l := 1 to ml + 1
      invariant k == KSum(bl, ml, l - 1)
    {
      k := k + bl[l] * Pow2(ml - l);
    }
  }

  /** An over-subscribed distribution is brought down to at most the target. Every move lowers the sum,
      so the rounds suffice. */
  method LengthenCodes(start: seq<nat>, ml: nat) returns (bl: seq<nat>, ghost run: seq<seq<nat>>)
    requires 1 <= ml < |start| && Leaves(start, ml) <= Pow2(ml)
    requires KSum(start, ml, ml) <= Pow2(ml) + MAX_ROUNDS
    ensures |bl| == |start| && Leaves(bl, ml) == Leaves(start, ml) && KSum(bl, ml, ml) <= Pow2(ml)
    ensures |run| > 0 && RepairRun(run, start, ml) && run[|run| - 1] == bl
    ensures KSum(start, ml, ml) <= Pow2(ml) ==> bl == start
  {
    hide KSum, Leaves, Pow2, PicksLonger, RepairRun;
    var target := Pow2(ml);
    bl, run := start, [start];
    FirstRun(start, ml);
    var round := 0;
    while round < MAX_ROUNDS
      invariant 0 <= round <= MAX_ROUNDS && |bl| == |start| && Leaves(bl, ml) == Leaves(start, ml)
      invariant KSum(bl, ml, ml) <= target + (MAX_ROUNDS - round)
      invariant |run| > 0 && RepairRun(run, start, ml) && run[|run| - 1] == bl
      invariant KSum(start, ml, ml) <= target ==> bl == start
    {
      var k := Scaled(bl, ml);
      if k <= target {
        break;
      }
      var l := PickLonger(bl, ml, k - target);
      if l == 0 {
        AllLongest(bl, ml);
        break;
      }
      MoveSums(bl, ml, l, l + 1, ml);
      HalfShare(ml, l);
      RunOn(run, start, ml, Move(bl, l, l + 1));
      bl := Move(bl, l, l + 1);
      run := run + [bl];
      round := round + 1;
    }
  }

  lemma {:induction false} HalfShare(ml: nat, l: nat)
    requires l < ml
    ensures Pow2(ml - l) == 2 * Pow2(ml - (l + 1)) && Pow2(ml - (l + 1)) >= 1
  {
  }

  /** If every code has the greatest length, the sum is their number. */
  lemma {:induction false} AllLongest(bl: seq<nat>, ml: nat)
    requires 1 <= ml < |bl| && forall k :: 1 <= k < ml ==> bl[k] == 0
    ensures KSum(bl, ml, ml) == Leaves(bl, ml)
  {
    LeavesNone(bl, ml, ml - 1);
    assert Pow2(ml - ml) == 1;
  }

  // --- Too few: shorten codes ---

  /** The greatest length above 1 with a code whose shortening does not overshoot; otherwise the least one
      with a code; 0 if there is none. */
  method PickShorter(bl: seq<nat>, ml: nat, deficit: nat) returns (l: nat)
    requires ml < |bl|
    ensures l > 0 ==> 2 <= l <= ml && bl[l] > 0
    ensures (exists k: nat :: CanShorten(bl, ml, deficit, k)) ==> l > 0 && Pow2(ml - l) <= deficit
    ensures PicksShorter(bl, ml, deficit, l)
  {
    l := ml;
    while l >= 2
      invariant 0 <= l <= ml
      invariant forall k: nat :: l < k <= ml ==> !CanShorten(bl, ml, deficit, k)
    {
      if bl[l] > 0 && Pow2(ml - l) <= deficit {
        return;
      }
      l := l - 1;
    }
    l := 2;
    while l <= ml
      invariant 2 <= l && FirstUsed(bl, ml, l) == FirstUsed(bl, ml, 2)
      decreases ml + 1 - l
    {
      if bl[l] > 0 {
        return;
      }
      l := l + 1;
    }
    l := 0;
  }

  /** The longest length in use. */
  lemma {:induction false} Longest(bl: seq<nat>, ml: nat, l: nat) returns (g: nat)
    requires l <= ml < |bl| && Leaves(bl, l) > 0
    ensures 1 <= g <= l && bl[g] > 0 && forall k :: g < k <= l ==> bl[k] == 0
  {
    if bl[l] > 0 {
      g := l;
    } else {
      g := Longest(bl, ml, l - 1);
    }
  }

  /** A gap below the target leaves room for the longest code to be shortened. */
  lemma {:induction false} RoomToShorten(bl: seq<nat>, ml: nat) returns (g: nat)
    requires 1 <= ml < |bl| && Leaves(bl, ml) >= 2 && KSum(bl, ml, ml) < Pow2(ml)
    ensures CanShorten(bl, ml, Pow2(ml) - KSum(bl, ml, ml), g)
  {
    hide KSum, Leaves, Pow2;
    g := Longest(bl, ml, ml);
    var q := KSumMultiple(bl, ml, g, ml);
    Pow2Add(g, ml - g);
    MultipleGap(q, Pow2(g), Pow2(ml - g));
    if g == 1 {
      OnlyFirst(bl, ml, ml);
      AtLeastTwo(bl, ml);
    }
  }

  lemma {:induction false} OnlyFirst(bl: seq<nat>, ml: nat, l: nat)
    requires 1 <= l <= ml < |bl| && forall k :: 1 < k <= l ==> bl[k] == 0
    ensures Leaves(bl, l) == bl[1] && KSum(bl, ml, l) == bl[1] * Pow2(ml - 1)
  {
    if l > 1 {
      OnlyFirst(bl, ml, l - 1);
    }
  }

  lemma {:induction false} AtLeastTwo(bl: seq<nat>, ml: nat)
    requires 1 <= ml < |bl| && bl[1] >= 2
    ensures bl[1] * Pow2(ml - 1) >= Pow2(ml)
  {
    MulMonotone(Pow2(ml - 1), 2, bl[1]);
  }

  /** An under-subscribed distribution is filled up exactly. */
  method ShortenCodes(start: seq<nat>, ml: nat, ghost before: seq<seq<nat>>, ghost first: seq<nat>)
    returns (bl: seq<nat>, ghost run: seq<seq<nat>>)
    requires 1 <= ml < |start| && Leaves(start, ml) >= 2
    requires KSum(start, ml, ml) <= Pow2(ml) <= MAX_ROUNDS
    requires |before| > 0 && RepairRun(before, first, ml) && before[|before| - 1] == start
    ensures |bl| == |start| && Leaves(bl, ml) == Leaves(start, ml) && KSum(bl, ml, ml) == Pow2(ml)
    ensures |run| > 0 && RepairRun(run, first, ml) && run[|run| - 1] == bl
    ensures KSum(start, ml, ml) == Pow2(ml) ==> bl == start
  {
    hide KSum, Leaves, Pow2, PicksShorter, RepairRun;
    var target := Pow2(ml);
    bl, run := start, before;
    var round := 0;
    while round < MAX_ROUNDS
      invariant 0 <= round <= MAX_ROUNDS && |bl| == |start| && Leaves(bl, ml) == Leaves(start, ml)
      invariant round <= KSum(bl, ml, ml) <= target
      invariant |run| > 0 && RepairRun(run, first, ml) && run[|run| - 1] == bl
      invariant KSum(start, ml, ml) == target ==> bl == start
    {
      var k := Scaled(bl, ml);
      if k >= target {
        break;
      }
      ghost var _ := RoomToShorten(bl, ml);
      var l := PickShorter(bl, ml, target - k);
      if l == 0 {
        break;
      }
      MoveSums(bl, ml, l, l - 1, ml);
      HalfShare(ml, l - 1);
      RunOn(run, first, ml, Move(bl, l, l - 1));
      bl := Move(bl, l, l - 1);
      run := run + [bl];
      round := round + 1;
    }
  }

  lemma {:induction false} FirstRun(start: seq<nat>, ml: nat)
    requires ml < |start|
    ensures RepairRun([start], start, ml)
  {
  }

  /** Both repairs together: the leaf count is kept and the Kraft sum is exactly full. Every move is the one that the
      rules pick, and a distribution that is full already stays as it is. */
  method RepairLengths(start: seq<nat>, ml: nat) returns (bl: seq<nat>, ghost run: seq<seq<nat>>)
    requires 1 <= ml <= 15 && ml < |start| && 2 <= Leaves(start, ml) <= Pow2(ml)
    requires KSum(start, ml, ml) <= Pow2(ml) + MAX_ROUNDS
    ensures |bl| == |start| && Leaves(bl, ml) == Leaves(start, ml) && KSum(bl, ml, ml) == Pow2(ml)
    ensures |run| > 0 && RepairRun(run, start, ml) && run[|run| - 1] == bl
    ensures KSum(start, ml, ml) == Pow2(ml) ==> bl == start
  {
    hide KSum, Leaves, Pow2, RepairRun;
    Pow2Monotone(ml, 15);
    PowerTable();
    bl, run := LengthenCodes(start, ml);
    bl, run := ShortenCodes(bl, ml, run, start);
  }
}
