/** Reducing a rift table in place of its entries, and the pointwise sum of two tables. */
module RiftReduce {
  import opened Rift
  import opened RiftNormal

  // --- Votes among entries with the same source ---

  function Targets(t: Table): (r: seq<I64>)
    ensures |r| == |t| && forall i :: 0 <= i < |t| ==> r[i] == t[i].target
  {
    seq(|t|, i requires 0 <= i < |t| => t[i].target)
  }

  /** One candidate and a counter: an equal vote counts up, a different one down, and at zero the next
      vote takes over. */
  function Vote(target: I64, count: nat, votes: seq<I64>): I64
    decreases |votes|
  {
    if |votes| == 0 then target
    else if votes[0] == target then Vote(target, count + 1, votes[1..])
    else if count == 0 then Vote(votes[0], 1, votes[1..])
    else Vote(target, count - 1, votes[1..])
  }

  function CountOf(votes: seq<I64>, v: I64): nat {
    if |votes| == 0 then 0 else (if votes[0] == v then 1 else 0) + CountOf(votes[1..], v)
  }

  lemma {:induction false} VoteMajority(target: I64, count: nat, votes: seq<I64>, m: I64)
    requires 2 * (CountOf(votes, m) + if target == m then count else 0) > |votes| + count
    ensures Vote(target, count, votes) == m
    decreases |votes|
  {
    if |votes| > 0 {
      if votes[0] == target {
        VoteMajority(target, count + 1, votes[1..], m);
      } else if count == 0 {
        VoteMajority(votes[0], 1, votes[1..], m);
      } else {
        VoteMajority(target, count - 1, votes[1..], m);
      }
    }
  }

  /** The end of the run of entries from `i` on that share its source. */
  function RunEnd(t: Table, i: nat): (j: nat)
    requires i < |t|
    ensures i < j <= |t| && forall k :: i <= k < j ==> t[k].source == t[i].source
    ensures j < |t| ==> t[j].source != t[i].source
    decreases |t| - i
  {
    if i + 1 < |t| && t[i + 1].source == t[i].source then RunEnd(t, i + 1) else i + 1
  }

  /** The elected target of the run at `i`. */
  function Elected(t: Table, i: nat): I64
    requires i < |t|
  {
    Vote(t[i].target, 1, Targets(t[i + 1..RunEnd(t, i)]))
  }

  /** A target shared by more than half of the entries of a source wins. */
  lemma {:induction false} StrictMajorityWins(t: Table, i: nat, m: I64)
    requires i < |t| && 2 * CountOf(Targets(t[i..RunEnd(t, i)]), m) > RunEnd(t, i) - i
    ensures Elected(t, i) == m
  {
    var run := Targets(t[i..RunEnd(t, i)]);
    assert run[0] == t[i].target && run[1..] == Targets(t[i + 1..RunEnd(t, i)]);
    VoteMajority(t[i].target, 1, run[1..], m);
  }

  /** One entry for each source, from `i` on; with `drop` an unset entry that would start a run is passed over. */
  function Winners(t: Table, i: nat, drop: bool): (r: Table)
    requires i <= |t|
    decreases |t| - i
  {
    if i == |t| then []
    else if drop && t[i].target == UNSET_TARGET then Winners(t, i + 1, drop)
    else [Entry(t[i].source, Elected(t, i))] + Winners(t, RunEnd(t, i), drop)
  }

  function Reduced(t: Table, drop: bool): Table {
    Close(Squeeze(Winners(t, 0, drop)))
  }

  /** Without duplicate sources there is nothing to elect. */
  lemma {:induction false} StrictWinners(t: Table, i: nat)
    requires Strict(t) && i <= |t|
    ensures Winners(t, i, false) == t[i..]
    decreases |t| - i
  {
    if i < |t| {
      StrictWinners(t, i + 1);
      assert t[i + 1..i + 1] == [];
      assert t[i..] == [t[i]] + t[i + 1..];
    }
  }

  /** Reduction preserves the map and yields the normal form. */
  lemma {:induction false} ReducedSameMap(t: Table)
    requires Strict(t)
    ensures NormalForm(Reduced(t, false)) && SameMap(Reduced(t, false), t)
  {
    hide Offset, Alternating, Close;
    StrictWinners(t, 0);
    assert t[0..] == t;
    SqueezedShape(t);
    SqueezeSameMap(t);
    CloseSameMap(Squeeze(t));
    CloseNormal(Squeeze(t));
  }

  /** The entries that have been set. */
  function SetEntries(t: Table): (r: Table)
    ensures forall e :: e in r <==> e in t && e.target != UNSET_TARGET
  {
    if |t| == 0 then [] else (if t[0].target == UNSET_TARGET then [] else [t[0]]) + SetEntries(t[1..])
  }

  lemma {:induction false} SetEntriesStrict(t: Table)
    requires Strict(t)
    ensures Strict(SetEntries(t))
  {
    if |t| > 0 {
      var rest := SetEntries(t[1..]);
      SetEntriesStrict(t[1..]);
      forall i | 0 <= i < |rest| ensures t[0].source < rest[i].source {
        assert rest[i] in t[1..];
      }
    }
  }

  lemma {:induction false} SetWinners(t: Table, i: nat)
    requires Strict(t) && i <= |t|
    ensures Winners(t, i, true) == SetEntries(t[i..])
    decreases |t| - i
  {
    hide SetEntries;
    if i < |t| {
      SetWinners(t, i + 1);
      assert t[i + 1..i + 1] == [];
      assert t[i..][0] == t[i] && t[i..][1..] == t[i + 1..];
      SetStep(t[i..]);
    } else {
      assert t[i..] == [];
      NoneSet();
    }
  }

  lemma {:induction false} SetStep(t: Table)
    requires |t| > 0
    ensures SetEntries(t) == (if t[0].target == UNSET_TARGET then [] else [t[0]]) + SetEntries(t[1..])
  {
  }

  lemma {:induction false} NoneSet()
    ensures SetEntries([]) == []
  {
  }

  /** Dropping unset entries: the reduction denotes the map of those that are set. */
  lemma {:induction false} ReducedWithoutUnset(t: Table)
    requires Strict(t)
    ensures Strict(SetEntries(t)) && Reduced(t, true) == Reduced(SetEntries(t), false)
    ensures NormalForm(Reduced(t, true)) && SameMap(Reduced(t, true), SetEntries(t))
  {
    hide Squeeze, Close, Offset, NormalForm, SetEntries;
    SetEntriesStrict(t);
    SetWinners(t, 0);
    assert t[0..] == t;
    StrictWinners(SetEntries(t), 0);
    assert SetEntries(t)[0..] == SetEntries(t);
    ReducedSameMap(SetEntries(t));
  }

  lemma {:induction false} SqueezedShape(t: Table)
    requires Strict(t)
    ensures Strict(Squeeze(t)) && Alternating(Squeeze(t))
  {
    if |t| > 0 {
      SqueezeShape(t);
    }
  }

  /** Two tables denote the same map if and only if their reductions are equal. */
  lemma {:induction false} ReducedDecidesEquality(a: Table, b: Table)
    requires Strict(a) && Strict(b)
    ensures SameMap(a, b) <==> Reduced(a, false) == Reduced(b, false)
  {
    hide Offset, Reduced, NormalForm;
    ReducedSameMap(a);
    ReducedSameMap(b);
    assert Strict(Reduced(a, false)) && Strict(Reduced(b, false)) by {
      StrictForms(Reduced(a, false));
      StrictForms(Reduced(b, false));
    }
    if SameMap(a, b) {
      NormalFormUnique(Reduced(a, false), Reduced(b, false));
    }
  }

  // --- As it runs ---

  lemma {:induction false} VoteNext(target: I64, count: nat, votes: seq<I64>)
    requires |votes| > 0
    ensures Vote(target, count, votes)
         == if votes[0] == target then Vote(target, count + 1, votes[1..])
            else if count == 0 then Vote(votes[0], 1, votes[1..])
            else Vote(target, count - 1, votes[1..])
  {
  }

  method CountVotes(t: Table, i: nat) returns (target: I64, j: nat)
    requires i < |t|
    ensures target == Elected(t, i) && j == RunEnd(t, i)
  {
    ghost var end := RunEnd(t, i);
    target, j := t[i].target, i + 1;
    var count := 1;
    while j < |t| && t[j].source == t[i].source
      invariant i < j <= end
      invariant Vote(target, count, Targets(t[j..end])) == Elected(t, i)
    {
      ghost var votes := Targets(t[j..end]);
      assert votes[0] == t[j].target && votes[1..] == Targets(t[j + 1..end]);
      VoteNext(target, count, votes);
      if t[j].target == target {
        count := count + 1;
      } else if count == 0 {
        target, count := t[j].target, 1;
      } else {
        count := count - 1;
      }
      j := j + 1;
    }
    assert Targets(t[end..end]) == [];
  }

  lemma {:induction false} WinnersStep(t: Table, i: nat, drop: bool)
    requires i < |t|
    ensures Winners(t, i, drop)
         == if drop && t[i].target == UNSET_TARGET then Winners(t, i + 1, drop)
            else [Entry(t[i].source, Elected(t, i))] + Winners(t, RunEnd(t, i), drop)
  {
  }

  lemma {:induction false} NoMoreWinners(t: Table, drop: bool)
    ensures Winners(t, |t|, drop) == []
  {
  }

  method InternalReduce(t: Table, drop: bool) returns (r: Table)
    ensures r == Reduced(t, drop)
  {
    hide Elected, Close, Delta, RunEnd, Winners;
    r := [];
    var i := 0;
    ghost var done: Table := [];
    assert done + Winners(t, 0, drop) == Winners(t, 0, drop);
    while i < |t|
      invariant i <= |t| && r == Squeeze(done) && done + Winners(t, i, drop) == Winners(t, 0, drop)
    {
      if drop && t[i].target == UNSET_TARGET {
        WinnersStep(t, i, drop);
        i := i + 1;
      } else {
        var target, j := CountVotes(t, i);
        var e := Entry(t[i].source, target);
        assert done + Winners(t, i, drop) == (done + [e]) + Winners(t, j, drop) by { WinnersStep(t, i, drop); }
        assert (done + [e])[..|done|] == done;
        done := done + [e];
        if |r| == 0 || Delta(r[|r| - 1]) != Delta(e) {
          r := r + [e];
        }
        i := j;
      }
    }
    assert Winners(t, i, drop) == [] by { NoMoreWinners(t, drop); }
    assert done + [] == done;
    r := Close(r);
  }

  // --- The sum of two maps ---

  predicate Increasing(s: seq<I64>) {
    forall i, j :: 0 <= i < j < |s| ==> s[i] < s[j]
  }

  /** Insert into an increasing sequence, once. */
  function InsertPosition(s: seq<I64>, v: I64): (r: seq<I64>)
    requires Increasing(s)
    ensures Increasing(r) && forall x :: x in r <==> x in s || x == v
  {
    if |s| == 0 then [v]
    else
      var n := |s| - 1;
      if s[n] < v then s + [v]
      else if s[n] == v then s
      else
        InsertBelow(s, v);
        var r := InsertPosition(s[..n], v);
        AppendIncreasing(r, s[n]);
        r + [s[n]]
  }

  lemma {:induction false} AppendIncreasing(s: seq<I64>, v: I64)
    requires Increasing(s) && forall x {:trigger x in s} :: x in s ==> x < v
    ensures Increasing(s + [v])
  {
    forall i | 0 <= i < |s| ensures s[i] < v {
      assert s[i] in s;
    }
  }

  lemma {:induction false} InsertBelow(s: seq<I64>, v: I64)
    requires Increasing(s) && |s| > 0 && v < s[|s| - 1]
    ensures forall x {:trigger x in s[..|s| - 1]} :: x in s[..|s| - 1] ==> x < s[|s| - 1]
    ensures forall x :: x in s <==> x in s[..|s| - 1] || x == s[|s| - 1]
  {
    var n := |s| - 1;
    assert s == s[..n] + [s[n]];
    forall x | x in s[..n] ensures x < s[n] {
      var i :| 0 <= i < n && s[..n][i] == x;
    }
  }

  /** All sources of `t`, added to `s`. */
  function AddSources(s: seq<I64>, t: Table): (r: seq<I64>)
    requires Increasing(s)
    ensures Increasing(r) && forall x :: x in r <==> x in s || HasSource(t, x)
  {
    if |t| == 0 then s
    else
      LastSource(t);
      InsertPosition(AddSources(s, t[..|t| - 1]), t[|t| - 1].source)
  }

  lemma {:induction false} LastSource(t: Table)
    requires |t| > 0
    ensures forall x :: HasSource(t, x) <==> HasSource(t[..|t| - 1], x) || x == t[|t| - 1].source
  {
    var front := t[..|t| - 1];
    forall x ensures HasSource(t, x) <==> HasSource(front, x) || x == t[|t| - 1].source {
      if i :| 0 <= i < |t| && t[i].source == x {
        assert i < |front| ==> front[i].source == x;
      }
      if i :| 0 <= i < |front| && front[i].source == x {
        assert t[i].source == x;
      }
    }
  }

  /** The offsets of a table do not change where it has no source. */
  lemma {:induction false} NoBreakBetween(t: Table, p: I64, x: I64)
    requires Sorted(t) && p <= x && forall y: I64 :: p < y <= x ==> !HasSource(t, y)
    ensures Offset(t, p) == Offset(t, x)
  {
    if |t| > 0 {
      assert HasSource(t, t[0].source);
      if t[0].source <= p {
        var i := Find(t, p);
        if i + 1 < |t| {
          assert HasSource(t, t[i + 1].source);
        }
        FindIs(t, x, i);
      }
    }
  }

  function SumEntry(a: Table, b: Table, s: I64): Entry
    requires Sorted(a) && Sorted(b)
  {
    Entry(s, Wrap(Wrap(s + Offset(a, s)) + Offset(b, s)))
  }

  function SumTable(a: Table, b: Table, breaks: seq<I64>): (r: Table)
    requires Sorted(a) && Sorted(b)
    ensures |r| == |breaks| && forall i :: 0 <= i < |r| ==> r[i] == SumEntry(a, b, breaks[i])
  {
    seq(|breaks|, i requires 0 <= i < |breaks| => SumEntry(a, b, breaks[i]))
  }

  lemma {:induction false} SumEntryDelta(a: Table, b: Table, s: I64)
    requires Sorted(a) && Sorted(b)
    ensures Delta(SumEntry(a, b, s)) == Wrap(Offset(a, s) + Offset(b, s))
  {
    hide Offset, Wrap;
    WrapAdd(s + Offset(a, s), Offset(b, s));
    var back: int := 0 - (s as int);
    WrapAdd(s + Offset(a, s) + Offset(b, s), back);
  }

  /** No break between the last one at or below `x` and `x`. */
  lemma {:induction false} NextBreak(breaks: seq<I64>, t: Table, k: nat, x: I64, y: I64)
    requires Increasing(breaks) && k < |breaks| && breaks[k] < y <= x && (k + 1 < |breaks| ==> x < breaks[k + 1])
    requires forall v: I64 :: HasSource(t, v) ==> v in breaks
    ensures !HasSource(t, y)
  {
    if HasSource(t, y) {
      var j :| 0 <= j < |breaks| && breaks[j] == y;
    }
  }

  lemma {:induction false} SumAt(a: Table, b: Table, breaks: seq<I64>, x: I64)
    requires Sorted(a) && Sorted(b) && Increasing(breaks) && |breaks| > 0 && |a| > 0 && |b| > 0
    requires forall v: I64 :: v in breaks <==> HasSource(a, v) || HasSource(b, v)
    ensures Strict(SumTable(a, b, breaks))
    ensures Offset(SumTable(a, b, breaks), x) == Wrap(Offset(a, x) + Offset(b, x))
  {
    hide Offset, Delta, SumEntry, Wrap;
    var r := SumTable(a, b, breaks);
    assert forall i :: 0 <= i < |r| ==> r[i].source == breaks[i] by { SumSources(a, b, breaks); }
    var last := breaks[|breaks| - 1];
    if breaks[0] <= x {
      var k := Find(r, x);
      var p := breaks[k];
      forall y: I64 | p < y <= x ensures !HasSource(a, y) && !HasSource(b, y) {
        NextBreak(breaks, a, k, x, y);
        NextBreak(breaks, b, k, x, y);
      }
      NoBreakBetween(a, p, x);
      NoBreakBetween(b, p, x);
      SumEntryDelta(a, b, p);
      OffsetIs(r, x, k);
    } else {
      BelowAll(a, breaks, x);
      BelowAll(b, breaks, x);
      SumEntryDelta(a, b, last);
      AfterLast(r, x);
    }
  }

  lemma {:induction false} OffsetIs(t: Table, x: I64, k: nat)
    requires Sorted(t) && |t| > 0 && t[0].source <= x && k == Find(t, x)
    ensures Offset(t, x) == Delta(t[k])
  {
  }

  lemma {:induction false} SumSources(a: Table, b: Table, breaks: seq<I64>)
    requires Sorted(a) && Sorted(b)
    ensures forall i :: 0 <= i < |breaks| ==> SumTable(a, b, breaks)[i].source == breaks[i]
  {
  }

  /** Below every break, each table stands at its last offset, as it does at the last break. */
  lemma {:induction false} BelowAll(t: Table, breaks: seq<I64>, x: I64)
    requires Sorted(t) && |t| > 0 && Increasing(breaks) && |breaks| > 0 && x < breaks[0]
    requires forall v: I64 :: HasSource(t, v) ==> v in breaks
    ensures Offset(t, x) == Offset(t, breaks[|breaks| - 1])
  {
    assert HasSource(t, t[0].source) && HasSource(t, t[|t| - 1].source);
    AfterLast(t, x);
    AfterLast(t, breaks[|breaks| - 1]);
  }

  /** Drop entries that repeat the offset before them; a repeated source keeps the later entry. */
  method DedupOffsets(t: Table) returns (r: Table)
    requires Strict(t)
    ensures r == Squeeze(t)
  {
    hide Delta;
    r := [];
    for i := 0 to |t|
      invariant r == Squeeze(t[..i])
    {
      assert t[..i + 1][..i] == t[..i];
      if |r| == 0 || Delta(r[|r| - 1]) != Delta(t[i]) {
        r := r + [t[i]];
      }
    }
    assert t[..|t|] == t;
  }

  /** The sum of two maps: offsets add up at every position. An empty table adds nothing. */
  method Sum(a: Table, b: Table) returns (r: Table)
    requires Sorted(a) && Sorted(b)
    ensures Sorted(r) && forall x: I64 :: Offset(r, x) == Wrap(Offset(a, x) + Offset(b, x))
  {
    hide Offset, Delta, Wrap, SumEntry, GetRift, AddSources;
    if |a| == 0 {
      AddsNothing(b);
      return b;
    }
    if |b| == 0 {
      AddsNothing(a);
      return a;
    }
    var breaks := AddSources(AddSources([], a), b);
    SumEverywhere(a, b, breaks);
    var out := EmitSums(a, b, breaks);
    SortKeepsSorted(out);
    out := SortBySource(out);
    SqueezeSameMap(out);
    r := DedupOffsets(out);
  }

  method EmitSums(a: Table, b: Table, breaks: seq<I64>) returns (out: Table)
    requires Sorted(a) && Sorted(b)
    ensures out == SumTable(a, b, breaks)
  {
    out := [];
    for k := 0 to |breaks|
      invariant out == SumTable(a, b, breaks)[..k]
    {
      out := out + [SumEntry(a, b, breaks[k])];
    }
  }

  lemma {:induction false} SumEverywhere(a: Table, b: Table, breaks: seq<I64>)
    requires Sorted(a) && Sorted(b) && |a| > 0 && |b| > 0 && breaks == AddSources(AddSources([], a), b)
    ensures Strict(SumTable(a, b, breaks))
    ensures forall x: I64 :: Offset(SumTable(a, b, breaks), x) == Wrap(Offset(a, x) + Offset(b, x))
  {
    hide Offset, Delta, Wrap, SumEntry;
    assert HasSource(a, a[0].source);
    SumAt(a, b, breaks, 0);
    forall x: I64 ensures Offset(SumTable(a, b, breaks), x) == Wrap(Offset(a, x) + Offset(b, x)) {
      SumAt(a, b, breaks, x);
    }
  }

  lemma {:induction false} AddsNothing(t: Table)
    requires Sorted(t)
    ensures forall x: I64 :: Wrap(Offset([], x) + Offset(t, x)) == Offset(t, x)
    ensures forall x: I64 :: Wrap(Offset(t, x) + Offset([], x)) == Offset(t, x)
  {
  }
}
