/** The normal form of rift tables: duplicate sources are settled by a vote, breakpoints that change
    nothing are dropped, also around the end of the position range. Two tables denote the same map
    exactly when their normal forms are equal. */
module RiftNormal {
  import opened Rift

  const UNSET_TARGET := MAX64

  predicate Strict(t: Table) {
    forall i, j :: 0 <= i < j < |t| ==> t[i].source < t[j].source
  }

  predicate SameMap(a: Table, b: Table)
    requires Sorted(a) && Sorted(b)
  {
    forall x: I64 :: Offset(a, x) == Offset(b, x)
  }

  // --- Dropping breakpoints that change nothing ---

  function Push(kept: Table, e: Entry): Table {
    if |kept| > 0 && Delta(kept[|kept| - 1]) == Delta(e) then kept else kept + [e]
  }

  function Squeeze(t: Table): Table {
    if |t| == 0 then [] else Push(Squeeze(t[..|t| - 1]), t[|t| - 1])
  }

  /** No two neighbours have the same offset. */
  predicate Alternating(t: Table) {
    forall i :: 0 < i < |t| ==> Delta(t[i - 1]) != Delta(t[i])
  }

  lemma {:induction false} SqueezeShape(t: Table)
    requires Strict(t) && |t| > 0
    ensures var r := Squeeze(t);
            && Strict(r) && Alternating(r) && |r| > 0 && r[0] == t[0]
            && r[|r| - 1].source <= t[|t| - 1].source && Delta(r[|r| - 1]) == Delta(t[|t| - 1])
  {
    hide Delta;
    if |t| > 1 {
      SqueezeShape(t[..|t| - 1]);
    } else {
      assert Squeeze(t) == [t[0]] by { assert t[..0] == []; }
    }
  }

  lemma {:induction false} ExtendAt(t: Table, e: Entry, x: I64)
    requires Strict(t + [e]) && |t| > 0 && t[0].source <= x
    ensures Strict(t) && Offset(t + [e], x) == if x < e.source then Offset(t, x) else Delta(e)
  {
    var r := t + [e];
    assert Strict(t) by {
      forall i, j | 0 <= i < j < |t| ensures t[i].source < t[j].source {
        assert r[i].source < r[j].source;
      }
    }
    if x < e.source {
      assert r[..|t|] == t;
    }
  }

  lemma {:induction false} AfterLast(t: Table, x: I64)
    requires Sorted(t) && |t| > 0 && (x < t[0].source || t[|t| - 1].source <= x)
    ensures Offset(t, x) == Delta(t[|t| - 1])
  {
  }

  lemma {:induction false} SqueezeKeeps(t: Table, x: I64)
    requires Strict(t) && |t| > 0 && t[0].source <= x
    ensures Strict(Squeeze(t)) && Offset(Squeeze(t), x) == Offset(t, x)
  {
    hide Delta, Offset, Alternating;
    SqueezeShape(t);
    if |t| > 1 {
      var front, e := t[..|t| - 1], t[|t| - 1];
      assert t == front + [e];
      SqueezeShape(front);
      SqueezeKeeps(front, x);
      ExtendAt(front, e, x);
      var kept := Squeeze(front);
      if Delta(kept[|kept| - 1]) != Delta(e) {
        ExtendAt(kept, e, x);
      } else if x >= e.source {
        AfterLast(kept, x);
      }
    } else {
      assert t == [t[0]];
      assert Squeeze(t) == [t[0]] by { assert t[..0] == []; }
    }
  }

  lemma {:induction false} SqueezeSameMap(t: Table)
    requires Strict(t)
    ensures Strict(Squeeze(t)) && SameMap(Squeeze(t), t)
  {
    if |t| > 0 {
      SqueezeShape(t);
      forall x: I64 ensures Offset(Squeeze(t), x) == Offset(t, x) {
        if t[0].source <= x {
          SqueezeKeeps(t, x);
        }
      }
    }
  }

  // --- Closing the cycle ---

  /** The highest position is followed by the lowest one: a first segment that continues the last one
      is dropped, and a constant map is written as one entry at 0, or as none if it is the identity. */
  function Close(t: Table): Table {
    if |t| == 0 then []
    else if |t| == 1 then
      if Delta(t[0]) == 0 then [] else [Entry(0, Delta(t[0]))]
    else if Delta(t[0]) == Delta(t[|t| - 1]) then t[1..]
    else t
  }

  lemma {:induction false} CloseSameMap(t: Table)
    requires Strict(t) && Alternating(t)
    ensures Strict(Close(t)) && SameMap(Close(t), t)
  {
    if |t| > 1 && Delta(t[0]) == Delta(t[|t| - 1]) {
      assert |t| > 2;
      forall x: I64 ensures Offset(t[1..], x) == Offset(t, x) {
        DropFirst(t, x);
      }
    }
  }

  lemma {:induction false} DropFirst(t: Table, x: I64)
    requires Strict(t) && |t| > 2 && Delta(t[0]) == Delta(t[|t| - 1])
    ensures Strict(t[1..]) && Offset(t[1..], x) == Offset(t, x)
  {
    if t[1].source <= x {
      var i := Find(t[1..], x);
      FindIs(t, x, i + 1);
    } else if t[0].source <= x {
      FindIs(t, x, 0);
    }
  }

  predicate NormalForm(t: Table) {
    && Strict(t) && Alternating(t)
    && (|t| == 1 ==> t[0].source == 0 && Delta(t[0]) != 0)
    && (|t| > 1 ==> Delta(t[0]) != Delta(t[|t| - 1]))
  }

  lemma {:induction false} CloseNormal(t: Table)
    requires Strict(t) && Alternating(t)
    ensures NormalForm(Close(t))
  {
  }

  // --- Normal forms are unique ---

  function Before(x: I64): I64 {
    if x == MIN64 then MAX64 else x - 1
  }

  predicate HasSource(t: Table, x: I64) {
    exists i :: 0 <= i < |t| && t[i].source == x
  }

  /** The sources of a normal form are exactly the positions where the offset changes. */
  lemma {:induction false} SourcesAreBreaks(t: Table, x: I64)
    requires NormalForm(t) && |t| > 1
    ensures HasSource(t, x) <==> Offset(t, x) != Offset(t, Before(x))
  {
    hide Delta;
    if i :| 0 <= i < |t| && t[i].source == x {
      FindIs(t, x, i);
      if i > 0 {
        FindIs(t, Before(x), i - 1);
      } else {
        AfterLast(t, Before(x));
      }
    } else if t[0].source <= x {
      FindIs(t, Before(x), Find(t, x));
    } else {
      AfterLast(t, x);
      AfterLast(t, Before(x));
    }
  }

  lemma {:induction false} SameSources(a: Table, b: Table, i: nat)
    requires Strict(a) && Strict(b) && i < |a|
    requires forall x: I64 :: HasSource(a, x) <==> HasSource(b, x)
    ensures i < |b| && a[i].source == b[i].source
  {
    if i > 0 {
      SameSources(a, b, i - 1);
    }
    forall k | 0 <= k < i ensures k < |b| && a[k].source == b[k].source {
      SameSources(a, b, k);
    }
    assert HasSource(a, a[i].source);
    var j :| 0 <= j < |b| && b[j].source == a[i].source;
    if j > i {
      assert HasSource(b, b[i].source);
      var m :| 0 <= m < |a| && a[m].source == b[i].source;
    }
  }

  lemma {:induction false} ConstantMap(t: Table, x: I64)
    requires NormalForm(t) && |t| <= 1
    ensures Offset(t, x) == if |t| == 0 then 0 else Delta(t[0])
  {
  }

  lemma {:induction false} TargetOf(e: Entry)
    ensures e.target == Wrap(e.source + Delta(e))
  {
    WrapAdd(e.target - e.source, e.source);
  }

  lemma {:induction false} OffsetAtSource(t: Table, i: nat)
    requires Strict(t) && i < |t|
    ensures Offset(t, t[i].source) == Delta(t[i])
  {
    FindIs(t, t[i].source, i);
  }

  lemma {:induction false} BothChange(a: Table, b: Table)
    requires NormalForm(a) && NormalForm(b) && SameMap(a, b) && |a| > 1
    ensures |b| > 1
  {
    var x := a[0].source;
    assert HasSource(a, x);
    SourcesAreBreaks(a, x);
    if |b| <= 1 {
      ConstantMap(b, x);
      ConstantMap(b, Before(x));
    }
  }

  lemma {:induction false} NormalFormUnique(a: Table, b: Table)
    requires NormalForm(a) && NormalForm(b) && SameMap(a, b)
    ensures a == b
  {
    hide Offset, Delta, Find, NormalForm, Alternating;
    assert Strict(a) && Strict(b) by { StrictForms(a); StrictForms(b); }
    if |a| > 1 || |b| > 1 {
      SameBreaks(a, b);
      forall i | 0 <= i < |a| ensures i < |b| && a[i].source == b[i].source {
        SameSources(a, b, i);
      }
      SameSources(a, b, |a| - 1);
      SameSources(b, a, |b| - 1);
    } else {
      ConstantsEqual(a, b);
    }
    assert |a| == |b|;
    forall i | 0 <= i < |a| ensures a[i] == b[i] {
      OffsetAtSource(a, i);
      OffsetAtSource(b, i);
      assert a[i].source == b[i].source;
      TargetOf(a[i]);
      TargetOf(b[i]);
    }
  }

  lemma {:induction false} StrictForms(t: Table)
    requires NormalForm(t)
    ensures Strict(t)
  {
  }

  lemma {:induction false} SameBreaks(a: Table, b: Table)
    requires NormalForm(a) && NormalForm(b) && SameMap(a, b) && (|a| > 1 || |b| > 1)
    ensures |a| > 1 && |b| > 1 && forall x: I64 :: HasSource(a, x) <==> HasSource(b, x)
  {
    hide Offset, Delta, HasSource, NormalForm, Alternating;
    assert Strict(a) && Strict(b) by { StrictForms(a); StrictForms(b); }
    if |a| > 1 {
      BothChange(a, b);
    } else {
      BothChange(b, a);
    }
    forall x: I64 ensures HasSource(a, x) <==> HasSource(b, x) {
      SourcesAreBreaks(a, x);
      SourcesAreBreaks(b, x);
    }
  }

  lemma {:induction false} ConstantsEqual(a: Table, b: Table)
    requires NormalForm(a) && NormalForm(b) && SameMap(a, b) && |a| <= 1 && |b| <= 1
    ensures |a| == |b| && (|a| == 1 ==> a[0].source == b[0].source)
  {
    ConstantMap(a, 0);
    ConstantMap(b, 0);
  }
}
