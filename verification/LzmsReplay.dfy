/** Replaying items in the output buffer: the copies as they run, against the byte-by-byte meaning. */
module LzmsReplay {
  import opened Powers
  import opened RangeCoding
  import opened LzmsItems
  import opened LzmsCodec

  // --- Overlapping copies ---

  lemma {:induction false} NextResidue(i: nat, m: nat)
    requires i >= 1 && m >= 1
    ensures i % m == if (i - 1) % m == m - 1 then 0 else (i - 1) % m + 1
  {
    var q, r := (i - 1) / m, (i - 1) % m;
    assert i - 1 == m * q + r;
    if r == m - 1 {
      assert i == m * (q + 1);
      ResidueIs(i, m, q + 1, 0);
    } else {
      ResidueIs(i, m, q, r + 1);
    }
  }

  lemma {:induction false} ResidueIs(i: nat, m: nat, q: nat, r: nat)
    requires r < m && i == m * q + r
    ensures i % m == r
  {
    assert i / m == q by { DivUnique(i, m, q, r); }
  }

  /** A copy at distance `offset` repeats the last `offset` bytes. */
  lemma {:induction false} LzCopyAt(out: seq<Byte>, offset: nat, n: nat, i: nat)
    requires 1 <= offset <= |out| && i < n
    ensures LzCopy(out, offset, n)[|out| + i] == out[|out| - offset + i % offset]
    decreases n
  {
    var next := out + [out[|out| - offset]];
    if i == 0 {
      assert next <= LzCopy(next, offset, n - 1);
    } else {
      LzCopyAt(next, offset, n - 1, i - 1);
      NextResidue(i, offset);
    }
  }

  /** `memmove` inside one buffer. */
  method CopyWithin(out: array<Byte>, src: nat, n: nat, dst: nat)
    requires src + n <= out.Length && dst + n <= out.Length
    modifies out
    ensures Copied(old(out[..]), out[..], src, n, dst)
  {
    forall i | 0 <= i < n {
      out[dst + i] := out[src + i];
    }
  }

  predicate Multiple(n: nat, m: nat) {
    m >= 1 && n % m == 0
  }

  lemma {:induction false} AddMultiple(i: nat, done: nat, m: nat)
    requires Multiple(done, m)
    ensures (done + i) % m == i % m
  {
    var q := done / m;
    assert done == m * q;
    Distribute(q, i / m, m);
    ResidueIs(done + i, m, q + i / m, i % m);
  }

  lemma {:induction false} Multiples(done: nat, m: nat)
    requires m >= 1
    ensures Multiple(m, m) && (Multiple(done, m) ==> Multiple(done + done, m))
  {
    if Multiple(done, m) {
      AddMultiple(done, done, m);
    }
  }

  /** `result` begins with `before` and `done` bytes that repeat its last `offset` bytes. */
  predicate Repeats(result: seq<Byte>, before: seq<Byte>, offset: nat, done: nat) {
    && 1 <= offset <= |before| && |before| + done <= |result|
    && (forall k :: 0 <= k < |before| ==> result[k] == before[k])
    && (forall i :: 0 <= i < done ==> result[|before| + i] == before[|before| - offset + i % offset])
  }

  predicate Copied(s: seq<Byte>, t: seq<Byte>, src: nat, n: nat, dst: nat) {
    src + n <= |s| && dst + n <= |s| && t == s[..dst] + s[src..src + n] + s[dst + n..]
  }

  lemma {:induction false} FirstCopy(s: seq<Byte>, t: seq<Byte>, pos: nat, offset: nat, n: nat)
    requires 1 <= offset <= pos <= |s| && n <= offset && Copied(s, t, pos - offset, n, pos)
    ensures Repeats(t, s[..pos], offset, n)
  {
    forall i | 0 <= i < n ensures t[pos + i] == s[pos - offset + i % offset] {
      if i < offset {
        ResidueIs(i, offset, 0, i);
      }
    }
  }

  lemma {:induction false} Doubled(s: seq<Byte>, t: seq<Byte>, before: seq<Byte>, offset: nat, done: nat, chunk: nat)
    requires Repeats(s, before, offset, done) && Multiple(done, offset) && chunk <= done
    requires Copied(s, t, |before|, chunk, |before| + done)
    ensures Repeats(t, before, offset, done + chunk)
  {
    forall i | 0 <= i < done + chunk ensures t[|before| + i] == before[|before| - offset + i % offset] {
      if i >= done {
        AddMultiple(i - done, done, offset);
        assert t[|before| + i] == s[|before| + (i - done)];
      }
    }
  }

  /** From one period to `n` bytes: each step copies everything produced so far. */
  method ExtendRun(out: array<Byte>, ghost before: seq<Byte>, pos: nat, offset: nat, n: nat)
    requires |before| == pos && pos + n <= out.Length && 1 <= offset <= n && Multiple(offset, offset)
    requires Repeats(out[..], before, offset, offset)
    modifies out
    ensures Repeats(out[..], before, offset, n)
  {
    hide Repeats, Copied, Multiple;
    var done := offset;
    while done < n
      invariant offset <= done <= n && (done == n || Multiple(done, offset))
      invariant Repeats(out[..], before, offset, done)
    {
      ghost var cur := out[..];
      var chunk := if n - done <= done then n - done else done;
      Multiples(done, offset);
      CopyWithin(out, pos, chunk, pos + done);
      Doubled(cur, out[..], before, offset, done, chunk);
      done := done + chunk;
    }
  }

  /** An overlapping run is built by doubling, which ends because no offset is 0. */
  method CopyMatch(out: array<Byte>, pos: nat, offset: nat, n: nat)
    requires 1 <= offset <= pos && pos + n <= out.Length
    modifies out
    ensures out[..pos + n] == LzCopy(old(out[..pos]), offset, n)
  {
    hide Repeats, Copied, Multiple, LzCopy;
    ghost var cur := out[..];
    ghost var before := cur[..pos];
    assert before == out[..pos];
    if offset >= n {
      CopyWithin(out, pos - offset, n, pos);
      FirstCopy(cur, out[..], pos, offset, n);
    } else {
      CopyWithin(out, pos - offset, offset, pos);
      FirstCopy(cur, out[..], pos, offset, offset);
      Multiples(0, offset);
      ExtendRun(out, before, pos, offset, n);
    }
    CopyIs(out[..], before, offset, n);
  }

  lemma {:induction false} CopyIs(result: seq<Byte>, before: seq<Byte>, offset: nat, n: nat)
    requires Repeats(result, before, offset, n)
    ensures result[..|before| + n] == LzCopy(before, offset, n)
  {
    var copy := LzCopy(before, offset, n);
    forall k | 0 <= k < |before| + n ensures result[k] == copy[k] {
      if k >= |before| {
        LzCopyAt(before, offset, n, k - |before|);
        assert k == |before| + (k - |before|);
      }
    }
  }

  // --- Delta copies ---

  lemma {:induction false} DeltaCopyNext(out: seq<Byte>, offset: nat, span: nat, n: nat)
    requires 1 <= offset && 1 <= span && offset + span <= |out|
    ensures var r := DeltaCopy(out, offset, span, n);
            DeltaCopy(out, offset, span, n + 1) == r + [DeltaByte(r, |r|, offset, span)]
    decreases n
  {
    hide DeltaByte;
    var next := out + [DeltaByte(out, |out|, offset, span)];
    if n == 0 {
      assert DeltaCopy(next, offset, span, 0) == next;
    } else {
      DeltaCopyNext(next, offset, span, n - 1);
    }
  }

  method CopyDelta(out: array<Byte>, pos: nat, offset: nat, span: nat, n: nat)
    requires 1 <= offset && 1 <= span && offset + span <= pos && pos + n <= out.Length
    modifies out
    ensures out[..pos + n] == DeltaCopy(old(out[..pos]), offset, span, n)
  {
    ghost var before := out[..pos];
    for i := 0 to n
      invariant out[..pos + i] == DeltaCopy(before, offset, span, i)
    {
      DeltaCopyNext(before, offset, span, i);
      ghost var r := out[..pos + i];
      var s := pos + i - offset;
      var a: nat, b: nat, c: nat := out[s], out[pos + i - span], out[s - span];
      out[pos + i] := ((a + b) % 0x100 + 0x100 - c) % 0x100;
      assert out[pos + i] == DeltaByte(r, |r|, offset, span);
      assert out[..pos + i + 1] == r + [out[pos + i]];
    }
  }

  /** Replay one item at `pos`; the result is the position after it. */
  method ReplayInPlace(out: array<Byte>, pos: nat, item: Item) returns (r: Result<nat>)
    requires pos < out.Length && Replayable(item)
    modifies out
    ensures match Replay(old(out[..pos]), item, out.Length - pos)
            case Err(e) => r == Err(e)
            case Ok(v) => r == Ok(|v|) && |v| <= out.Length && out[..|v|] == v
  {
    match item
    case Literal(b) =>
      out[pos] := b;
      r := Ok(pos + 1);
    case LzMatch(_, offset, length) =>
      if offset > pos {
        return Err(OffsetPastStart);
      }
      var n := Min(length, out.Length - pos);
      CopyMatch(out, pos, offset, n);
      r := Ok(pos + n);
    case DeltaMatch(_, rawOffset, power, length) =>
      var span := Pow2(power);
      var offset := rawOffset * span;
      if offset + span > pos {
        return Err(DeltaPastStart);
      }
      MulMonotone(span, 1, rawOffset);
      var n := Min(length, out.Length - pos);
      CopyDelta(out, pos, offset, span, n);
      r := Ok(pos + n);
  }
}
