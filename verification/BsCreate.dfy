/** Making a block patch. Whatever the match search answers, the loop ends and the patch makes the target of the
    source. */
module BsCreate {
  import opened RangeCoding
  import opened Rift
  import opened CanonicalCode
  import opened BsPatch
  import opened SuffixSorting

  const MIN_MATCH := 8

  /** Positions in the source and control values fit. */
  const MAX_SOURCE := 0x4000_0000_0000_0000

  predicate Matches(source: seq<Byte>, p: int, target: seq<Byte>, j: nat)
    requires j < |target|
  {
    0 <= p < |source| && source[p] == target[j]
  }

  /** How many of `n` bytes of the target from `j` on are those of the source from `p` on. */
  function Score(source: seq<Byte>, p: int, target: seq<Byte>, j: nat, n: nat): (c: nat)
    requires j + n <= |target|
    ensures c <= n
  {
    if n == 0 then 0
    else Score(source, p, target, j, n - 1) + if Matches(source, p + (n - 1), target, j + (n - 1)) then 1 else 0
  }

  /** The same backwards, for the `n` bytes before `j`. */
  function BackScore(source: seq<Byte>, p: int, target: seq<Byte>, j: nat, n: nat): (c: nat)
    requires n <= j <= |target|
    ensures c <= n
  {
    if n == 0 then 0
    else BackScore(source, p, target, j, n - 1) + if Matches(source, p - n, target, j - n) then 1 else 0
  }

  /** Of all extents that match in more than half of their bytes `n` is the shortest of those that match most. */
  predicate BestForward(source: seq<Byte>, p: int, target: seq<Byte>, j: nat, limit: nat, n: nat)
    requires j + limit <= |target|
  {
    n <= limit && (n == 0 || 2 * Score(source, p, target, j, n) > n)
    && forall i: nat :: i <= limit && 2 * Score(source, p, target, j, i) > i ==>
         var a, b := Score(source, p, target, j, i), Score(source, p, target, j, n); a < b || (a == b && n <= i)
  }

  predicate BestBackward(source: seq<Byte>, p: int, target: seq<Byte>, j: nat, limit: nat, n: nat)
    requires limit <= j <= |target|
  {
    n <= limit && (n == 0 || 2 * BackScore(source, p, target, j, n) > n)
    && forall i: nat :: i <= limit && 2 * BackScore(source, p, target, j, i) > i ==>
         var a, b := BackScore(source, p, target, j, i), BackScore(source, p, target, j, n); a < b || (a == b && n <= i)
  }

  // --- One round of the search ---

  /** The match that is tried at `scan`. The suffix array gives a longest one; nothing below depends on that. */
  method Probe(sa: seq<nat>, source: seq<Byte>, target: seq<Byte>, scan: nat) returns (pos: nat, len: nat)
    requires SuffixSorted(source, sa) && scan <= |target|
    ensures pos + len <= |source| && scan + len <= |target| && source[pos..pos + len] == target[scan..scan + len]
  {
    pos, len := FindMatch(sa, source, target[scan..]);
    assert target[scan..][..len] == target[scan..scan + len];
  }

  /** How many of the matched bytes the last offset explains too. */
  method OldScore(source: seq<Byte>, target: seq<Byte>, scan: nat, len: nat, offset: int) returns (score: nat)
    requires scan <= |target|
    ensures score == Score(source, scan + offset, target, scan, if len <= |target| - scan then len else |target| - scan)
  {
    score := 0;
    var n := if len <= |target| - scan then len else |target| - scan;
    for i := 0 to n
      invariant score == Score(source, scan + offset, target, scan, i)
    {
      if Matches(source, scan + offset + i, target, scan + i) {
        score := score + 1;
      }
    }
  }

  /** On to the next position whose match is worth a new block. */
  method NextMatch(sa: seq<nat>, source: seq<Byte>, target: seq<Byte>, from: nat, offset: int)
    returns (scan: nat, pos: nat, len: nat)
    requires SuffixSorted(source, sa)
    ensures from <= scan && pos <= |source|
    ensures scan < |target| ==>
              && pos + len <= |source| && scan + len <= |target| && source[pos..pos + len] == target[scan..scan + len]
              && len > Score(source, scan + offset, target, scan, len) + MIN_MATCH
  {
    scan, pos, len := from, 0, 0;
    while scan < |target|
      invariant from <= scan && pos <= |source|
    {
      pos, len := Probe(sa, source, target, scan);
      var score := OldScore(source, target, scan, len, offset);
      if len > score + MIN_MATCH {
        return;
      }
      scan := scan + 1;
    }
  }

  /** How far from `last` on the old offset explains more than half of the bytes. */
  method ForwardExtent(source: seq<Byte>, target: seq<Byte>, last: nat, scan: nat, lastPos: int) returns (n: nat)
    requires last < scan <= |target|
    ensures n <= scan - last && (Matches(source, lastPos, target, last) ==> n > 0)
    ensures BestForward(source, lastPos, target, last, scan - last, n)
  {
    n := 0;
    var s, best := 0, 0;
    for i := 0 to scan - last
      invariant n <= i && (i > 0 && Matches(source, lastPos, target, last) ==> n > 0)
      invariant i == 0 ==> s == 0 && best == 0
      invariant s == Score(source, lastPos, target, last, i) && best == Score(source, lastPos, target, last, n)
      invariant BestForward(source, lastPos, target, last, i, n)
    {
      if Matches(source, lastPos + i, target, last + i) {
        s := s + 1;
      }
      if s * 2 > i + 1 && s > best {
        best, n := s, i + 1;
      }
    }
  }

  /** How far back before `scan` the new match explains more than half; the extent ends with a byte that is equal. */
  method BackwardExtent(source: seq<Byte>, target: seq<Byte>, scan: nat, pos: nat, limit: nat) returns (n: nat)
    requires limit <= scan <= |target|
    ensures n <= limit && (n > 0 ==> Matches(source, pos - n, target, scan - n))
    ensures BestBackward(source, pos, target, scan, limit, n)
  {
    n := 0;
    var s, best := 0, 0;
    for i := 1 to limit + 1
      invariant n < i && (n > 0 ==> Matches(source, pos - n, target, scan - n))
      invariant s * 2 > i - 1 ==> best >= s
      invariant s == BackScore(source, pos, target, scan, i - 1) && best == BackScore(source, pos, target, scan, n)
      invariant BestBackward(source, pos, target, scan, i - 1, n)
    {
      if Matches(source, pos - i, target, scan - i) {
        s := s + 1;
      }
      if s * 2 > i && s > best {
        best, n := s, i;
      }
    }
  }

  // --- Emission ---

  /** The patch so far makes the target up to `done`, and leaves the source at `at`. */
  ghost predicate Emitted(source: seq<Byte>, target: seq<Byte>, patch: seq<Byte>, done: nat, at: int) {
    && done <= |target| && -|target| <= at <= |source| + |target|
    && exists blocks ::
         FitBlocks(blocks) && patch == BlocksBytes(blocks) && PlayBlocks(source, 0, blocks) == target[..done]
         && EndOf(0, blocks) == at
  }

  lemma {:induction false} NothingEmitted(source: seq<Byte>, target: seq<Byte>)
    ensures Emitted(source, target, [], 0, 0)
  {
    assert FitBlocks([]) && BlocksBytes([]) == [] && PlayBlocks(source, 0, []) == [] && EndOf(0, []) == 0;
  }

  predicate InRange(source: seq<Byte>, target: seq<Byte>) {
    |source| <= MAX_SOURCE && |target| <= MAX_CONTROL
  }

  /** The differences up to `mid`, literal bytes up to `end`, and a jump to `next`. */
  function EmittedBlock(source: seq<Byte>, target: seq<Byte>, done: nat, at: int, mid: nat, end: nat, next: int)
    : (b: Block)
    requires InRange(source, target) && done <= mid <= end <= |target|
    requires -|target| <= at <= |source| && -|target| <= next <= |source| + |target|
    ensures FitBlock(b)
  {
    Block(Difference(source, at, target[done..mid]), target[mid..end], next - (at + (mid - done)))
  }

  lemma {:induction false} EmitOne(source: seq<Byte>, target: seq<Byte>, patch: seq<Byte>, done: nat, at: int, mid: nat,
                                   end: nat, next: int)
    requires InRange(source, target) && Emitted(source, target, patch, done, at)
    requires done <= mid <= end <= |target| && at <= |source| && -|target| <= next <= |source| + |target|
    ensures var b := EmittedBlock(source, target, done, at, mid, end, next);
            Emitted(source, target, patch + BlockBytes(b), end, next)
  {
    hide BlockBytes, Added, Difference;
    var b := EmittedBlock(source, target, done, at, mid, end, next);
    var blocks :| FitBlocks(blocks) && patch == BlocksBytes(blocks) && PlayBlocks(source, 0, blocks) == target[..done]
                  && EndOf(0, blocks) == at;
    BlocksNext(blocks, b);
    PlayNext(source, 0, blocks, b);
    DifferenceAddsBack(source, at, target[done..mid]);
    assert target[..done] + (target[done..mid] + target[mid..end]) == target[..end];
    assert Moved(at, b) == next;
  }

  /** An emitted patch is applied to the target. */
  lemma {:induction false} EmittedApplies(source: seq<Byte>, target: seq<Byte>, patch: seq<Byte>, at: int)
    requires Emitted(source, target, patch, |target|, at)
    ensures Apply(source, |target|, 0, patch) == Some(target)
  {
    hide Apply, PlayBlocks;
    var blocks :| FitBlocks(blocks) && patch == BlocksBytes(blocks)
                  && PlayBlocks(source, 0, blocks) == target[..|target|] && EndOf(0, blocks) == at;
    assert target[..|target|] == target;
    ApplyBlocks(source, 0, blocks);
  }

  method WriteBlock(source: seq<Byte>, target: seq<Byte>, done: nat, at: int, mid: nat, end: nat, next: int)
    returns (bytes: seq<Byte>)
    requires InRange(source, target) && done <= mid <= end <= |target|
    requires -|target| <= at <= |source| && -|target| <= next <= |source| + |target|
    ensures bytes == BlockBytes(EmittedBlock(source, target, done, at, mid, end, next))
  {
    hide SignedBytes;
    var seek: int := next - (at + (mid - done));
    var diff := Differences(source, at, target[done..mid]);
    bytes := SignedBytes(mid - done) + SignedBytes(end - mid) + SignedBytes(seek) + diff + target[mid..end];
  }

  method Differences(source: seq<Byte>, at: int, bytes: seq<Byte>) returns (diff: seq<Byte>)
    requires MIN64 <= at && at + |bytes| <= MAX64
    ensures diff == Difference(source, at, bytes)
  {
    diff := [];
    for i := 0 to |bytes|
      invariant |diff| == i && forall k :: 0 <= k < i ==> diff[k] == Difference(source, at, bytes)[k]
    {
      var b: int := bytes[i];
      diff := diff + [(b - SourceAt(source, at + i)) % 0x100];
    }
  }

  /** 0 once the byte after the last block is the one the source continues with. */
  function Stalled(source: seq<Byte>, target: seq<Byte>, done: nat, at: int): nat {
    if done < |target| && Matches(source, at, target, done) then 0 else 1
  }

  /** The search position may move back, but two rounds always get further: a round that keeps `done` ends with the
      source at a byte that is equal, so the next one extends forward. */
  method Bscreate(source: seq<Byte>, target: seq<Byte>) returns (patch: seq<Byte>)
    requires InRange(source, target)
    ensures exists at :: Emitted(source, target, patch, |target|, at)
    ensures Apply(source, |target|, 0, patch) == Some(target)
  {
    hide Emitted, Apply, SuffixSorted, Matches, BlockBytes, EmittedBlock;
    patch := [];
    if |target| == 0 {
      NothingToApply(source, target);
      NothingEmitted(source, target);
      return;
    }
    var sa := SuffixArray(source);
    var scan, last: nat, lastPos: int, offset: int := 0, 0, 0, 0;
    NothingEmitted(source, target);
    while scan < |target|
      invariant last <= scan && Emitted(source, target, patch, last, lastPos)
      invariant last <= |target| && -|target| <= lastPos <= |source|
      decreases |target| - last, Stalled(source, target, last, lastPos)
    {
      var pos, len;
      scan, pos, len := NextMatch(sa, source, target, scan + 1, offset);
      if scan >= |target| {
        break;
      }
      var forward := ForwardExtent(source, target, last, scan, lastPos);
      var backward := BackwardExtent(source, target, scan, pos, scan - last - forward);
      var bytes := WriteBlock(source, target, last, lastPos, last + forward, scan - backward, pos - backward);
      EmitOne(source, target, patch, last, lastPos, last + forward, scan - backward, pos - backward);
      patch := patch + bytes;
      last, lastPos, offset := scan - backward, pos - backward, pos - scan;
      scan := last + len;
    }
    if last < |target| {
      var bytes := WriteBlock(source, target, last, lastPos, |target|, |target|, lastPos + (|target| - last));
      EmitOne(source, target, patch, last, lastPos, |target|, |target|, lastPos + (|target| - last));
      patch := patch + bytes;
      EmittedApplies(source, target, patch, lastPos + (|target| - last));
    } else {
      EmittedApplies(source, target, patch, lastPos);
    }
  }

  lemma {:induction false} NothingToApply(source: seq<Byte>, target: seq<Byte>)
    ensures |target| == 0 ==> Apply(source, |target|, 0, []) == Some(target)
  {
  }

  /** Applying what was made gives the target back, up to the size that is accepted. */
  method RoundTrip(source: seq<Byte>, target: seq<Byte>) returns (r: Option<seq<Byte>>)
    requires |source| <= MAX_SOURCE && |target| <= MAX_TARGET
    ensures r == Some(target)
  {
    hide Apply;
    var patch := Bscreate(source, target);
    r := Bspatch(source, |target|, patch);
  }
}
