/** The adaptive state of LZMS as objects, shared by encoder and decoder: the five adaptive codes and the
    queues of recent offsets. */
module LzmsModel {
  import opened BitStrings
  import opened CanonicalCode
  import opened AdaptiveCodes
  import opened SlotTables
  import opened LzmsCoder
  import opened LzmsItems

  datatype Five<T> = Five(literals: T, lzOffsets: T, lengths: T, deltaOffsets: T, deltaPowers: T)
  {
    function ByAlphabet(): (m: map<Alphabet, T>)
      ensures forall a :: a in m && m[a] == Get(a)
    {
      map a: Alphabet | true :: Get(a)
    }

    function Get(a: Alphabet): T {
      match a
      case LiteralSyms => literals
      case LzOffsetSyms => lzOffsets
      case LengthSyms => lengths
      case DeltaOffsetSyms => deltaOffsets
      case DeltaPowerSyms => deltaPowers
    }
  }

  ghost predicate IsNew(code: AdaptiveCode, a: Alphabet, slots: nat)
    requires slots <= MAX_OFFSET_SLOTS
    reads code
  {
    code.Valid() && code.Value() == NewCode(NumSyms(a, slots), RebuildFreq(a))
  }

  method AllocateCode(a: Alphabet, slots: nat) returns (code: AdaptiveCode)
    requires slots <= MAX_OFFSET_SLOTS
    ensures fresh(code) && IsNew(code, a, slots)
  {
    hide AdaptiveCode.Valid, NewCode;
    code := new AdaptiveCode(NumSyms(a, slots), RebuildFreq(a));
  }

  /** The five adaptive codes of a new stream. */
  method AllocateCodes(slots: nat) returns (codes: map<Alphabet, AdaptiveCode>)
    requires slots <= MAX_OFFSET_SLOTS
    ensures fresh(codes.Values) && forall a: Alphabet :: a in codes
    ensures forall a, b: Alphabet :: codes[a] == codes[b] ==> a == b
    ensures forall a: Alphabet :: IsNew(codes[a], a, slots)
  {
    hide IsNew;
    var literals := AllocateCode(LiteralSyms, slots);
    var lzOffsets := AllocateCode(LzOffsetSyms, slots);
    var lengths := AllocateCode(LengthSyms, slots);
    var deltaOffsets := AllocateCode(DeltaOffsetSyms, slots);
    var deltaPowers := AllocateCode(DeltaPowerSyms, slots);
    codes := Five(literals, lzOffsets, lengths, deltaOffsets, deltaPowers).ByAlphabet();
  }

  lemma {:induction false} NewModelIs(size: nat, bases: seq<nat>, slots: nat, codes: map<Alphabet, Code>)
    requires OffsetTable(bases) && slots == NumOffsetSlots(bases, size)
    requires forall a: Alphabet :: a in codes && codes[a] == NewCode(NumSyms(a, slots), RebuildFreq(a))
    ensures Model(size, bases, NewContexts(), codes) == NewModel(size, bases)
  {
    assert codes == NewCodes(slots);
  }

  lemma {:induction false} OffsetTableSize(bases: seq<nat>)
    requires OffsetTable(bases)
    ensures |bases| == MAX_OFFSET_SLOTS + 1
  {
  }

  lemma {:induction false} ModelCodes(m: Model, a: Alphabet)
    requires ValidModel(m)
    ensures a in m.codes && ValidCode(m.codes[a]) && |m.codes[a].freqs| == NumSyms(a, m.Slots())
  {
  }

  lemma {:induction false} ModelContext(m: Model, d: Decision)
    requires ValidModel(m)
    ensures d in m.contexts && ValidContext(m.contexts[d], NumStates(d))
    ensures forall bit: Bit :: ValidModel(SetContext(m, d, bit))
  {
  }

  /** Counting a symbol changes one code and leaves the others. */
  lemma {:induction false} CodeSet(m: Model, a: Alphabet, sym: nat, codes: map<Alphabet, Code>)
    requires ValidModel(m) && sym < NumSyms(a, m.Slots())
    requires forall b: Alphabet :: b in codes && codes[b] == if b == a then Observe(m.codes[a], sym) else m.codes[b]
    ensures m.(codes := codes) == SetCode(m, a, sym)
    ensures ValidModel(m.(codes := codes))
  {
    assert codes == m.codes[a := Observe(m.codes[a], sym)];
  }

  // --- Queues of recent offsets ---

  method QueuePush<T>(q: array<T>, v: T)
    requires q.Length == 4
    modifies q
    ensures q[..] == PushFront(old(q[..]), v)
  {
    q[3] := q[2];
    q[2] := q[1];
    q[1] := q[0];
    q[0] := v;
  }

  method QueueMoveToFront<T>(q: array<T>, idx: nat)
    requires q.Length == 4 && idx < 4
    modifies q
    ensures q[..] == MoveToFront(old(q[..]), idx)
  {
    var v := q[idx];
    var i := idx;
    while i > 0
      invariant 0 <= i <= idx
      invariant forall k :: 0 <= k < 4 ==> q[k] == if i < k <= idx then old(q[k - 1]) else old(q[k])
    {
      q[i] := q[i - 1];
      i := i - 1;
    }
    q[0] := v;
  }

  class RecentOffsets {
    const lz: array<nat>
    const delta: array<(nat, nat)>
    var prevType: nat

    ghost function Value(): History
      reads this, lz, delta
    {
      History(lz[..], delta[..], prevType)
    }

    ghost predicate Valid()
      reads this, lz, delta
    {
      ValidHistory(Value())
    }

    constructor ()
      ensures Valid() && fresh(lz) && fresh(delta) && Value() == INITIAL_HISTORY
    {
      lz := new nat[4](i => i + 1);
      delta := new (nat, nat)[4](i => (i + 1, 0));
      prevType := 0;
      new;
      assert lz[..] == [1, 2, 3, 4];
      assert delta[..] == [(1, 0), (2, 0), (3, 0), (4, 0)];
    }

    /** The first repeat code that names `offset`, if any. */
    method FindLz(offset: nat) returns (rep: Option<nat>)
      requires Valid()
      ensures rep.Some? ==> rep.value < 3 && lz[LzPosition(Value(), rep.value)] == offset
      ensures rep.None? ==> forall r :: 0 <= r < 3 ==> lz[LzPosition(Value(), r)] != offset
    {
      for r := 0 to 3
        invariant forall k :: 0 <= k < r ==> lz[LzPosition(Value(), k)] != offset
      {
        if lz[Min(r + prevType % 2, 3)] == offset {
          return Some(r);
        }
      }
      rep := None;
    }

    method FindDelta(pair: (nat, nat)) returns (rep: Option<nat>)
      requires Valid()
      ensures rep.Some? ==> rep.value < 3 && delta[DeltaPosition(Value(), rep.value)] == pair
      ensures rep.None? ==> forall r :: 0 <= r < 3 ==> delta[DeltaPosition(Value(), r)] != pair
    {
      for r := 0 to 3
        invariant forall k :: 0 <= k < r ==> delta[DeltaPosition(Value(), k)] != pair
      {
        if delta[Min(r + prevType / 2 % 2, 3)] == pair {
          return Some(r);
        }
      }
      rep := None;
    }

    /** Update the queues after an item. */
    method Record(item: Item)
      requires Valid() && Replayable(item)
      modifies this, lz, delta
      ensures Valid() && Value() == After(old(Value()), item)
    {
      match item
      case Literal(_) =>
        prevType := 0;
      case LzMatch(rep, offset, _) =>
        match rep {
          case None => QueuePush(lz, offset);
          case Some(r) => QueueMoveToFront(lz, Min(r + prevType % 2, 3));
        }
        prevType := 1;
      case DeltaMatch(rep, offset, power, _) =>
        match rep {
          case None => QueuePush(delta, (offset, power));
          case Some(r) => QueueMoveToFront(delta, Min(r + prevType / 2 % 2, 3));
        }
        prevType := 2;
    }
  }
}
