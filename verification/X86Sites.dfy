/** What the x86 filter does, said without running it: which operands it makes absolute, and what is written there. */
module X86Sites {
  import opened RangeCoding
  import opened X86Filter

  /** An operand at `at` of an instruction at `pos`. */
  datatype Operand = Operand(pos: nat, at: nat, far: nat)

  /** The instructions with an operand: call, lea and mov relative to the instruction pointer, call through such an
      address, and a locked operation on one. */
  lemma {:induction false} SiteBytes(data: seq<Byte>, i: nat)
    requires i + 2 < |data|
    ensures var b0, b1, b2 := data[i], data[i + 1], data[i + 2];
            && (Classify(data, i) == Site(1, 511) <==> b0 == 0xE8)
            && (Classify(data, i) == Site(2, 1023) <==> b0 == 0xFF && b1 == 0x15)
            && (Classify(data, i) == Site(3, 1023) <==>
                  (b0 in {0x48, 0x4C} && b1 == 0x8D && b2 % 8 == 5) || (b0 == 0x48 && b1 == 0x8B && b2 in {0x05, 0x0D})
                  || (b0 == 0xF0 && b1 == 0x83 && b2 == 0x05))
            && (Classify(data, i) == Skip(5) <==> b0 == 0xE9)
  {
    var modrm: nat := data[i + 2];
    LowNibble(modrm);
  }

  lemma {:induction false} LowNibble(modrm: nat)
    ensures modrm % 8 == 5 && modrm < 0x10 <==> modrm == 0x05 || modrm == 0x0D
  {
  }

  /** The operands from `i` on; what lies in them plays no part. */
  function Operands(data: seq<Byte>, i: nat, limit: int): (ops: seq<Operand>)
    requires limit + 16 <= |data|
    ensures forall k: nat :: k < |ops| ==> i <= ops[k].pos < ops[k].at <= ops[k].pos + 3 && ops[k].pos < limit
    ensures forall j: nat, k: nat :: j < k < |ops| ==> ops[j].at + 4 <= ops[k].pos
    decreases limit - i
  {
    if i >= limit then []
    else
      match Classify(data, i)
      case Skip(n) => Operands(data, i + n, limit)
      case Site(n, far) => [Operand(i, i + n, far)] + Operands(data, i + n + 4, limit)
  }

  predicate Inside(data: seq<Byte>, ops: seq<Operand>) {
    forall k: nat :: k < |ops| ==> ops[k].at + 4 <= |data|
  }

  /** The low 16 bits of the address that a relative operand stands for. */
  function Target(data: seq<Byte>, o: Operand): (t: nat)
    requires o.at + 4 <= |data|
    ensures t < 0x1_0000
  {
    (o.pos + Le32(data, o.at)) % 0x1_0000
  }

  /** An earlier operand at most 65535 bytes back has the same target. */
  predicate Repeats(data: seq<Byte>, ops: seq<Operand>, k: nat)
    requires Inside(data, ops) && k < |ops|
  {
    exists m: nat :: m < k && Target(data, ops[m]) == Target(data, ops[k]) && ops[k].at - ops[m].at <= ID_WINDOW_SIZE
  }

  /** A repeated target lies close before the instruction. */
  predicate Translated(data: seq<Byte>, ops: seq<Operand>, k: nat)
    requires Inside(data, ops) && k < |ops|
  {
    exists m: nat :: m < k && Repeats(data, ops, m) && ops[k].pos - (ops[m].at + 3) <= ops[k].far
  }

  predicate InOperand(o: Operand, b: nat) {
    o.at <= b < o.at + 4
  }

  /** The value of operand `k` in the result: with the position added if it is translated. */
  function AbsoluteValue(data: seq<Byte>, ops: seq<Operand>, k: nat): nat
    requires Inside(data, ops) && k < |ops|
  {
    var v := Le32(data, ops[k].at);
    if Translated(data, ops, k) then (v + ops[k].pos) % 0x1_0000_0000 else v
  }

  predicate OutsideOperands(ops: seq<Operand>, n: nat, b: nat) {
    forall k: nat :: n <= k < |ops| ==> !InOperand(ops[k], b)
  }

  /** In `r` the operands from number `n` on have their absolute values; all other bytes are those of `cur`. */
  ghost predicate Absolute(data: seq<Byte>, cur: seq<Byte>, ops: seq<Operand>, n: nat, r: seq<Byte>)
    requires Inside(data, ops)
  {
    && |r| == |cur| == |data|
    && (forall k: nat :: n <= k < |ops| ==> Le32(r, ops[k].at) == AbsoluteValue(data, ops, k))
    && (forall b: nat :: b < |r| && OutsideOperands(ops, n, b) ==> r[b] == cur[b])
  }

  // --- What the pass remembers ---

  ghost predicate KnowsUsages(data: seq<Byte>, ops: seq<Operand>, n: nat, a: Activity)
    requires Inside(data, ops) && n <= |ops| && ValidActivity(a)
  {
    forall t: nat :: t < 0x1_0000 ==> KnowsUsage(data, ops, n, a.usages[t], t)
  }

  /** The end of the last of the first `n` operands with target `t`. */
  ghost predicate KnowsUsage(data: seq<Byte>, ops: seq<Operand>, n: nat, last: int, t: nat)
    requires Inside(data, ops) && n <= |ops|
  {
    && (forall m: nat :: m < n && Target(data, ops[m]) == t ==> ops[m].at + 3 <= last)
    && (last == -ID_WINDOW_SIZE - 1 || exists m: nat :: m < n && Target(data, ops[m]) == t && ops[m].at + 3 == last)
  }

  /** The end of the last of the first `n` operands whose target is repeated. */
  ghost predicate KnowsLast(data: seq<Byte>, ops: seq<Operand>, n: nat, last: int)
    requires Inside(data, ops) && n <= |ops|
  {
    && (forall m: nat :: m < n && Repeats(data, ops, m) ==> ops[m].at + 3 <= last)
    && (last == -MAX_TRANSLATION_OFFSET - 1 || exists m: nat :: m < n && Repeats(data, ops, m) && ops[m].at + 3 == last)
  }

  predicate Ordered(ops: seq<Operand>) {
    && (forall k: nat :: k < |ops| ==> ops[k].pos < ops[k].at && ops[k].far <= MAX_TRANSLATION_OFFSET)
    && (forall j: nat, k: nat :: j < k < |ops| ==> ops[j].at + 4 <= ops[k].pos)
  }

  lemma {:induction false} ActiveIsTranslated(data: seq<Byte>, ops: seq<Operand>, n: nat, a: Activity)
    requires Inside(data, ops) && n < |ops| && KnowsLast(data, ops, n, a.last) && Ordered(ops)
    ensures Active(a, ops[n].pos, ops[n].far) <==> Translated(data, ops, n)
  {
    hide Repeats;
  }

  lemma {:induction false} RecentIsRepeat(data: seq<Byte>, ops: seq<Operand>, n: nat, last: int)
    requires Inside(data, ops) && n < |ops| && KnowsUsage(data, ops, n, last, Target(data, ops[n])) && Ordered(ops)
    ensures ops[n].at + 3 - last <= ID_WINDOW_SIZE <==> Repeats(data, ops, n)
  {
    hide Target;
  }

  lemma {:induction false} NoteKnows(data: seq<Byte>, ops: seq<Operand>, n: nat, a: Activity)
    requires Inside(data, ops) && n < |ops| && Ordered(ops) && ValidActivity(a)
    requires KnowsUsages(data, ops, n, a) && KnowsLast(data, ops, n, a.last)
    ensures var a' := Note(a, Target(data, ops[n]), ops[n].at + 3);
            KnowsUsages(data, ops, n + 1, a') && KnowsLast(data, ops, n + 1, a'.last)
  {
    hide KnowsUsage, KnowsLast, Repeats, Target;
    var t, end := Target(data, ops[n]), ops[n].at + 3;
    var a' := Note(a, t, end);
    RecentIsRepeat(data, ops, n, a.usages[t]);
    forall u: nat | u < 0x1_0000 ensures KnowsUsage(data, ops, n + 1, a'.usages[u], u) {
      NextUsage(data, ops, n, a.usages[u], u);
    }
    NextLast(data, ops, n, a.last);
  }

  lemma {:induction false} NextUsage(data: seq<Byte>, ops: seq<Operand>, n: nat, last: int, t: nat)
    requires Inside(data, ops) && n < |ops| && Ordered(ops) && KnowsUsage(data, ops, n, last, t)
    ensures KnowsUsage(data, ops, n + 1, if Target(data, ops[n]) == t then ops[n].at + 3 else last, t)
  {
    hide Target;
  }

  lemma {:induction false} NextLast(data: seq<Byte>, ops: seq<Operand>, n: nat, last: int)
    requires Inside(data, ops) && n < |ops| && Ordered(ops) && KnowsLast(data, ops, n, last)
    ensures KnowsLast(data, ops, n + 1, if Repeats(data, ops, n) then ops[n].at + 3 else last)
  {
    hide Repeats;
  }

  // --- The forward pass ---

  lemma {:induction false} FarBound(data: seq<Byte>, i: nat)
    requires i + 2 < |data|
    ensures Classify(data, i).Site? ==> Classify(data, i).far <= MAX_TRANSLATION_OFFSET
  {
  }

  lemma {:induction false} OperandFacts(data: seq<Byte>, i: nat, limit: int)
    requires limit + 16 <= |data|
    ensures Ordered(Operands(data, i, limit)) && Inside(data, Operands(data, i, limit))
    decreases limit - i
  {
    hide Classify;
    if i < limit {
      FarBound(data, i);
      match Classify(data, i)
      case Skip(n) => OperandFacts(data, i + n, limit);
      case Site(n, far) => OperandFacts(data, i + n + 4, limit);
    }
  }

  lemma {:induction false} OperandsAgree(x: seq<Byte>, y: seq<Byte>, i: nat, limit: int)
    requires limit + 16 <= |x| && AgreeFrom(x, y, i)
    ensures Operands(x, i, limit) == Operands(y, i, limit)
    decreases limit - i
  {
    hide Classify;
    if i < limit {
      ClassifyAgrees(x, y, i);
      AgreesOn(x, y, i, Classify(x, i));
      match Classify(x, i)
      case Skip(n) => OperandsAgree(x, y, i + n, limit);
      case Site(n, far) => OperandsAgree(x, y, i + n + 4, limit);
    }
  }

  lemma {:induction false} AgreesOn(x: seq<Byte>, y: seq<Byte>, i: nat, s: Step)
    requires AgreeFrom(x, y, i)
    ensures AgreeFrom(x, y, i + s.n) && AgreeFrom(x, y, i + s.n + 4)
  {
  }

  /** The pass from `i`, which has met the first `n` operands of `data` and holds `cur`. */
  lemma {:induction false} ForwardFrom(data: seq<Byte>, cur: seq<Byte>, i: nat, limit: int, a: Activity,
                                       ops: seq<Operand>, n: nat)
    requires limit + 16 <= |data| && AgreeFrom(data, cur, i) && ValidActivity(a)
    requires Inside(data, ops) && Ordered(ops) && n <= |ops| && ops[n..] == Operands(data, i, limit)
    requires KnowsUsages(data, ops, n, a) && KnowsLast(data, ops, n, a.last)
    ensures Absolute(data, cur, ops, n, Pass(cur, i, limit, a, false))
    decreases limit - i
  {
    hide Classify, Rewrite, Record, Active, KnowsUsages, KnowsLast, AbsoluteValue, Le32, Inside, Ordered,
         OutsideOperands;
    if i < limit {
      ClassifyAgrees(data, cur, i);
      match Classify(data, i)
      case Skip(m) =>
        ForwardFrom(data, cur, i + m, limit, a, ops, n);
      case Site(m, far) =>
        SiteForward(data, cur, i, limit, a, ops, n, m, far);
        var active := Active(a, i, far);
        var cur', a' := Rewrite(cur, i, i + m, active, false), Record(cur, i, i + m, a, active, false);
        ForwardFrom(data, cur', i + m + 4, limit, a', ops, n + 1);
        SiteAbsolute(data, cur, cur', ops, n, Pass(cur', i + m + 4, limit, a', false));
    } else {
      assert |ops| == n;
    }
  }

  lemma {:induction false} SiteForward(data: seq<Byte>, cur: seq<Byte>, i: nat, limit: int, a: Activity,
                                       ops: seq<Operand>, n: nat, m: nat, far: nat)
    requires i < limit && limit + 16 <= |data| && AgreeFrom(data, cur, i) && ValidActivity(a)
    requires Classify(data, i) == Site(m, far)
    requires Inside(data, ops) && Ordered(ops) && n <= |ops| && ops[n..] == Operands(data, i, limit)
    requires KnowsUsages(data, ops, n, a) && KnowsLast(data, ops, n, a.last)
    ensures n < |ops| && ops[n] == Operand(i, i + m, far) && ops[n + 1..] == Operands(data, i + m + 4, limit)
    ensures var active := Active(a, i, far);
            var cur', a' := Rewrite(cur, i, i + m, active, false), Record(cur, i, i + m, a, active, false);
            && Le32(cur', i + m) == AbsoluteValue(data, ops, n) && AgreeFrom(data, cur', i + m + 4)
            && KnowsUsages(data, ops, n + 1, a') && KnowsLast(data, ops, n + 1, a'.last)
  {
    hide Classify, Active, KnowsUsages, KnowsLast, Translated, Le32, Inside, Ordered;
    FirstOperand(data, i, limit, ops, n, m, far);
    var p, active := i + m, Active(a, i, far);
    SameOperand(data, cur, i, p);
    ActiveIsTranslated(data, ops, n, a);
    NoteKnows(data, ops, n, a);
    if active {
      PutGet(cur, p, (Le32(cur, p) + i) % 0x1_0000_0000);
    }
  }

  lemma {:induction false} SameOperand(x: seq<Byte>, y: seq<Byte>, i: nat, p: nat)
    requires AgreeFrom(x, y, i) && i <= p && p + 4 <= |x|
    ensures Le32(x, p) == Le32(y, p)
  {
  }

  lemma {:induction false} FirstOperand(data: seq<Byte>, i: nat, limit: int, ops: seq<Operand>, n: nat, m: nat,
                                        far: nat)
    requires i < limit && limit + 16 <= |data| && Classify(data, i) == Site(m, far)
    requires n <= |ops| && ops[n..] == Operands(data, i, limit)
    ensures n < |ops| && ops[n] == Operand(i, i + m, far) && ops[n + 1..] == Operands(data, i + m + 4, limit)
  {
    hide Classify;
    assert ops[n..][0] == ops[n] && ops[n..][1..] == ops[n + 1..];
  }

  lemma {:induction false} SiteAbsolute(data: seq<Byte>, cur: seq<Byte>, cur': seq<Byte>, ops: seq<Operand>, n: nat,
                                        r: seq<Byte>)
    requires Inside(data, ops) && Ordered(ops) && n < |ops| && |cur| == |cur'| == |data|
    requires Absolute(data, cur', ops, n + 1, r) && Le32(cur', ops[n].at) == AbsoluteValue(data, ops, n)
    requires forall b: nat :: b < |cur| && !InOperand(ops[n], b) ==> cur'[b] == cur[b]
    ensures Absolute(data, cur, ops, n, r)
  {
    hide AbsoluteValue;
    forall b: nat | b < |r| && InOperand(ops[n], b) ensures r[b] == cur'[b] {
      assert OutsideOperands(ops, n + 1, b);
    }
    assert InOperand(ops[n], ops[n].at) && InOperand(ops[n], ops[n].at + 1);
    assert InOperand(ops[n], ops[n].at + 2) && InOperand(ops[n], ops[n].at + 3);
    forall b: nat | b < |r| && OutsideOperands(ops, n, b) ensures r[b] == cur[b] {
      assert OutsideOperands(ops, n + 1, b);
    }
  }

  function AllOperands(data: seq<Byte>): seq<Operand>
  {
    var size := AsI32(|data|);
    if size <= 17 then [] else Operands(data, 1, size - 16)
  }

  /** The forward filter: to every operand whose instruction lies close behind a repeated target, the position of the
      instruction is added modulo 2^32; no other byte changes. */
  lemma {:induction false} ForwardIsAbsolute(data: seq<Byte>)
    ensures Inside(data, AllOperands(data)) && Absolute(data, data, AllOperands(data), 0, X86(data, false))
  {
    hide Operands, Pass, Le32, AbsoluteValue;
    var size := AsI32(|data|);
    if size > 17 {
      OperandFacts(data, 1, size - 16);
      var ops := AllOperands(data);
      assert ops[0..] == ops;
      ForwardFrom(data, data, 1, size - 16, NewActivity(), ops, 0);
    }
  }

  /** Two calls of one routine become equal: translated operands with the same address modulo 2^32. */
  lemma {:induction false} SameAddressSameBytes(data: seq<Byte>, j: nat, k: nat)
    requires var ops := AllOperands(data); j < |ops| && k < |ops| && Inside(data, ops)
    requires var ops := AllOperands(data); Translated(data, ops, j) && Translated(data, ops, k)
    requires var ops := AllOperands(data);
             (ops[j].pos + Le32(data, ops[j].at)) % 0x1_0000_0000
             == (ops[k].pos + Le32(data, ops[k].at)) % 0x1_0000_0000
    ensures var r, p, q := X86(data, false), AllOperands(data)[j].at, AllOperands(data)[k].at;
            |r| == |data| && r[p..p + 4] == r[q..q + 4]
  {
    hide AllOperands, Translated, X86, Absolute, Le32;
    ForwardIsAbsolute(data);
    var r, ops := X86(data, false), AllOperands(data);
    AbsoluteInside(data, ops, r);
    TranslatedValue(data, r, ops, j);
    TranslatedValue(data, r, ops, k);
    EqualFields(r, ops[j].at, ops[k].at);
  }

  lemma {:induction false} TranslatedValue(data: seq<Byte>, r: seq<Byte>, ops: seq<Operand>, k: nat)
    requires Inside(data, ops) && Absolute(data, data, ops, 0, r) && k < |ops| && Translated(data, ops, k)
    ensures ops[k].at + 4 <= |r| && Le32(r, ops[k].at) == (ops[k].pos + Le32(data, ops[k].at)) % 0x1_0000_0000
  {
    hide Translated, Le32;
    assert Le32(r, ops[k].at) == AbsoluteValue(data, ops, k);
  }

  lemma {:induction false} EqualFields(r: seq<Byte>, p: nat, q: nat)
    requires p + 4 <= |r| && q + 4 <= |r| && Le32(r, p) == Le32(r, q)
    ensures r[p..p + 4] == r[q..q + 4]
  {
    hide Le32;
    FieldBytes(r, p);
    FieldBytes(r, q);
  }

  lemma {:induction false} FieldBytes(r: seq<Byte>, p: nat)
    requires p + 4 <= |r|
    ensures r[p..p + 4] == Byte32(Le32(r, p))
  {
    hide Byte32;
    Byte32OfField(r[p], r[p + 1], r[p + 2], r[p + 3]);
    assert Le32([r[p], r[p + 1], r[p + 2], r[p + 3]], 0) == Le32(r, p);
    assert r[p..p + 4] == [r[p], r[p + 1], r[p + 2], r[p + 3]];
  }

  /** Neither direction changes which operands there are. */
  lemma {:induction false} PassKeepsOperands(data: seq<Byte>, i: nat, limit: int, a: Activity, undo: bool)
    requires limit + 16 <= |data| && ValidActivity(a)
    ensures Operands(Pass(data, i, limit, a, undo), i, limit) == Operands(data, i, limit)
    decreases limit - i
  {
    hide Classify, Rewrite, Record, Active;
    if i < limit {
      match Classify(data, i)
      case Skip(n) =>
        SkipStaysSkip(data, i, n, limit, a, undo);
        PassKeepsOperands(data, i + n, limit, a, undo);
      case Site(n, far) =>
        SiteStaysSite(data, i, n, far, limit, a, undo);
        var active := Active(a, i, far);
        var data', a' := Rewrite(data, i, i + n, active, undo), Record(data, i, i + n, a, active, undo);
        PassKeepsOperands(data', i + n + 4, limit, a', undo);
        OperandsAgree(data, data', i + n + 4, limit);
    }
  }

  lemma {:induction false} SameOperands(data: seq<Byte>, undo: bool)
    ensures AllOperands(X86(data, undo)) == AllOperands(data)
  {
    hide Operands, Pass;
    var size := AsI32(|data|);
    if size > 17 {
      PassKeepsOperands(data, 1, size - 16, NewActivity(), undo);
    }
  }

  /** The undoing filter takes the position off an operand of its input exactly if its result makes it translated. */
  lemma {:induction false} UndoIsRelative(data: seq<Byte>)
    ensures var r, ops := X86(data, true), AllOperands(data);
            && Inside(data, ops) && |r| == |data|
            && forall k: nat :: k < |ops| ==>
                 Le32(r, ops[k].at)
                 == if Translated(r, ops, k) then (Le32(data, ops[k].at) - ops[k].pos) % 0x1_0000_0000
                    else Le32(data, ops[k].at)
  {
    hide Operands, Translated, X86, AllOperands, Absolute, Le32;
    var r := X86(data, true);
    X86RoundTrip(data, true);
    SameOperands(data, true);
    ForwardIsAbsolute(r);
    var ops := AllOperands(data);
    AbsoluteInside(r, ops, data);
    forall k: nat | k < |ops|
      ensures Le32(r, ops[k].at) == if Translated(r, ops, k) then (Le32(data, ops[k].at) - ops[k].pos) % 0x1_0000_0000
                                    else Le32(data, ops[k].at)
    {
      RelativeValue(r, data, ops, k);
    }
  }

  lemma {:induction false} AbsoluteInside(r: seq<Byte>, ops: seq<Operand>, data: seq<Byte>)
    requires Inside(r, ops) && Absolute(r, r, ops, 0, data)
    ensures |data| == |r| && Inside(data, ops)
  {
  }

  lemma {:induction false} RelativeValue(r: seq<Byte>, data: seq<Byte>, ops: seq<Operand>, k: nat)
    requires Inside(r, ops) && k < |ops| && Absolute(r, r, ops, 0, data)
    ensures Le32(r, ops[k].at) == if Translated(r, ops, k) then (Le32(data, ops[k].at) - ops[k].pos) % 0x1_0000_0000
                                  else Le32(data, ops[k].at)
  {
    hide Translated, Le32;
    assert Le32(data, ops[k].at) == AbsoluteValue(r, ops, k);
    TakenOff(Le32(r, ops[k].at), ops[k].pos);
  }

  lemma {:induction false} TakenOff(v: nat, i: nat)
    requires v < 0x1_0000_0000
    ensures ((v + i) % 0x1_0000_0000 - i) % 0x1_0000_0000 == v
  {
  }
}
