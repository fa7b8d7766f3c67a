/** The x86 filter: call and address operands that keep hitting the same targets are made absolute
    before compression and relative again after it. */
module X86Filter {
  import opened RangeCoding

  const ID_WINDOW_SIZE := 65535
  const MAX_TRANSLATION_OFFSET := 1023

  // --- 32-bit fields ---

  function Le32(data: seq<Byte>, p: nat): (v: nat)
    requires p + 4 <= |data|
    ensures v < 0x1_0000_0000
  {
    var b0: nat, b1: nat, b2: nat, b3: nat := data[p], data[p + 1], data[p + 2], data[p + 3];
    b0 + 0x100 * b1 + 0x1_0000 * b2 + 0x100_0000 * b3
  }

  function Byte32(v: nat): (bs: seq<Byte>)
    requires v < 0x1_0000_0000
    ensures |bs| == 4
  {
    [v % 0x100, v / 0x100 % 0x100, v / 0x1_0000 % 0x100, v / 0x100_0000]
  }

  function PutLe32(data: seq<Byte>, p: nat, v: nat): (r: seq<Byte>)
    requires p + 4 <= |data| && v < 0x1_0000_0000
    ensures |r| == |data|
    ensures forall k :: 0 <= k < |data| && !(p <= k < p + 4) ==> r[k] == data[k]
  {
    data[..p] + Byte32(v) + data[p + 4..]
  }

  lemma {:induction false} Byte32Value(v: nat)
    requires v < 0x1_0000_0000
    ensures Le32(Byte32(v), 0) == v && Le16(Byte32(v), 0) == v % 0x1_0000
  {
    var lo, hi := v % 0x1_0000, v / 0x1_0000;
    Halves(lo, hi);
    LowDigits(v);
  }

  lemma {:induction false} LowDigits(v: nat)
    requires v < 0x1_0000_0000
    ensures v % 0x100 + 0x100 * (v / 0x100 % 0x100) == v % 0x1_0000
    ensures v / 0x1_0000 % 0x100 + 0x100 * (v / 0x100_0000) == v / 0x1_0000
  {
  }

  lemma {:induction false} PutGet(data: seq<Byte>, p: nat, v: nat)
    requires p + 4 <= |data| && v < 0x1_0000_0000
    ensures Le32(PutLe32(data, p, v), p) == v && Le16(PutLe32(data, p, v), p) == v % 0x1_0000
  {
    Byte32Value(v);
    var r, b := PutLe32(data, p, v), Byte32(v);
    assert r[p] == b[0] && r[p + 1] == b[1] && r[p + 2] == b[2] && r[p + 3] == b[3];
  }

  lemma {:induction false} Halves(lo: nat, hi: nat)
    requires lo < 0x1_0000 && hi < 0x1_0000
    ensures var v := lo + 0x1_0000 * hi;
            && v % 0x100 == lo % 0x100 && v / 0x100 % 0x100 == lo / 0x100
            && v / 0x1_0000 == hi && v / 0x100_0000 == hi / 0x100
  {
  }

  lemma {:induction false} Byte32OfField(b0: Byte, b1: Byte, b2: Byte, b3: Byte)
    ensures Byte32(Le32([b0, b1, b2, b3], 0)) == [b0, b1, b2, b3]
  {
    var lo: nat, hi: nat := (b0 as nat) + 0x100 * (b1 as nat), (b2 as nat) + 0x100 * (b3 as nat);
    Halves(lo, hi);
    assert Le32([b0, b1, b2, b3], 0) == lo + 0x1_0000 * hi;
  }

  lemma {:induction false} PutSame(data: seq<Byte>, other: seq<Byte>, p: nat)
    requires p + 4 <= |data| && |other| == |data|
    requires forall k :: 0 <= k < |data| && !(p <= k < p + 4) ==> other[k] == data[k]
    ensures PutLe32(other, p, Le32(data, p)) == data
  {
    Byte32OfField(data[p], data[p + 1], data[p + 2], data[p + 3]);
    assert Le32(data, p) == Le32([data[p], data[p + 1], data[p + 2], data[p + 3]], 0);
    assert data == data[..p] + [data[p], data[p + 1], data[p + 2], data[p + 3]] + data[p + 4..];
  }

  // --- Recognising instructions ---

  /** `Site(n, far)`: an operand starts `n` bytes on and is translated when an earlier repeated target
      lies at most `far` back. */
  datatype Step = Skip(n: nat) | Site(n: nat, far: nat)

  function Classify(data: seq<Byte>, i: nat): (s: Step)
    requires i + 2 < |data|
    ensures s.Site? ==> 1 <= s.n <= 3
    ensures s.Skip? ==> 1 <= s.n <= 5
  {
    var opcode, op, modrm := data[i], data[i + 1], data[i + 2];
    if opcode == 0xE8 then Site(1, MAX_TRANSLATION_OFFSET / 2)
    else if opcode == 0x48 || opcode == 0x4C then
      if modrm % 8 == 5 && (op == 0x8D || (op == 0x8B && opcode == 0x48 && modrm < 0x10))
      then Site(3, MAX_TRANSLATION_OFFSET) else Skip(1)
    else if opcode == 0xFF && op == 0x15 then Site(2, MAX_TRANSLATION_OFFSET)
    else if opcode == 0xF0 && op == 0x83 && modrm == 0x05 then Site(3, MAX_TRANSLATION_OFFSET)
    else if opcode == 0xE9 then Skip(5)
    else Skip(1)
  }

  // --- The pass ---

  /** `last` is the end of the last repeated-target operand; `usages` maps each 16-bit target to the
      end of the last operand that used it. */
  datatype Activity = Activity(last: int, usages: seq<int>)

  predicate ValidActivity(a: Activity) {
    |a.usages| == 0x1_0000
  }

  function NewActivity(): (a: Activity)
    ensures ValidActivity(a)
  {
    Activity(-MAX_TRANSLATION_OFFSET - 1, seq(0x1_0000, k => -ID_WINDOW_SIZE - 1))
  }

  function Note(a: Activity, target: nat, end: int): (a': Activity)
    requires ValidActivity(a) && target < 0x1_0000
    ensures ValidActivity(a')
  {
    Activity(if end - a.usages[target] <= ID_WINDOW_SIZE then end else a.last, a.usages[target := end])
  }

  /** Operand value minus (undo) or plus the position, modulo 2^32. */
  function Translate(v: nat, i: nat, undo: bool): (r: nat)
    ensures r < 0x1_0000_0000
  {
    (if undo then v - i else v + i) % 0x1_0000_0000
  }

  /** The relative value of the operand, in the direction in which the target is computed. */
  function Relative(v: nat, i: nat, undo: bool, active: bool): nat {
    if undo && active then Translate(v, i, true) else v
  }

  predicate Active(a: Activity, i: nat, far: nat) {
    i - a.last <= far
  }

  function Rewrite(data: seq<Byte>, i: nat, p: nat, active: bool, undo: bool): (r: seq<Byte>)
    requires p + 4 <= |data|
    ensures |r| == |data|
    ensures forall k :: 0 <= k < |data| && !(p <= k < p + 4) ==> r[k] == data[k]
  {
    if active then PutLe32(data, p, Translate(Le32(data, p), i, undo)) else data
  }

  function Record(data: seq<Byte>, i: nat, p: nat, a: Activity, active: bool, undo: bool): (a': Activity)
    requires p + 4 <= |data| && ValidActivity(a)
    ensures ValidActivity(a')
  {
    Note(a, (i + Relative(Le32(data, p), i, undo, active)) % 0x1_0000, p + 3)
  }

  function Pass(data: seq<Byte>, i: nat, limit: int, a: Activity, undo: bool): (r: seq<Byte>)
    requires ValidActivity(a) && limit + 16 <= |data|
    ensures |r| == |data|
    decreases limit - i
  {
    if i >= limit then data
    else
      match Classify(data, i)
      case Skip(n) => Pass(data, i + n, limit, a, undo)
      case Site(n, far) =>
        var active := Active(a, i, far);
        Pass(Rewrite(data, i, i + n, active, undo), i + n + 4, limit, Record(data, i, i + n, a, active, undo), undo)
  }

  /** A length cast to a signed 32-bit integer. */
  function AsI32(n: nat): int {
    var w := n % 0x1_0000_0000;
    if w < 0x8000_0000 then w else w - 0x1_0000_0000
  }

  function X86(data: seq<Byte>, undo: bool): (r: seq<Byte>)
    ensures |r| == |data|
  {
    var size := AsI32(|data|);
    if size <= 17 then data else Pass(data, 1, size - 16, NewActivity(), undo)
  }

  // --- The two directions are inverse ---

  /** A pass from `i` leaves everything before `i`. */
  lemma {:induction false} PassKeepsFront(data: seq<Byte>, i: nat, limit: int, a: Activity, undo: bool, k: nat)
    requires ValidActivity(a) && limit + 16 <= |data| && k < i && k < |data|
    ensures Pass(data, i, limit, a, undo)[k] == data[k]
    decreases limit - i
  {
    hide Classify, Record, Active;
    if i < limit {
      match Classify(data, i)
      case Skip(n) =>
        PassKeepsFront(data, i + n, limit, a, undo, k);
      case Site(n, far) =>
        var active := Active(a, i, far);
        PassKeepsFront(Rewrite(data, i, i + n, active, undo), i + n + 4, limit,
                       Record(data, i, i + n, a, active, undo), undo, k);
    }
  }

  /** It also leaves the bytes of an instruction it visits up to the operand, and of a skipped one. */
  lemma {:induction false} PassKeepsHead(data: seq<Byte>, i: nat, limit: int, a: Activity, undo: bool, k: nat)
    requires ValidActivity(a) && limit + 16 <= |data| && i < limit
    requires k < i + Classify(data, i).n && k < |data|
    ensures Pass(data, i, limit, a, undo)[k] == data[k]
  {
    match Classify(data, i)
    case Skip(n) =>
      PassKeepsFront(data, i + n, limit, a, undo, k);
    case Site(n, far) =>
      var active := Active(a, i, far);
      PassKeepsFront(Rewrite(data, i, i + n, active, undo), i + n + 4, limit,
                     Record(data, i, i + n, a, active, undo), undo, k);
  }

  /** What follows a skipped byte: the next opcode stays, and the byte after it changes only behind E8. */
  lemma {:induction false} PassKeepsNext(data: seq<Byte>, i: nat, limit: int, a: Activity, undo: bool)
    requires ValidActivity(a) && limit + 16 <= |data| && i + 1 < |data|
    ensures var r := Pass(data, i, limit, a, undo);
            r[i] == data[i] && (r[i + 1] != data[i + 1] ==> data[i] == 0xE8)
  {
    if i < limit {
      PassKeepsHead(data, i, limit, a, undo, i);
      if Classify(data, i) == Skip(1) {
        if i + 1 < limit {
          PassKeepsHead(data, i + 1, limit, a, undo, i + 1);
        }
      } else if Classify(data, i).n > 1 {
        PassKeepsHead(data, i, limit, a, undo, i + 1);
      }
    }
  }

  /** Bytes changed later never turn a skipped position into an instruction. */
  lemma {:induction false} SkipStaysSkip(data: seq<Byte>, i: nat, n: nat, limit: int, a: Activity, undo: bool)
    requires ValidActivity(a) && limit + 16 <= |data| && i < limit && Classify(data, i) == Skip(n)
    ensures Classify(Pass(data, i, limit, a, undo), i) == Skip(n)
  {
    PassKeepsHead(data, i, limit, a, undo, i);
    if n == 1 {
      PassKeepsNext(data, i + 1, limit, a, undo);
    }
  }

  lemma {:induction false} SiteStaysSite(data: seq<Byte>, i: nat, n: nat, far: nat, limit: int, a: Activity, undo: bool)
    requires ValidActivity(a) && limit + 16 <= |data| && i < limit && Classify(data, i) == Site(n, far)
    ensures Classify(Pass(data, i, limit, a, undo), i) == Site(n, far)
  {
    forall k | i <= k < i + n ensures Pass(data, i, limit, a, undo)[k] == data[k] {
      PassKeepsHead(data, i, limit, a, undo, k);
    }
  }

  predicate AgreeFrom(x: seq<Byte>, y: seq<Byte>, i: nat) {
    |x| == |y| && forall k :: i <= k < |x| ==> x[k] == y[k]
  }

  lemma {:induction false} RewriteAgrees(x: seq<Byte>, y: seq<Byte>, i: nat, p: nat, a: Activity, active: bool,
                                         undo: bool)
    requires AgreeFrom(x, y, i) && i <= p && p + 4 <= |x| && ValidActivity(a)
    ensures Le32(x, p) == Le32(y, p)
    ensures AgreeFrom(Rewrite(x, i, p, active, undo), Rewrite(y, i, p, active, undo), i)
    ensures Record(x, i, p, a, active, undo) == Record(y, i, p, a, active, undo)
  {
  }

  lemma {:induction false} ClassifyAgrees(x: seq<Byte>, y: seq<Byte>, i: nat)
    requires AgreeFrom(x, y, i) && i + 2 < |x|
    ensures Classify(x, i) == Classify(y, i)
  {
  }

  /** A pass from `i` does not look at what lies before `i`. */
  lemma {:induction false} PassLocal(x: seq<Byte>, y: seq<Byte>, i: nat, limit: int, a: Activity, undo: bool, k: nat)
    requires ValidActivity(a) && limit + 16 <= |x| && AgreeFrom(x, y, i) && i <= k < |x|
    ensures Pass(x, i, limit, a, undo)[k] == Pass(y, i, limit, a, undo)[k]
    decreases limit - i, 1
  {
    hide Classify, Rewrite, Record, Active;
    if i < limit {
      ClassifyAgrees(x, y, i);
      match Classify(x, i)
      case Skip(n) =>
        PassLocalFrom(x, y, i, i + n, limit, a, undo, k);
      case Site(n, far) =>
        var active := Active(a, i, far);
        RewriteAgrees(x, y, i, i + n, a, active, undo);
        PassLocalFrom(Rewrite(x, i, i + n, active, undo), Rewrite(y, i, i + n, active, undo), i, i + n + 4, limit,
                      Record(x, i, i + n, a, active, undo), undo, k);
    }
  }

  lemma {:induction false} PassLocalFrom(x: seq<Byte>, y: seq<Byte>, i: nat, j: nat, limit: int, a: Activity,
                                         undo: bool, k: nat)
    requires ValidActivity(a) && limit + 16 <= |x| && AgreeFrom(x, y, i) && i < j && i < limit && i <= k < |x|
    ensures Pass(x, j, limit, a, undo)[k] == Pass(y, j, limit, a, undo)[k]
    decreases limit - i, 0
  {
    if k < j {
      PassKeepsFront(x, j, limit, a, undo, k);
      PassKeepsFront(y, j, limit, a, undo, k);
    } else {
      PassLocal(x, y, j, limit, a, undo, k);
    }
  }

  lemma {:induction false} TranslateBack(v: nat, i: nat, undo: bool)
    requires v < 0x1_0000_0000
    ensures Translate(Translate(v, i, undo), i, !undo) == v
  {
  }

  /** Both directions compute the target from the relative value, so their tables agree. */
  lemma {:induction false} SameRecord(data: seq<Byte>, r: seq<Byte>, i: nat, p: nat, a: Activity, active: bool,
                                      undo: bool)
    requires p + 4 <= |data| && p + 4 <= |r| && ValidActivity(a)
    requires Le32(r, p) == if active then Translate(Le32(data, p), i, undo) else Le32(data, p)
    ensures Record(r, i, p, a, active, !undo) == Record(data, i, p, a, active, undo)
  {
    TranslateBack(Le32(data, p), i, undo);
    if active && undo {
      assert Relative(Le32(r, p), i, false, true) == Relative(Le32(data, p), i, true, true);
    }
  }

  /** The second pass visits the same instructions with the same activity, and restores each operand. */
  lemma {:induction false} PassBack(data: seq<Byte>, i: nat, limit: int, a: Activity, undo: bool)
    requires ValidActivity(a) && limit + 16 <= |data|
    ensures Pass(Pass(data, i, limit, a, undo), i, limit, a, !undo) == data
    decreases limit - i
  {
    hide Classify, Rewrite, Record, Active;
    if i < limit {
      match Classify(data, i)
      case Skip(n) =>
        SkipStaysSkip(data, i, n, limit, a, undo);
        PassBack(data, i + n, limit, a, undo);
      case Site(n, far) =>
        var p, active := i + n, Active(a, i, far);
        var data' := Rewrite(data, i, p, active, undo);
        var a' := Record(data, i, p, a, active, undo);
        var r := Pass(data', p + 4, limit, a', undo);
        PassBack(data', p + 4, limit, a', undo);
        SiteStaysSite(data, i, n, far, limit, a, undo);
        SiteBack(data, r, i, p, limit, a, active, undo);
        assert Pass(r, i, limit, a, !undo)
            == Pass(Rewrite(r, i, p, active, !undo), p + 4, limit, Record(r, i, p, a, active, !undo), !undo);
    }
  }

  lemma {:induction false} OperandAfter(data: seq<Byte>, r: seq<Byte>, i: nat, p: nat, limit: int, a: Activity,
                                        active: bool, undo: bool)
    requires ValidActivity(a) && limit + 16 <= |data| && p + 4 <= |data|
    requires r == Pass(Rewrite(data, i, p, active, undo), p + 4, limit, Record(data, i, p, a, active, undo), undo)
    ensures forall k :: 0 <= k < p ==> r[k] == data[k]
    ensures Le32(r, p) == if active then Translate(Le32(data, p), i, undo) else Le32(data, p)
  {
    var data' := Rewrite(data, i, p, active, undo);
    forall k | 0 <= k < p + 4 ensures r[k] == data'[k] {
      PassKeepsFront(data', p + 4, limit, Record(data, i, p, a, active, undo), undo, k);
    }
    if active {
      PutGet(data, p, Translate(Le32(data, p), i, undo));
    }
  }

  lemma {:induction false} SiteBack(data: seq<Byte>, r: seq<Byte>, i: nat, p: nat, limit: int, a: Activity,
                                    active: bool, undo: bool)
    requires ValidActivity(a) && limit + 16 <= |data| && p + 4 <= |data|
    requires r == Pass(Rewrite(data, i, p, active, undo), p + 4, limit, Record(data, i, p, a, active, undo), undo)
    requires Pass(r, p + 4, limit, Record(data, i, p, a, active, undo), !undo) == Rewrite(data, i, p, active, undo)
    ensures Record(r, i, p, a, active, !undo) == Record(data, i, p, a, active, undo)
    ensures Pass(Rewrite(r, i, p, active, !undo), p + 4, limit, Record(data, i, p, a, active, undo), !undo) == data
  {
    var a' := Record(data, i, p, a, active, undo);
    OperandAfter(data, r, i, p, limit, a, active, undo);
    SameRecord(data, r, i, p, a, active, undo);
    var back := Rewrite(r, i, p, active, !undo);
    RestoredFront(data, r, i, p, active, undo);
    var final := Pass(back, p + 4, limit, a', !undo);
    forall k | 0 <= k < |data| ensures final[k] == data[k] {
      if k < p + 4 {
        PassKeepsFront(back, p + 4, limit, a', !undo, k);
      } else {
        PassLocal(back, r, p + 4, limit, a', !undo, k);
      }
    }
  }

  lemma {:induction false} RestoredFront(data: seq<Byte>, r: seq<Byte>, i: nat, p: nat, active: bool, undo: bool)
    requires p + 4 <= |data| == |r|
    requires forall k :: 0 <= k < p ==> r[k] == data[k]
    requires Le32(r, p) == if active then Translate(Le32(data, p), i, undo) else Le32(data, p)
    ensures forall k :: 0 <= k < p + 4 ==> Rewrite(r, i, p, active, !undo)[k] == data[k]
  {
    TranslateBack(Le32(data, p), i, undo);
    var mixed := data[..p] + r[p..p + 4] + data[p + 4..];
    assert Le32(mixed, p) == Le32(r, p);
    PutSame(data, mixed, p);
    if !active {
      PutSame(mixed, mixed, p);
    } else {
      assert forall k :: p <= k < p + 4 ==> PutLe32(r, p, Le32(data, p))[k] == PutLe32(mixed, p, Le32(data, p))[k];
    }
  }

  /** The filter is a bijection: each direction undoes the other, for every buffer. */
  lemma {:induction false} X86RoundTrip(data: seq<Byte>, undo: bool)
    ensures X86(X86(data, undo), !undo) == data
  {
    if AsI32(|data|) > 17 {
      PassBack(data, 1, AsI32(|data|) - 16, NewActivity(), undo);
    }
  }

  // --- In place ---

  method FilterInPlace(data: array<Byte>, undo: bool)
    modifies data
    ensures data[..] == X86(old(data[..]), undo)
  {
    hide Classify, Rewrite, Record, Active;
    var size := AsI32(data.Length);
    if size <= 17 {
      return;
    }
    var lastX86Pos := -MAX_TRANSLATION_OFFSET - 1;
    var lastTargetUsages := seq(0x1_0000, k => -ID_WINDOW_SIZE - 1);
    var limit := size - 16;
    var i: nat := 1;
    ghost var goal, cur := X86(data[..], undo), data[..];
    while i < limit
      invariant |lastTargetUsages| == 0x1_0000 && cur == data[..]
      invariant goal == Pass(cur, i, limit, Activity(lastX86Pos, lastTargetUsages), undo)
      decreases limit - i
    {
      var step := Classify(data[..], i);
      PassStep(cur, i, limit, Activity(lastX86Pos, lastTargetUsages), undo);
      i := i + step.n;
      if step.Site? {
        lastX86Pos, lastTargetUsages := VisitSite(data, i - step.n, i, step.far, lastX86Pos, lastTargetUsages, undo);
        i := i + 4;
      }
      cur := data[..];
    }
  }

  lemma {:induction false} PassStep(data: seq<Byte>, i: nat, limit: int, a: Activity, undo: bool)
    requires ValidActivity(a) && limit + 16 <= |data| && i < limit
    ensures Pass(data, i, limit, a, undo) ==
            match Classify(data, i)
            case Skip(n) => Pass(data, i + n, limit, a, undo)
            case Site(n, far) =>
              var active := Active(a, i, far);
              Pass(Rewrite(data, i, i + n, active, undo), i + n + 4, limit,
                   Record(data, i, i + n, a, active, undo), undo)
  {
  }

  /** Handle the operand at `p` of the instruction at `i`. */
  method VisitSite(data: array<Byte>, i: nat, p: nat, far: nat, last: int, usages: seq<int>, undo: bool)
    returns (last': int, usages': seq<int>)
    requires p + 4 <= data.Length && |usages| == 0x1_0000
    modifies data
    ensures data[..] == Rewrite(old(data[..]), i, p, Active(Activity(last, usages), i, far), undo)
    ensures |usages'| == 0x1_0000
    ensures Activity(last', usages')
         == Record(old(data[..]), i, p, Activity(last, usages), Active(Activity(last, usages), i, far), undo)
  {
    var target := TranslateSite(data, i, p, i - last <= far, undo);
    var endPos := p + 3;
    last' := if endPos - usages[target] <= ID_WINDOW_SIZE then endPos else last;
    usages' := usages[target := endPos];
  }

  /** The target is taken from the relative operand: after the subtraction, before the addition. */
  method TranslateSite(data: array<Byte>, i: nat, p: nat, active: bool, undo: bool) returns (target: nat)
    requires p + 4 <= data.Length
    modifies data
    ensures data[..] == Rewrite(old(data[..]), i, p, active, undo)
    ensures target == (i + Relative(Le32(old(data[..]), p), i, undo, active)) % 0x1_0000
  {
    var v := Le32(data[..], p);
    if active {
      Store32(data, p, Translate(v, i, undo));
    }
    target := (i + Relative(v, i, undo, active)) % 0x1_0000;
  }

  method Store32(data: array<Byte>, p: nat, v: nat)
    requires p + 4 <= data.Length && v < 0x1_0000_0000
    modifies data
    ensures data[..] == PutLe32(old(data[..]), p, v)
  {
    data[p], data[p + 1] := v % 0x100, v / 0x100 % 0x100;
    data[p + 2], data[p + 3] := v / 0x1_0000 % 0x100, v / 0x100_0000;
  }
}
