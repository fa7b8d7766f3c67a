/** Canonical prefix codes given by their lengths: prefix-freeness and completeness. */
module CanonicalCode {
  import opened Powers
  import opened BitStrings

  const MAX_CODEWORD_LEN := 15

  datatype Option<+T> = None | Some(value: T)

  /** Code lengths of the symbols 0, 1, ...; 0 marks a symbol without a code. */
  predicate ValidLens(lens: seq<nat>) {
    forall s :: 0 <= s < |lens| ==> lens[s] <= MAX_CODEWORD_LEN
  }

  function Count(lens: seq<nat>, l: nat): (c: nat)
    ensures c <= |lens|
  {
    if |lens| == 0 then 0
    else Count(lens[..|lens| - 1], l) + if lens[|lens| - 1] == l then 1 else 0
  }

  /** The first code of length `l`. */
  function FirstCode(lens: seq<nat>, l: nat): nat {
    if l <= 1 then 0 else 2 * (FirstCode(lens, l - 1) + Count(lens, l - 1))
  }

  /** One past the last code of length `l`. */
  function EndCode(lens: seq<nat>, l: nat): nat {
    FirstCode(lens, l) + Count(lens, l)
  }

  function CodeOf(lens: seq<nat>, s: nat): nat
    requires s < |lens|
  {
    FirstCode(lens, lens[s]) + Count(lens[..s], lens[s])
  }

  function CodeBits(lens: seq<nat>, s: nat): (bs: seq<Bit>)
    requires s < |lens|
    ensures |bs| == lens[s]
  {
    ToBits(CodeOf(lens, s), lens[s])
  }

  // --- The Kraft sum, scaled by 2^15 ---

  function Share(l: nat): nat {
    if 0 < l <= MAX_CODEWORD_LEN then Pow2(MAX_CODEWORD_LEN - l) else 0
  }

  function KraftSum(lens: seq<nat>): nat {
    if |lens| == 0 then 0 else KraftSum(lens[..|lens| - 1]) + Share(lens[|lens| - 1])
  }

  predicate Subscribed(lens: seq<nat>) {
    ValidLens(lens) && KraftSum(lens) <= Pow2(MAX_CODEWORD_LEN)
  }

  predicate Complete(lens: seq<nat>) {
    ValidLens(lens) && KraftSum(lens) == Pow2(MAX_CODEWORD_LEN)
  }

  /** The part of the Kraft sum contributed by lengths up to `l`. */
  function KraftUpTo(lens: seq<nat>, l: nat): nat {
    if |lens| == 0 then 0
    else KraftUpTo(lens[..|lens| - 1], l) + if lens[|lens| - 1] <= l then Share(lens[|lens| - 1]) else 0
  }

  lemma {:induction false} KraftUpToMax(lens: seq<nat>, l: nat)
    ensures KraftUpTo(lens, l) <= KraftSum(lens)
    ensures ValidLens(lens) && l == MAX_CODEWORD_LEN ==> KraftUpTo(lens, l) == KraftSum(lens)
  {
    if |lens| > 0 {
      KraftUpToMax(lens[..|lens| - 1], l);
    }
  }

  lemma {:induction false} KraftUpToStep(lens: seq<nat>, l: nat)
    requires 0 < l <= MAX_CODEWORD_LEN
    ensures KraftUpTo(lens, l) == KraftUpTo(lens, l - 1) + Count(lens, l) * Share(l)
  {
    hide Share;
    if |lens| > 0 {
      var p := lens[..|lens| - 1];
      KraftUpToStep(p, l);
      assert (Count(p, l) + 1) * Share(l) == Count(p, l) * Share(l) + Share(l);
    }
  }

  lemma {:induction false} KraftUpToZero(lens: seq<nat>)
    ensures KraftUpTo(lens, 0) == 0
  {
    if |lens| > 0 {
      KraftUpToZero(lens[..|lens| - 1]);
    }
  }

  /** The codes up to length `l` fill an initial segment of the code space. */
  lemma {:induction false} EndCodeIsKraft(lens: seq<nat>, l: nat)
    requires 0 < l <= MAX_CODEWORD_LEN
    ensures EndCode(lens, l) * Share(l) == KraftUpTo(lens, l)
  {
    KraftUpToStep(lens, l);
    var h := Share(l);
    Distribute(FirstCode(lens, l), Count(lens, l), h);
    if l == 1 {
      KraftUpToZero(lens);
    } else {
      EndCodeIsKraft(lens, l - 1);
      Regroup(EndCode(lens, l - 1), h);
    }
  }

  lemma {:induction false} Regroup(e: nat, h: nat)
    ensures (2 * e) * h == e * (2 * h)
  {
  }

  lemma {:induction false} EndCodeBound(lens: seq<nat>, l: nat)
    requires Subscribed(lens) && 0 < l <= MAX_CODEWORD_LEN
    ensures EndCode(lens, l) <= Pow2(l)
  {
    EndCodeIsKraft(lens, l);
    KraftUpToMax(lens, l);
    Pow2Add(l, MAX_CODEWORD_LEN - l);
    CancelFactor(EndCode(lens, l), Pow2(l), Share(l));
  }

  lemma {:induction false} CountPrefix(lens: seq<nat>, s: nat, t: nat, l: nat)
    requires s <= t <= |lens|
    ensures Count(lens[..s], l) <= Count(lens[..t], l)
    ensures s < t && lens[s] == l ==> Count(lens[..s], l) < Count(lens[..t], l)
  {
    if s < t {
      CountPrefix(lens, s, t - 1, l);
      assert lens[..t][..t - 1] == lens[..t - 1];
    }
  }

  lemma {:induction false} CodeRange(lens: seq<nat>, s: nat)
    requires s < |lens|
    ensures FirstCode(lens, lens[s]) <= CodeOf(lens, s) < EndCode(lens, lens[s])
  {
    CountPrefix(lens, s, |lens|, lens[s]);
    assert lens[..|lens|] == lens;
  }

  lemma {:induction false} CodeFits(lens: seq<nat>, s: nat)
    requires Subscribed(lens) && s < |lens| && lens[s] > 0
    ensures CodeOf(lens, s) < Pow2(lens[s])
    ensures FromBits(CodeBits(lens, s)) == CodeOf(lens, s)
  {
    CodeRange(lens, s);
    EndCodeBound(lens, lens[s]);
    FromToBits(CodeOf(lens, s), lens[s]);
  }

  // --- No code is a prefix of another ---

  lemma {:induction false} FirstCodeDescends(lens: seq<nat>, l: nat, d: nat)
    requires l > 0 && d > 0
    ensures EndCode(lens, l) * Pow2(d) <= FirstCode(lens, l + d)
  {
    var e := EndCode(lens, l);
    if d == 1 {
      assert Pow2(1) == 2 * Pow2(0);
    } else {
      FirstCodeDescends(lens, l, d - 1);
      assert e * Pow2(d) == 2 * (e * Pow2(d - 1));
    }
  }

  lemma {:induction false} ShrAtLeast(a: nat, v: nat, d: nat)
    requires a * Pow2(d) <= v
    ensures a <= Shr(v, d)
  {
    if d > 0 {
      assert a * Pow2(d) == 2 * (a * Pow2(d - 1));
      ShrAtLeast(a, v / 2, d - 1);
    }
  }

  lemma {:induction false} BitsPrefixIsShift(a: nat, k: nat, b: nat, d: nat)
    requires a < Pow2(k) && b < Pow2(k + d) && ToBits(a, k) <= ToBits(b, k + d)
    ensures Shr(b, d) == a
  {
    ToBitsPrefix(b, k + d, k);
    ShrFits(b, k, d);
    FromToBits(Shr(b, d), k);
    FromToBits(a, k);
    assert ToBits(b, k + d)[..k] == ToBits(a, k);
  }

  lemma {:induction false} PrefixIsShift(lens: seq<nat>, s: nat, t: nat)
    requires Subscribed(lens) && s < |lens| && t < |lens| && lens[s] > 0 && lens[t] > 0
    requires CodeBits(lens, s) <= CodeBits(lens, t)
    ensures lens[s] <= lens[t] && Shr(CodeOf(lens, t), lens[t] - lens[s]) == CodeOf(lens, s)
  {
    CodeFits(lens, s);
    CodeFits(lens, t);
    BitsPrefixIsShift(CodeOf(lens, s), lens[s], CodeOf(lens, t), lens[t] - lens[s]);
  }

  lemma {:induction false} LongerCodeIsBeyond(lens: seq<nat>, s: nat, t: nat)
    requires s < |lens| && t < |lens| && 0 < lens[s] < lens[t]
    ensures Shr(CodeOf(lens, t), lens[t] - lens[s]) > CodeOf(lens, s)
  {
    var l, d := lens[s], lens[t] - lens[s];
    FirstCodeDescends(lens, l, d);
    CodeRange(lens, t);
    ShrAtLeast(EndCode(lens, l), CodeOf(lens, t), d);
    CodeRange(lens, s);
  }

  lemma {:induction false} SameLengthDiffers(lens: seq<nat>, s: nat, t: nat)
    requires s < t < |lens| && lens[s] == lens[t]
    ensures CodeOf(lens, s) != CodeOf(lens, t)
  {
    CountPrefix(lens, s, t, lens[s]);
  }

  lemma {:induction false} PrefixFree(lens: seq<nat>, s: nat, t: nat)
    requires Subscribed(lens) && s < |lens| && t < |lens| && s != t && lens[s] > 0 && lens[t] > 0
    ensures !(CodeBits(lens, s) <= CodeBits(lens, t))
  {
    if CodeBits(lens, s) <= CodeBits(lens, t) {
      PrefixIsShift(lens, s, t);
      if lens[s] < lens[t] {
        LongerCodeIsBeyond(lens, s, t);
      } else if s < t {
        SameLengthDiffers(lens, s, t);
      } else {
        SameLengthDiffers(lens, t, s);
      }
    }
  }

  // --- The order of the codes ---

  /** The code space taken by the symbols below `n` that come before `s`: those with shorter codes, and those with a
      code of equal length and a smaller number. */
  function SpaceBefore(lens: seq<nat>, s: nat, n: nat): nat
    requires s < |lens| && n <= |lens|
  {
    if n == 0 then 0
    else
      var u := n - 1;
      SpaceBefore(lens, s, u) + if lens[u] < lens[s] || (lens[u] == lens[s] && u < s) then Share(lens[u]) else 0
  }

  lemma {:induction false} SpaceSplits(lens: seq<nat>, s: nat, n: nat)
    requires s < |lens| && n <= |lens| && lens[s] > 0
    ensures SpaceBefore(lens, s, n)
            == KraftUpTo(lens[..n], lens[s] - 1)
               + Count(lens[..if n < s then n else s], lens[s]) * Share(lens[s])
  {
    hide Share;
    if n > 0 {
      SpaceSplits(lens, s, n - 1);
      assert lens[..n][..n - 1] == lens[..n - 1];
      var l := lens[s];
      if n <= s && lens[n - 1] == l {
        Distribute(Count(lens[..n - 1], l), 1, Share(l));
      }
    }
  }

  /** Each code starts where the codes before it end, shorter ones first and equal ones by symbol number. */
  lemma {:induction false} CodesInOrder(lens: seq<nat>, s: nat)
    requires Subscribed(lens) && s < |lens| && lens[s] > 0
    ensures FromBits(CodeBits(lens, s)) * Pow2(MAX_CODEWORD_LEN - lens[s]) == SpaceBefore(lens, s, |lens|)
  {
    hide Pow2, KraftSum, KraftUpTo;
    var l, h := lens[s], Share(lens[s]);
    CodeFits(lens, s);
    SpaceSplits(lens, s, |lens|);
    assert lens[..|lens|] == lens;
    Distribute(FirstCode(lens, l), Count(lens[..s], l), h);
    FirstCodeIsKraft(lens, l);
  }

  lemma {:induction false} FirstCodeIsKraft(lens: seq<nat>, l: nat)
    requires 0 < l <= MAX_CODEWORD_LEN
    ensures FirstCode(lens, l) * Share(l) == KraftUpTo(lens, l - 1)
  {
    if l == 1 {
      KraftUpToZero(lens);
    } else {
      EndCodeIsKraft(lens, l - 1);
      Regroup(EndCode(lens, l - 1), Share(l));
    }
  }

  // --- Every window starts with a code, when the code is complete ---

  lemma {:induction false} SymbolOfRank(lens: seq<nat>, l: nat, r: nat) returns (s: nat)
    requires r < Count(lens, l)
    ensures s < |lens| && lens[s] == l && Count(lens[..s], l) == r
  {
    var n := |lens| - 1;
    if lens[n] == l && Count(lens[..n], l) == r {
      s := n;
    } else {
      s := SymbolOfRank(lens[..n], l, r);
      assert lens[..n][..s] == lens[..s];
    }
  }

  lemma {:induction false} ShrStep(v: nat, d: nat)
    ensures Shr(v, d) / 2 == Shr(v, d + 1)
  {
    if d > 0 {
      ShrStep(v / 2, d - 1);
    }
  }

  /** Descend to the shortest length at which the window falls below the end of the codes. */
  lemma {:induction false} CodeBelow(lens: seq<nat>, v: nat, l: nat) returns (s: nat)
    requires 0 < l <= MAX_CODEWORD_LEN && Shr(v, MAX_CODEWORD_LEN - l) < EndCode(lens, l)
    ensures s < |lens| && 0 < lens[s] <= l && Shr(v, MAX_CODEWORD_LEN - lens[s]) == CodeOf(lens, s)
  {
    var d := MAX_CODEWORD_LEN - l;
    ShrStep(v, d);
    if l > 1 && Shr(v, d + 1) < EndCode(lens, l - 1) {
      s := CodeBelow(lens, v, l - 1);
    } else {
      s := SymbolOfRank(lens, l, Shr(v, d) - FirstCode(lens, l));
    }
  }

  lemma {:induction false} EveryWindowDecodes(lens: seq<nat>, w: seq<Bit>) returns (s: nat)
    requires Complete(lens) && |w| == MAX_CODEWORD_LEN
    ensures s < |lens| && lens[s] > 0 && CodeBits(lens, s) <= w
  {
    var v := FromBits(w);
    FromBitsBound(w);
    ToFromBits(w);
    EndCodeIsKraft(lens, MAX_CODEWORD_LEN);
    KraftUpToMax(lens, MAX_CODEWORD_LEN);
    assert Share(MAX_CODEWORD_LEN) == 1;
    s := CodeBelow(lens, v, MAX_CODEWORD_LEN);
    ToBitsPrefix(v, MAX_CODEWORD_LEN, lens[s]);
  }

  // --- Prefix decoding ---

  predicate Decodes(lens: seq<nat>, w: seq<Bit>, s: nat) {
    s < |lens| && lens[s] > 0 && CodeBits(lens, s) <= w
  }

  /** The symbol whose code starts the window, searching from symbol `i`. */
  function FindSymbol(lens: seq<nat>, w: seq<Bit>, i: nat := 0): (r: Option<nat>)
    ensures r.Some? ==> Decodes(lens, w, r.value)
    ensures r.None? ==> forall s :: i <= s < |lens| ==> !Decodes(lens, w, s)
    decreases |lens| - i
  {
    if i >= |lens| then None
    else if Decodes(lens, w, i) then Some(i)
    else FindSymbol(lens, w, i + 1)
  }

  lemma {:induction false} DecodesUnique(lens: seq<nat>, w: seq<Bit>, s: nat, t: nat)
    requires Subscribed(lens) && Decodes(lens, w, s) && Decodes(lens, w, t)
    ensures s == t
  {
    var a, b := CodeBits(lens, s), CodeBits(lens, t);
    assert a <= b || b <= a;
    if s != t {
      PrefixFree(lens, s, t);
      PrefixFree(lens, t, s);
    }
  }

  lemma {:induction false} FindSymbolIs(lens: seq<nat>, w: seq<Bit>, s: nat)
    requires Subscribed(lens) && Decodes(lens, w, s)
    ensures FindSymbol(lens, w) == Some(s)
  {
    DecodesUnique(lens, w, s, FindSymbol(lens, w).value);
  }
}
