/** Bit strings with the least significant bit first, as packed into bytes by the patch bit stream. */
module LsbBits {
  import opened Powers
  import opened BitStrings
  import opened RangeCoding

  function ToLsb(v: nat, n: nat): (bs: seq<Bit>)
    ensures |bs| == n
  {
    if n == 0 then [] else [v % 2] + ToLsb(v / 2, n - 1)
  }

  /** The least significant bit comes first. */
  lemma {:induction false} ToLsbDigit(v: nat, n: nat, k: nat)
    requires k < n
    ensures ToLsb(v, n)[k] == v / Pow2(k) % 2
  {
    if k > 0 {
      ToLsbDigit(v / 2, n - 1, k - 1);
      DivDiv(v, 2, Pow2(k - 1));
    }
  }

  function FromLsb(bs: seq<Bit>): nat {
    if |bs| == 0 then 0 else bs[0] + 2 * FromLsb(bs[1..])
  }

  /** Reading `n` written bits back gives the value cut to `n` bits. */
  lemma {:induction false} FromToLsb(v: nat, n: nat)
    ensures FromLsb(ToLsb(v, n)) == LowBits(v, n)
  {
    if n > 0 {
      FromToLsb(v / 2, n - 1);
    }
  }

  lemma {:induction false} LowBitsFit(v: nat, n: nat)
    requires v < Pow2(n)
    ensures LowBits(v, n) == v
  {
    if n > 0 {
      LowBitsFit(v / 2, n - 1);
    }
  }

  lemma {:induction false} ToFromLsb(bs: seq<Bit>)
    ensures ToLsb(FromLsb(bs), |bs|) == bs
  {
    if |bs| > 0 {
      ToFromLsb(bs[1..]);
    }
  }

  lemma {:induction false} FromLsbBound(bs: seq<Bit>)
    ensures FromLsb(bs) < Pow2(|bs|)
  {
    if |bs| > 0 {
      FromLsbBound(bs[1..]);
    }
  }

  lemma {:induction false} FromLsbConcat(a: seq<Bit>, b: seq<Bit>)
    ensures FromLsb(a + b) == FromLsb(a) + Shl(FromLsb(b), |a|)
  {
    if |a| == 0 {
      assert a + b == b;
    } else {
      FromLsbConcat(a[1..], b);
      assert (a + b)[1..] == a[1..] + b;
    }
  }

  lemma {:induction false} FromLsbZeros(n: nat)
    ensures FromLsb(Zeros(n)) == 0
  {
    if n > 0 {
      FromLsbZeros(n - 1);
      assert Zeros(n)[1..] == Zeros(n - 1);
    }
  }

  /** Zeros above change nothing. */
  lemma {:induction false} FromLsbPadded(bs: seq<Bit>, n: nat)
    ensures FromLsb(bs + Zeros(n)) == FromLsb(bs)
  {
    FromLsbConcat(bs, Zeros(n));
    FromLsbZeros(n);
    ShlIsMul(0, |bs|);
  }

  lemma {:induction false} ShrOfLsb(bs: seq<Bit>, k: nat)
    ensures Shr(FromLsb(bs), k) == if k <= |bs| then FromLsb(bs[k..]) else 0
  {
    if k > 0 {
      if |bs| == 0 {
        ShrIsDiv(0, k);
      } else {
        assert FromLsb(bs) / 2 == FromLsb(bs[1..]);
        ShrOfLsb(bs[1..], k - 1);
        assert k <= |bs| ==> bs[1..][k - 1..] == bs[k..];
      }
    }
  }

  lemma {:induction false} LowOfLsb(bs: seq<Bit>, k: nat)
    requires k <= |bs|
    ensures LowBits(FromLsb(bs), k) == FromLsb(bs[..k])
  {
    if k > 0 {
      assert FromLsb(bs) / 2 == FromLsb(bs[1..]) && FromLsb(bs) % 2 == bs[0];
      LowOfLsb(bs[1..], k - 1);
      assert bs[1..][..k - 1] == bs[..k][1..];
    }
  }

  lemma {:induction false} ToLsbJoin(lo: nat, a: nat, hi: nat, b: nat)
    requires lo < Pow2(a)
    ensures ToLsb(lo + Shl(hi, a), a + b) == ToLsb(lo, a) + ToLsb(hi, b)
  {
    if a > 0 {
      var v := lo + Shl(hi, a);
      assert v / 2 == lo / 2 + Shl(hi, a - 1) && v % 2 == lo % 2;
      ToLsbJoin(lo / 2, a - 1, hi, b);
    }
  }

  lemma {:induction false} ToLsbSplit(v: nat, a: nat, b: nat)
    ensures ToLsb(v, a + b) == ToLsb(LowBits(v, a), a) + ToLsb(Shr(v, a), b)
    ensures ToLsb(v, a) == ToLsb(LowBits(v, a), a)
  {
    if a > 0 {
      ToLsbSplit(v / 2, a - 1, b);
      assert LowBits(v, a) / 2 == LowBits(v / 2, a - 1) && LowBits(v, a) % 2 == v % 2;
    }
  }

  // --- Bitwise or ---

  /** Bitwise or of the low `n` bits. */
  function Or(a: nat, b: nat, n: nat): nat {
    if n == 0 then 0 else (if a % 2 == 1 || b % 2 == 1 then 1 else 0) + 2 * Or(a / 2, b / 2, n - 1)
  }

  lemma {:induction false} OrOfLsb(x: seq<Bit>, y: seq<Bit>, z: seq<Bit>)
    requires |x| == |y| == |z|
    requires forall i :: 0 <= i < |z| ==> z[i] == if x[i] == 1 || y[i] == 1 then 1 else 0
    ensures Or(FromLsb(x), FromLsb(y), |z|) == FromLsb(z)
  {
    if |z| > 0 {
      assert FromLsb(x) / 2 == FromLsb(x[1..]) && FromLsb(x) % 2 == x[0];
      assert FromLsb(y) / 2 == FromLsb(y[1..]) && FromLsb(y) % 2 == y[0];
      OrOfLsb(x[1..], y[1..], z[1..]);
    }
  }

  // --- Bytes ---

  function AllBits(data: seq<Byte>): (bs: seq<Bit>)
    ensures |bs| == 8 * |data|
  {
    if |data| == 0 then [] else ToLsb(data[0], 8) + AllBits(data[1..])
  }

  lemma {:induction false} AllBitsConcat(a: seq<Byte>, b: seq<Byte>)
    ensures AllBits(a + b) == AllBits(a) + AllBits(b)
  {
    if |a| == 0 {
      assert a + b == b;
    } else {
      AllBitsConcat(a[1..], b);
      assert (a + b)[1..] == a[1..] + b;
    }
  }

  lemma {:induction false} AllBitsFrom(data: seq<Byte>, pos: nat)
    requires pos <= |data|
    ensures AllBits(data)[8 * pos..] == AllBits(data[pos..])
    ensures AllBits(data)[..8 * pos] == AllBits(data[..pos])
  {
    AllBitsConcat(data[..pos], data[pos..]);
    assert data == data[..pos] + data[pos..];
  }

  // --- Little-endian numbers ---

  function LeBytes(v: nat, n: nat): (bs: seq<Byte>)
    ensures |bs| == n
    decreases n
  {
    if n == 0 then [] else [v % 0x100] + LeBytes(v / 0x100, n - 1)
  }

  function LeValue(bs: seq<Byte>): nat {
    if |bs| == 0 then 0 else (bs[0] as nat) + 0x100 * LeValue(bs[1..])
  }

  /** The lowest byte comes first. */
  lemma {:induction false} FourBytes(bs: seq<Byte>)
    requires |bs| == 4
    ensures var a: nat, b: nat, c: nat, d: nat := bs[0], bs[1], bs[2], bs[3];
            LeValue(bs) == a + 0x100 * b + 0x1_0000 * c + 0x100_0000 * d
  {
    hide LeValue;
    LowestByteFirst(bs);
    LowestByteFirst(bs[1..]);
    LowestByteFirst(bs[2..]);
    LowestByteFirst(bs[3..]);
    assert bs[1..][1..] == bs[2..] && bs[2..][1..] == bs[3..] && bs[3..][1..] == [];
    NoBytes();
  }

  lemma {:induction false} LowestByteFirst(bs: seq<Byte>)
    requires |bs| > 0
    ensures LeValue(bs) == (bs[0] as nat) + 0x100 * LeValue(bs[1..])
  {
  }

  lemma {:induction false} NoBytes()
    ensures LeValue([]) == 0
  {
  }

  lemma {:induction false} LeReadBack(v: nat, n: nat)
    requires v < Pow2(8 * n)
    ensures LeValue(LeBytes(v, n)) == v
    decreases n
  {
    if n > 0 {
      Pow2Add(8, 8 * (n - 1));
      assert Pow2(8) == 256;
      LeReadBack(v / 0x100, n - 1);
      assert LeBytes(v, n)[1..] == LeBytes(v / 0x100, n - 1);
    }
  }

  lemma {:induction false} LeValueBits(data: seq<Byte>)
    ensures LeValue(data) == FromLsb(AllBits(data))
  {
    if |data| > 0 {
      LeValueBits(data[1..]);
      FromLsbConcat(ToLsb(data[0], 8), AllBits(data[1..]));
      FromToLsb(data[0], 8);
      PowerTable();
      LowBitsFit(data[0], 8);
      ShlIsMul(FromLsb(AllBits(data[1..])), 8);
    }
  }
}
