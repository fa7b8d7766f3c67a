/** Powers of two and the few nonlinear facts the codecs rest on. */
module Powers {

  function Pow2(n: nat): (r: nat)
    ensures r >= 1
  {
    if n == 0 then 1 else 2 * Pow2(n - 1)
  }

  lemma {:induction false} Pow2Add(a: nat, b: nat)
    ensures Pow2(a + b) == Pow2(a) * Pow2(b)
  {
    if b > 0 {
      Pow2Add(a, b - 1);
      calc {
        Pow2(a + b);
        2 * Pow2(a + (b - 1));
        2 * (Pow2(a) * Pow2(b - 1));
        Pow2(a) * (2 * Pow2(b - 1));
      }
    }
  }

  lemma {:induction false} Pow2Monotone(a: nat, b: nat)
    requires a <= b
    ensures Pow2(a) <= Pow2(b)
  {
    if a < b {
      Pow2Monotone(a, b - 1);
    }
  }

  lemma {:induction false} MulMonotone(a: nat, x: int, y: int)
    requires x <= y
    ensures a * x <= a * y
  {
  }

  lemma Distribute(a: int, b: int, h: int)
    ensures (a + b) * h == a * h + b * h
  {
  }

  lemma Associate(a: int, b: int, c: int)
    ensures a * b * c == a * (b * c)
  {
  }

  lemma CancelFactor(x: int, y: int, h: nat)
    requires h > 0 && x * h <= y * h
    ensures x <= y
  {
    if x > y {
      MulMonotone(h, y + 1, x);
    }
  }

  /** The quotient of `q * d + r` by `d` when `0 <= r < d`. */
  lemma {:induction false} DivUnique(n: int, d: int, q: int, r: int)
    requires d > 0 && n == q * d + r && 0 <= r < d
    ensures n / d == q && n % d == r
  {
    var q', r' := n / d, n % d;
    assert n == q' * d + r';
    var k := q - q';
    assert d * k == r' - r by {
      assert d * k == q * d - q' * d;
    }
    if k >= 1 {
      MulMonotone(d, 1, k);
    } else if k <= -1 {
      MulMonotone(d, k, -1);
    }
  }

  /** Floor division by `d` turns `lo * d <= x < hi * d` into `lo <= x / d < hi`. */
  lemma {:induction false} DivBounds(x: int, d: int, lo: int, hi: int)
    requires d > 0 && lo * d <= x < hi * d
    ensures lo <= x / d < hi
  {
    var q := x / d;
    assert x == q * d + x % d;
    assert d * (q + 1) == q * d + d;
    if q < lo {
      MulMonotone(d, q + 1, lo);
    }
    if q >= hi {
      MulMonotone(d, hi, q);
    }
  }

  lemma {:induction false} DivDiv(x: nat, a: nat, b: nat)
    requires a > 0 && b > 0
    ensures a * b > 0 && x / a / b == x / (a * b)
  {
    var q, r := x / a, x % a;
    var q', r' := q / b, q % b;
    assert a * b > 0 by { MulMonotone(a, 1, b); }
    assert x == q' * (a * b) + (r' * a + r) by {
      assert x == q * a + r;
      assert q == q' * b + r';
      assert (q' * b + r') * a == q' * (a * b) + r' * a;
    }
    assert 0 <= r' * a + r < a * b by {
      MulMonotone(a, r', b - 1);
      assert a * (b - 1) == a * b - a;
      assert r' * a == a * r';
    }
    DivUnique(x, a * b, q', r' * a + r);
  }

  lemma {:induction false} PowerTable()
    ensures Pow2(8) == 0x100 && Pow2(10) == 0x400 && Pow2(15) == 0x8000 && Pow2(16) == 0x1_0000
    ensures Pow2(32) == 0x1_0000_0000 && Pow2(64) == 0x1_0000_0000_0000_0000
  {
    assert Pow2(5) == 32 && Pow2(7) == 128;
    assert Pow2(8) == 0x100;
    Pow2Add(5, 5);
    Pow2Add(8, 7);
    Pow2Add(8, 8);
    Pow2Add(16, 16);
    Pow2Add(32, 32);
  }

  /** Logical shift right by `n`. */
  function Shr(v: nat, n: nat): nat {
    if n == 0 then v else Shr(v / 2, n - 1)
  }

  /** Shift left by `n`. */
  function Shl(v: nat, n: nat): nat {
    if n == 0 then v else 2 * Shl(v, n - 1)
  }

  /** The low `n` bits. */
  function LowBits(v: nat, n: nat): (r: nat)
    ensures r < Pow2(n)
  {
    if n == 0 then 0 else 2 * LowBits(v / 2, n - 1) + v % 2
  }

  lemma {:induction false} ShlIsMul(v: nat, n: nat)
    ensures Shl(v, n) == v * Pow2(n)
  {
    if n > 0 {
      ShlIsMul(v, n - 1);
    }
  }

  lemma {:induction false} ShrIsDiv(v: nat, n: nat)
    ensures Shr(v, n) == v / Pow2(n)
  {
    if n > 0 {
      ShrIsDiv(v / 2, n - 1);
      DivDiv(v, 2, Pow2(n - 1));
    }
  }

  lemma {:induction false} ShlAdd(v: nat, a: nat, b: nat)
    ensures Shl(v, a + b) == Shl(Shl(v, a), b)
  {
    if b > 0 {
      ShlAdd(v, a, b - 1);
    }
  }

  lemma {:induction false} ShrAdd(v: nat, a: nat, b: nat)
    ensures Shr(v, a + b) == Shr(Shr(v, a), b)
  {
    if a > 0 {
      ShrAdd(v / 2, a - 1, b);
    }
  }

  lemma {:induction false} ShlPlus(x: nat, y: nat, n: nat)
    ensures Shl(x + y, n) == Shl(x, n) + Shl(y, n)
  {
    if n > 0 {
      ShlPlus(x, y, n - 1);
    }
  }

  lemma {:induction false} ShlFits(v: nat, k: nat, n: nat)
    requires v < Pow2(k)
    ensures Shl(v, n) <= Pow2(k + n) - Pow2(n)
  {
    if n > 0 {
      ShlFits(v, k, n - 1);
    }
  }

  lemma {:induction false} ShrFits(v: nat, k: nat, d: nat)
    requires v < Pow2(k + d)
    ensures Shr(v, d) < Pow2(k)
  {
    if d > 0 {
      ShrFits(v / 2, k, d - 1);
    }
  }

  lemma {:induction false} ShrJoin(hi: nat, lo: nat, n: nat)
    requires lo < Pow2(n)
    ensures Shr(Shl(hi, n) + lo, n) == hi
  {
    if n > 0 {
      assert (Shl(hi, n) + lo) / 2 == Shl(hi, n - 1) + lo / 2;
      ShrJoin(hi, lo / 2, n - 1);
    }
  }

  /** A number is its high part and the `n` bits below. */
  lemma {:induction false} ShrSplit(v: nat, n: nat)
    ensures v == Shl(Shr(v, n), n) + LowBits(v, n)
  {
    if n > 0 {
      ShrSplit(v / 2, n - 1);
    }
  }

  /** What is shifted past 64 bits is lost. */
  lemma {:induction false} ShiftedOut(q: nat, r: nat)
    requires r < Pow2(64)
    ensures (Shl(q, 64) + r) % 0x1_0000_0000_0000_0000 == r
  {
    hide Shl;
    ShlIsMul(q, 64);
    PowerTable();
  }

  lemma {:induction false} LowBitsIsMod(v: nat, n: nat)
    ensures LowBits(v, n) == v % Pow2(n)
  {
    hide Shl, Shr;
    ShrSplit(v, n);
    ShlIsMul(Shr(v, n), n);
    DivUnique(v, Pow2(n), Shr(v, n), LowBits(v, n));
  }

  /** floor(log2 n), the position of the highest set bit. */
  function Log2(n: nat): nat
    requires n >= 1
  {
    if n == 1 then 0 else 1 + Log2(n / 2)
  }

  lemma {:induction false} Log2OfPow2(k: nat)
    ensures Log2(Pow2(k)) == k
  {
    if k > 0 {
      Log2OfPow2(k - 1);
      assert Pow2(k) / 2 == Pow2(k - 1);
    }
  }
}

/** Bit strings, most significant bit first. */
module BitStrings {
  import opened Powers

  type Bit = b: nat | b <= 1

  function ToBits(v: nat, n: nat): (bs: seq<Bit>)
    ensures |bs| == n
  {
    if n == 0 then [] else ToBits(v / 2, n - 1) + [v % 2]
  }

  function FromBits(bs: seq<Bit>): nat {
    if |bs| == 0 then 0 else 2 * FromBits(bs[..|bs| - 1]) + bs[|bs| - 1]
  }

  /** The most significant bit comes first. */
  lemma {:induction false} ToBitsDigit(v: nat, n: nat, k: nat)
    requires k < n
    ensures ToBits(v, n)[k] == v / Pow2(n - 1 - k) % 2
  {
    if k < n - 1 {
      ToBitsDigit(v / 2, n - 1, k);
      DivDiv(v, 2, Pow2(n - 2 - k));
    }
  }

  lemma {:induction false} FromBitsBound(bs: seq<Bit>)
    ensures FromBits(bs) < Pow2(|bs|)
  {
    if |bs| > 0 {
      FromBitsBound(bs[..|bs| - 1]);
    }
  }

  lemma {:induction false} FromToBits(v: nat, n: nat)
    requires v < Pow2(n)
    ensures FromBits(ToBits(v, n)) == v
  {
    if n > 0 {
      FromToBits(v / 2, n - 1);
      assert ToBits(v, n)[..n - 1] == ToBits(v / 2, n - 1);
    }
  }

  lemma {:induction false} ToFromBits(bs: seq<Bit>)
    ensures ToBits(FromBits(bs), |bs|) == bs
  {
    if |bs| > 0 {
      var p := bs[..|bs| - 1];
      ToFromBits(p);
      assert FromBits(bs) / 2 == FromBits(p) && FromBits(bs) % 2 == bs[|bs| - 1];
      assert bs == p + [bs[|bs| - 1]];
    }
  }

  lemma {:induction false} FromBitsConcat(a: seq<Bit>, b: seq<Bit>)
    ensures FromBits(a + b) == Shl(FromBits(a), |b|) + FromBits(b)
  {
    if |b| == 0 {
      assert a + b == a;
    } else {
      FromBitsConcat(a, b[..|b| - 1]);
      assert (a + b)[..|a + b| - 1] == a + b[..|b| - 1];
    }
  }

  lemma {:induction false} FromBitsInjective(a: seq<Bit>, b: seq<Bit>)
    requires |a| == |b| && FromBits(a) == FromBits(b)
    ensures a == b
  {
    ToFromBits(a);
    ToFromBits(b);
  }

  /** The first `k` bits of a value are the value with its low bits shifted out. */
  lemma {:induction false} ToBitsPrefix(v: nat, n: nat, k: nat)
    requires k <= n
    ensures ToBits(v, n)[..k] == ToBits(Shr(v, n - k), k)
  {
    if k == n {
      assert ToBits(v, n)[..k] == ToBits(v, n);
    } else {
      ToBitsPrefix(v / 2, n - 1, k);
      assert ToBits(v, n)[..k] == ToBits(v / 2, n - 1)[..k];
    }
  }

  lemma {:induction false} ToBitsAt(v: nat, n: nat, i: nat)
    requires i < n
    ensures ToBits(v, n)[n - 1 - i] == Shr(v, i) % 2
  {
    if i > 0 {
      ToBitsAt(v / 2, n - 1, i - 1);
    }
  }

  lemma {:induction false} ToBitsConcat(v: nat, a: nat, b: nat)
    ensures ToBits(v, a + b) == ToBits(Shr(v, b), a) + ToBits(v, b)
  {
    if b > 0 {
      ToBitsConcat(v / 2, a, b - 1);
      assert ToBits(v, a + b) == ToBits(v / 2, a + (b - 1)) + [v % 2];
    }
  }

  /** The low bits are untouched by whatever stands above them. */
  lemma {:induction false} ToBitsLow(hi: nat, lo: nat, n: nat)
    ensures ToBits(Shl(hi, n) + lo, n) == ToBits(lo, n)
  {
    if n > 0 {
      var v := Shl(hi, n) + lo;
      assert v / 2 == Shl(hi, n - 1) + lo / 2 && v % 2 == lo % 2;
      ToBitsLow(hi, lo / 2, n - 1);
    }
  }

  lemma {:induction false} ToBitsJoin(hi: nat, a: nat, lo: nat, b: nat)
    requires lo < Pow2(b)
    ensures ToBits(Shl(hi, b) + lo, a + b) == ToBits(hi, a) + ToBits(lo, b)
  {
    ToBitsConcat(Shl(hi, b) + lo, a, b);
    ShrJoin(hi, lo, b);
    ToBitsLow(hi, lo, b);
  }

  // --- Reading past the end yields zeros ---

  function Zeros(n: nat): (z: seq<Bit>)
    ensures |z| == n
    ensures forall i :: 0 <= i < n ==> z[i] == 0
  {
    seq(n, i => 0)
  }

  lemma {:induction false} FromZeros(n: nat)
    ensures FromBits(Zeros(n)) == 0
  {
    if n > 0 {
      FromZeros(n - 1);
      assert Zeros(n)[..n - 1] == Zeros(n - 1);
    }
  }

  /** The next `n` bits of a stream that continues with zeros for ever. */
  function Peek(rest: seq<Bit>, n: nat): (bs: seq<Bit>)
    ensures |bs| == n
    ensures forall i :: 0 <= i < n ==> bs[i] == if i < |rest| then rest[i] else 0
  {
    if n <= |rest| then rest[..n] else rest + Zeros(n - |rest|)
  }

  function Skip(rest: seq<Bit>, n: nat): seq<Bit> {
    if n <= |rest| then rest[n..] else []
  }

  lemma {:induction false} PeekOfPrefix(p: seq<Bit>, q: seq<Bit>)
    ensures Peek(p + q, |p|) == p
    ensures Skip(p + q, |p|) == q
  {
  }

  /** Taking `a` bits and then `b` bits is taking `a + b` bits. */
  lemma {:induction false} PeekSplit(rest: seq<Bit>, a: nat, b: nat)
    ensures Peek(rest, a + b) == Peek(rest, a) + Peek(Skip(rest, a), b)
    ensures Skip(rest, a + b) == Skip(Skip(rest, a), b)
  {
  }
}
