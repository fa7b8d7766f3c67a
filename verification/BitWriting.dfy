/** Writing the patch bit stream, and that everything written is read back. */
module BitWriting {
  import opened Powers
  import opened BitStrings
  import opened RangeCoding
  import opened LsbBits
  import opened BitReading

  lemma {:induction false} LeBytesBits(v: nat, n: nat)
    ensures AllBits(LeBytes(v, n)) == ToLsb(v, 8 * n)
    decreases n
  {
    if n > 0 {
      hide LowBits, Shr;
      LeBytesBits(v / 0x100, n - 1);
      ToLsbSplit(v, 8, 8 * (n - 1));
      ToLsbSplit(v % 0x100, 8, 0);
      EightBits(v);
      assert LeBytes(v, n)[1..] == LeBytes(v / 0x100, n - 1);
    }
  }

  lemma {:induction false} EightBits(v: nat)
    ensures LowBits(v, 8) == v % 0x100 && Shr(v, 8) == v / 0x100 && LowBits(v % 0x100, 8) == v % 0x100
  {
    PowerTable();
    ShrIsDiv(v, 8);
    LowBitsIsMod(v, 8);
    LowBitsFit(v % 0x100, 8);
  }

  lemma {:induction false} FirstByte(a: seq<Byte>)
    requires |a| > 0
    ensures AllBits(a)[..8] == ToLsb(a[0], 8) && AllBits(a)[8..] == AllBits(a[1..])
  {
  }

  lemma {:induction false} SameByte(a: Byte, b: Byte)
    requires ToLsb(a, 8) == ToLsb(b, 8)
    ensures a == b
  {
    hide ToLsb, FromLsb, LowBits;
    FromToLsb(a, 8);
    FromToLsb(b, 8);
    EightBits(a);
    EightBits(b);
  }

  lemma {:induction false} AllBitsInjective(a: seq<Byte>, b: seq<Byte>)
    requires AllBits(a) == AllBits(b)
    ensures a == b
    decreases |a|
  {
    assert |a| == |b|;
    if |a| > 0 {
      hide AllBits, ToLsb;
      FirstByte(a);
      FirstByte(b);
      SameByte(a[0], b[0]);
      AllBitsInjective(a[1..], b[1..]);
    }
  }

  /** How many zero bits fill up the last byte. */
  function Padding(n: nat): (pad: nat)
    ensures pad < 8 && (n + pad) % 8 == 0
  {
    (8 - n % 8) % 8
  }

  /** The finished stream: its first three bits, kept free for it, hold the padding. */
  function Sealed(content: seq<Bit>): (r: seq<Bit>)
    requires |content| >= 3
  {
    ToLsb(Padding(|content|), 3) + content[3..] + Zeros(Padding(|content|))
  }

  /** A reader of the finished stream starts at the first bit after the padding count, and only the
      padding follows what was written. */
  lemma {:induction false} SealedOpens(data: seq<Byte>, content: seq<Bit>)
    requires |content| >= 3 && AllBits(data) == Sealed(content)
    ensures Openable(data) && data[0] % 8 == Padding(|content|)
    ensures AllBits(data)[3..] == content[3..] + Zeros(Padding(|content|))
  {
    hide AllBits, ToLsb, LowBits;
    var pad := Padding(|content|);
    assert |AllBits(data)| == |content| + pad;
    FirstByte(data);
    assert ToLsb(data[0], 8)[..3] == AllBits(data)[..3] == ToLsb(pad, 3);
    ToLsbSplit(data[0], 3, 5);
    FromToLsb(data[0], 3);
    FromToLsb(pad, 3);
    LowThree(data[0]);
    LowThree(pad);
    ToLsbSplit(data[0], 3, 0);
    assert ToLsb(data[0], 3) == ToLsb(pad, 3);
  }

  lemma {:induction false} LowThree(v: nat)
    ensures LowBits(v, 3) == v % 8
  {
    LowBitsIsMod(v, 3);
    assert Pow2(3) == 8;
  }

  // --- Variable-length numbers ---

  /** Four-bit groups above the lowest one. */
  function Nibbles(v: nat): nat {
    if v == 0 then 0 else Log2(v) / 4
  }

  function I64Bits(v: nat): seq<Bit> {
    Zeros(Nibbles(v)) + [1] + ToLsb(v, 4 * (Nibbles(v) + 1))
  }

  /** A buffer after `start` bits. */
  function BufferBits(data: seq<Byte>, start: nat): seq<Bit> {
    I64Bits(|data|) + Zeros(Padding(start + |I64Bits(|data|)|)) + AllBits(data)
  }

  function U32Bits(v: nat): seq<Bit>
    requires v >= 0x100
  {
    var n := Log2(v);
    Log2AtLeast(v, 8);
    Log2Bounds(v);
    Zeros(n - 8) + [1] + ToLsb(v - Pow2(n), n)
  }

  lemma {:induction false} Log2Bounds(v: nat)
    requires v >= 1
    ensures Pow2(Log2(v)) <= v < Pow2(Log2(v) + 1)
  {
    if v > 1 {
      Log2Bounds(v / 2);
    }
  }

  lemma {:induction false} Log2AtLeast(v: nat, k: nat)
    requires Pow2(k) <= v || (k == 8 && v >= 0x100)
    ensures v >= 1 && Log2(v) >= k
  {
    PowerTable();
    Log2Bounds(v);
    if Log2(v) < k {
      Pow2Monotone(Log2(v) + 1, k);
    }
  }

  lemma {:induction false} Log2Below(v: nat, k: nat)
    requires 1 <= v < Pow2(k)
    ensures Log2(v) < k
  {
    Log2Bounds(v);
    if Log2(v) >= k {
      Pow2Monotone(k, Log2(v));
    }
  }

  lemma {:induction false} NibblesSuffice(v: nat)
    ensures v < Pow2(4 * (Nibbles(v) + 1))
    ensures v < 0x1_0000_0000_0000_0000 ==> Nibbles(v) <= 15
  {
    PowerTable();
    if v > 0 {
      Log2Bounds(v);
      Pow2Monotone(Log2(v) + 1, 4 * (Nibbles(v) + 1));
      if v < 0x1_0000_0000_0000_0000 {
        Log2Below(v, 64);
      }
    }
  }

  lemma {:induction false} LeadingOfCode(n: nat, more: seq<Bit>, cap: nat)
    requires n < cap
    ensures LeadingZeros(Zeros(n) + [1] + more, cap) == n
    decreases cap
  {
    var bs := Zeros(n) + [1] + more;
    if n > 0 {
      LeadingOfCode(n - 1, more, cap - 1);
      assert bs[1..] == Zeros(n - 1) + [1] + more;
    }
  }

  lemma {:induction false} FieldReadBack(v: nat, n: nat, tail: seq<Bit>)
    requires v < Pow2(n)
    ensures TakeField(ToLsb(v, n) + tail, n) == Field(v, tail)
  {
    FromToLsb(v, n);
    LowBitsFit(v, n);
    assert (ToLsb(v, n) + tail)[..n] == ToLsb(v, n);
  }

  /** Every 64-bit number is read back, whatever follows. */
  lemma {:induction false} I64ReadBack(v: nat, tail: seq<Bit>)
    requires v < 0x1_0000_0000_0000_0000
    ensures TakeI64(I64Bits(v) + tail) == Field(v, tail)
  {
    hide LeadingZeros, ToLsb, Pow2, Nibbles;
    var n := Nibbles(v);
    NibblesSuffice(v);
    var value := ToLsb(v, 4 * (n + 1));
    var all := I64Bits(v) + tail;
    assert all == Zeros(n) + [1] + (value + tail);
    LeadingOfCode(n, value + tail, 16);
    assert all[n + 1..] == value + tail;
    FieldReadBack(v, 4 * (n + 1), tail);
  }

  /** Every 32-bit number from 256 on is read back. */
  lemma {:induction false} U32ReadBack(v: nat, tail: seq<Bit>)
    requires 0x100 <= v < 0x1_0000_0000
    ensures TakeU32Number(U32Bits(v) + tail) == Field(v, tail)
  {
    hide LeadingZeros, ToLsb, Log2, Pow2, TakeField;
    var n := Log2(v);
    Log2AtLeast(v, 8);
    Log2Bounds(v);
    PowerTable();
    NextPower(n);
    Log2Below(v, 32);
    var value := ToLsb(v - Pow2(n), n);
    var all := U32Bits(v) + tail;
    assert all == Zeros(n - 8) + [1] + (value + tail);
    LeadingOfCode(n - 8, value + tail, 24);
    assert all[n - 7..] == value + tail;
    FieldReadBack(v - Pow2(n), n, tail);
  }

  lemma {:induction false} NextPower(n: nat)
    ensures Pow2(n + 1) == 2 * Pow2(n)
  {
  }

  lemma {:induction false} UnaryBits(n: nat)
    ensures ToLsb(Pow2(n), n + 1) == Zeros(n) + [1]
  {
    if n > 0 {
      UnaryBits(n - 1);
      assert Pow2(n) / 2 == Pow2(n - 1) && Pow2(n) % 2 == 0;
    }
  }

  class BitWriter {
    var buf: seq<Byte>
    var accum: nat
    var bits: nat

    ghost predicate Valid()
      reads this
    {
      bits < 32 && accum < Pow2(bits)
    }

    /** Everything written so far. */
    ghost function Content(): seq<Bit>
      reads this
    {
      AllBits(buf) + ToLsb(accum, bits)
    }

    /** The three bits for the padding count come first. */
    constructor ()
      ensures Valid() && Content() == Zeros(3)
    {
      buf, accum, bits := [], 0, 0;
      new;
      assert Content() == [];
      WriteBits(0, 3);
      assert ToLsb(0, 3) == Zeros(3);
    }

    /** Move whole 32-bit words to the buffer. */
    method Flush()
      requires accum < Pow2(bits)
      modifies this
      ensures Valid() && Content() == old(Content()) && bits == old(bits) % 32
    {
      hide AllBits, ToLsb, Pow2, Shr, LowBits;
      while bits >= 32
        invariant accum < Pow2(bits) && Content() == old(Content()) && bits % 32 == old(bits) % 32
        decreases bits
      {
        FlushedWord(buf, accum, bits);
        var word := LowBits(accum, 32);
        buf := buf + LeBytes(word, 4);
        accum := Shr(accum, 32);
        bits := bits - 32;
      }
    }

    static lemma {:induction false} FlushedWord(buf: seq<Byte>, accum: nat, bits: nat)
      requires bits >= 32 && accum < Pow2(bits)
      ensures Shr(accum, 32) < Pow2(bits - 32)
      ensures AllBits(buf) + ToLsb(accum, bits)
           == AllBits(buf + LeBytes(LowBits(accum, 32), 4)) + ToLsb(Shr(accum, 32), bits - 32)
    {
      hide AllBits, ToLsb, LowBits, LeBytes;
      ShrFits(accum, bits - 32, 32);
      ToLsbSplit(accum, 32, bits - 32);
      LeBytesBits(LowBits(accum, 32), 4);
      AllBitsConcat(buf, LeBytes(LowBits(accum, 32), 4));
    }

    method WriteBits(val: nat, n: nat)
      requires Valid() && n <= 64
      modifies this
      ensures Valid() && Content() == old(Content()) + ToLsb(val, n)
    {
      hide AllBits, ToLsb, Pow2, Shr, Shl, LowBits;
      ghost var goal := Content() + ToLsb(val, n);
      var masked := LowBits(val, n);
      ToLsbSplit(val, n, 0);
      if bits + n > 64 {
        SplitField(buf, accum, bits, masked, n);
        var low := 64 - bits;
        accum := accum + Shl(LowBits(masked, low), bits);
        bits := 64;
        Flush();
        assert accum == 0 by { NoBitsLeft(accum); }
        accum := Shr(masked, low);
        bits := n - low;
        AppendEmpty(buf, accum, bits);
      } else {
        AddField(buf, accum, bits, masked, n);
        accum := accum + Shl(masked, bits);
        bits := bits + n;
      }
      Flush();
    }

    static lemma {:induction false} NoBitsLeft(accum: nat)
      requires accum < Pow2(0)
      ensures accum == 0
    {
    }

    static lemma {:induction false} AppendEmpty(buf: seq<Byte>, v: nat, n: nat)
      ensures (AllBits(buf) + ToLsb(0, 0)) + ToLsb(v, n) == AllBits(buf) + ToLsb(v, n)
    {
    }

    static lemma {:induction false} AddField(buf: seq<Byte>, accum: nat, bits: nat, v: nat, n: nat)
      requires accum < Pow2(bits) && v < Pow2(n)
      ensures accum + Shl(v, bits) < Pow2(bits + n)
      ensures AllBits(buf) + ToLsb(accum + Shl(v, bits), bits + n)
           == (AllBits(buf) + ToLsb(accum, bits)) + ToLsb(v, n)
    {
      hide AllBits, ToLsb;
      ToLsbJoin(accum, bits, v, n);
      ShlFits(v, n, bits);
    }

    static lemma {:induction false} SplitField(buf: seq<Byte>, accum: nat, bits: nat, v: nat, n: nat)
      requires accum < Pow2(bits) && v < Pow2(n) && bits < 64 < bits + n && n <= 64
      ensures var low := 64 - bits;
              && accum + Shl(LowBits(v, low), bits) < Pow2(64) && Shr(v, low) < Pow2(n - low)
              && (AllBits(buf) + ToLsb(accum, bits)) + ToLsb(v, n)
              == (AllBits(buf) + ToLsb(accum + Shl(LowBits(v, low), bits), 64)) + ToLsb(Shr(v, low), n - low)
    {
      hide AllBits, ToLsb, Shl, Shr, LowBits, Pow2;
      var low := 64 - bits;
      ToLsbSplit(v, low, n - low);
      AddField(buf, accum, bits, LowBits(v, low), low);
      ShrFits(v, n - low, low);
    }

    /** A unary count of 4-bit groups and the groups; high words are written in two parts. */
    method WriteI64(v: nat)
      requires Valid() && v < 0x1_0000_0000_0000_0000
      modifies this
      ensures Valid() && Content() == old(Content()) + I64Bits(v)
    {
      hide Content, ToLsb, Pow2, Log2;
      NibblesSuffice(v);
      HighWord(v);
      var high := v / 0x1_0000_0000;
      if high == 0 {
        var nibbles := if v == 0 then 0 else Log2(v) / 4;
        UnaryBits(nibbles);
        WriteBits(Pow2(nibbles), nibbles + 1);
        WriteBits(v, 4 * (nibbles + 1));
      } else {
        var nibbles := Log2(high) / 4;
        UnaryBits(nibbles + 8);
        WriteBits(Pow2(nibbles + 8), nibbles + 9);
        WriteBits(v % 0x1_0000_0000, 32);
        WriteBits(high, 4 * nibbles + 4);
      }
    }

    /** Groups of a number with a high word: eight more than those of the high word, whose bits follow
        the 32 low ones. */
    static lemma {:induction false} HighWord(v: nat)
      requires v < 0x1_0000_0000_0000_0000
      ensures var high := v / 0x1_0000_0000;
              && (high == 0 ==> Nibbles(v) <= 7)
              && (high > 0 ==> Nibbles(v) == Log2(high) / 4 + 8)
              && (high > 0 ==> forall k: nat :: ToLsb(v, 32 + k) == ToLsb(v % 0x1_0000_0000, 32) + ToLsb(high, k))
    {
      var high := v / 0x1_0000_0000;
      PowerTable();
      if high == 0 {
        if v > 0 {
          Log2Below(v, 32);
        }
      } else {
        Log2Shifted(v, 32);
        ShrIsDiv(v, 32);
        LowBitsIsMod(v, 32);
        forall k: nat ensures ToLsb(v, 32 + k) == ToLsb(v % 0x1_0000_0000, 32) + ToLsb(high, k) {
          ToLsbSplit(v, 32, k);
        }
      }
    }

    static lemma {:induction false} Log2Shifted(v: nat, k: nat)
      requires v / Pow2(k) >= 1
      ensures v >= 1 && Log2(v) == Log2(v / Pow2(k)) + k
    {
      if k == 0 {
      } else {
        DivDiv(v, 2, Pow2(k - 1));
        Log2Shifted(v / 2, k - 1);
      }
    }

    method WriteU32Number(v: nat)
      requires Valid() && 0x100 <= v < 0x1_0000_0000
      modifies this
      ensures Valid() && Content() == old(Content()) + U32Bits(v)
    {
      hide Content, ToLsb, Pow2, Log2;
      Log2AtLeast(v, 8);
      Log2Bounds(v);
      assert Log2(v) < 32 by { ThirtyTwo(v); }
      var n := Log2(v);
      UnaryBits(n - 8);
      WriteBits(Pow2(n - 8), n - 7);
      WriteBits(v - Pow2(n), n);
    }

    static lemma {:induction false} ThirtyTwo(v: nat)
      requires 1 <= v < 0x1_0000_0000
      ensures Log2(v) < 32
    {
      PowerTable();
      Log2Below(v, 32);
    }

    method AlignToByte()
      requires Valid()
      modifies this
      ensures Valid() && Content() == old(Content()) + Zeros(Padding(|old(Content())|)) && bits % 8 == 0
    {
      ContentLength(buf, accum, bits);
      var pad := (8 - bits % 8) % 8;
      ZeroField(pad);
      WriteBits(0, pad);
      ContentLength(buf, accum, bits);
    }

    static lemma {:induction false} ContentLength(buf: seq<Byte>, accum: nat, bits: nat)
      ensures |AllBits(buf) + ToLsb(accum, bits)| % 8 == bits % 8
    {
    }

    static lemma {:induction false} ZeroField(n: nat)
      ensures ToLsb(0, n) == Zeros(n)
    {
      if n > 0 {
        ZeroField(n - 1);
      }
    }

    /** A length, padding to a byte boundary, and the bytes, copied whole when the accumulator is empty. */
    method WriteBuffer(data: seq<Byte>)
      requires Valid() && |data| < 0x1_0000_0000_0000_0000
      modifies this
      ensures Valid() && Content() == old(Content()) + BufferBits(data, |old(Content())|)
    {
      hide ToLsb, AllBits, Pow2, I64Bits;
      WriteI64(|data|);
      AlignToByte();
      ghost var before := Content();
      if bits == 0 {
        EmptyAccum();
        AllBitsConcat(buf, data);
        AppendEmptyField(buf + data, accum);
        AppendEmptyField(buf, accum);
        buf := buf + data;
      } else {
        for k := 0 to |data|
          invariant Valid() && Content() == before + AllBits(data[..k])
        {
          OneMoreByte(data, k);
          WriteBits(data[k], 8);
        }
        assert data[..|data|] == data;
      }
      assert Content() == before + AllBits(data);
    }

    lemma EmptyAccum()
      requires Valid() && bits == 0
      ensures accum == 0
    {
    }

    static lemma {:induction false} AppendEmptyField(buf: seq<Byte>, v: nat)
      ensures AllBits(buf) + ToLsb(v, 0) == AllBits(buf)
    {
    }

    static lemma {:induction false} OneMoreByte(data: seq<Byte>, k: nat)
      requires k < |data|
      ensures AllBits(data[..k + 1]) == AllBits(data[..k]) + ToLsb(data[k], 8)
    {
      AllBitsConcat(data[..k], [data[k]]);
      assert data[..k + 1] == data[..k] + [data[k]];
      assert [data[k]][1..] == [];
    }

    /** Pad the last byte, and put the amount of padding into the first three bits. */
    method Finish() returns (r: seq<Byte>)
      requires Valid() && Zeros(3) <= Content()
      modifies this
      ensures AllBits(r) == Sealed(old(Content()))
    {
      hide ToLsb, Pow2;
      ghost var content := Content();
      var pad := (8 - bits % 8) % 8;
      assert pad == Padding(|content|) by { ContentLength(buf, accum, bits); }
      AlignToByte();
      FlushFinal();
      r := SetPadding(buf, content, pad);
    }

    method FlushFinal()
      requires Valid() && bits % 8 == 0
      modifies this
      ensures AllBits(buf) == old(Content())
    {
      hide ToLsb, Pow2, Shr, LowBits;
      while bits > 0
        invariant accum < Pow2(bits) && Content() == old(Content()) && bits % 8 == 0
        decreases bits
      {
        FinalByte(buf, accum, bits);
        buf := buf + [accum % 0x100];
        accum := Shr(accum, 8);
        bits := bits - 8;
      }
    }

    static lemma {:induction false} FinalByte(buf: seq<Byte>, accum: nat, bits: nat)
      requires bits >= 8 && accum < Pow2(bits)
      ensures Shr(accum, 8) < Pow2(bits - 8)
      ensures AllBits(buf) + ToLsb(accum, bits) == AllBits(buf + [accum % 0x100]) + ToLsb(Shr(accum, 8), bits - 8)
    {
      hide ToLsb, LowBits, Shr;
      ShrFits(accum, bits - 8, 8);
      ToLsbSplit(accum, 8, bits - 8);
      EightBits(accum);
      AllBitsConcat(buf, [accum % 0x100]);
      assert [accum % 0x100][1..] == [];
    }

    static method SetPadding(buf: seq<Byte>, ghost content: seq<Bit>, pad: nat) returns (r: seq<Byte>)
      requires Zeros(3) <= content && pad == Padding(|content|) && AllBits(buf) == content + Zeros(pad)
      ensures AllBits(r) == Sealed(content)
    {
      hide AllBits, ToLsb;
      FirstBitsSet(buf, pad);
      r := buf[0 := buf[0] - buf[0] % 8 + pad];
    }

    static lemma {:induction false} FirstBitsSet(buf: seq<Byte>, pad: nat)
      requires |buf| > 0 && pad < 8
      ensures AllBits(buf[0 := buf[0] - buf[0] % 8 + pad]) == ToLsb(pad, 3) + AllBits(buf)[3..]
    {
      hide ToLsb;
      var b, c := buf[0], buf[0] - buf[0] % 8 + pad;
      LowThreeSet(b, pad);
      assert buf[0 := c][1..] == buf[1..];
    }

    static lemma {:induction false} LowThreeSet(b: nat, pad: nat)
      requires pad < 8
      ensures ToLsb(b - b % 8 + pad, 8) == ToLsb(pad, 3) + ToLsb(b, 8)[3..]
    {
      hide ToLsb;
      var high, low := b / 8, b % 8;
      assert Pow2(3) == 8;
      ShlIsMul(high, 3);
      ToLsbJoin(pad, 3, high, 5);
      ToLsbJoin(low, 3, high, 5);
    }
  }
}
