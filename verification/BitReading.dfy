/** Reading the patch bit stream: a 64-bit accumulator refilled by over-reading loads. */
module BitReading {
  import opened Powers
  import opened BitStrings
  import opened RangeCoding
  import opened LsbBits
  import opened CanonicalCode

  /** The stream from bit position `8 * pos - bits` on. */
  function StreamFrom(data: seq<Byte>, pos: nat, bits: nat): (r: seq<Bit>)
    requires bits <= 8 * pos && pos <= |data|
    ensures |r| == 8 * (|data| - pos) + bits
  {
    AllBits(data)[8 * pos - bits..]
  }

  /** The low `bits` bits of the accumulator are the next ones of the stream; up to `held` bits are true
      future bits, and the rest are zeros. With no bits left the accumulator may be stale. */
  predicate Loaded(rest: seq<Bit>, accum: nat, bits: nat, held: nat) {
    bits > 0 ==> bits <= held <= 64 && held <= |rest| && accum == FromLsb(rest[..held])
  }

  lemma {:induction false} LoadedWord(rest: seq<Bit>, accum: nat, bits: nat, held: nat, more: nat, word: nat)
    requires Loaded(rest, accum, bits, held) && bits <= 64 && (bits == 0 ==> accum == 0)
    requires 0 < more && bits + more <= 64 && bits + more <= |rest| && word < Pow2(more)
    requires FromLsb(rest[bits..bits + more]) == word
    ensures var h := if held > bits + more && bits > 0 then held else bits + more;
            Or(accum, Shl(word, bits), 64) == FromLsb(rest[..h]) && Loaded(rest, FromLsb(rest[..h]), bits + more, h)
  {
    hide Shl, Pow2, Or, FromLsb;
    var h := if held > bits + more && bits > 0 then held else bits + more;
    var k := if bits > 0 then held else 0;
    var x := rest[..k] + Zeros(64 - k);
    var y := Zeros(bits) + rest[bits..bits + more] + Zeros(64 - bits - more);
    var z := rest[..h] + Zeros(64 - h);
    FromLsbPadded(rest[..k], 64 - k);
    FromLsbPadded(Zeros(bits) + rest[bits..bits + more], 64 - bits - more);
    FromLsbConcat(Zeros(bits), rest[bits..bits + more]);
    FromLsbZeros(bits);
    FromLsbPadded(rest[..h], 64 - h);
    assert FromLsb(rest[..0]) == 0 by { NoBits(rest); }
    OrOfLsb(x, y, z);
  }

  lemma {:induction false} NoBits(rest: seq<Bit>)
    ensures FromLsb(rest[..0]) == 0
  {
  }

  /** The part of the 8-byte word that fits above `bits`. */
  lemma {:induction false} ShiftedWord(word: seq<Bit>, bits: nat)
    requires |word| == 64 && bits <= 64
    ensures Shl(FromLsb(word), bits) % 0x1_0000_0000_0000_0000 == Shl(FromLsb(word[..64 - bits]), bits)
  {
    hide Shl, FromLsb, Pow2;
    var lo, hi := word[..64 - bits], word[64 - bits..];
    FromLsbConcat(lo, hi);
    assert word == lo + hi;
    ShlPlus(FromLsb(lo), Shl(FromLsb(hi), 64 - bits), bits);
    ShlAdd(FromLsb(hi), 64 - bits, bits);
    FromLsbBound(lo);
    ShlFits(FromLsb(lo), 64 - bits, bits);
    ShiftedOut(FromLsb(hi), Shl(FromLsb(lo), bits));
  }

  lemma {:induction false} WordBitsAt(data: seq<Byte>, pos: nat, n: nat, bits: nat)
    requires pos + n <= |data| && bits <= 8 * pos
    ensures LeValue(data[pos..pos + n]) == FromLsb(AllBits(data[pos..pos + n]))
    ensures StreamFrom(data, pos, bits)[bits..bits + 8 * n] == AllBits(data[pos..pos + n])
  {
    hide AllBits, LeValue, FromLsb;
    LeValueBits(data[pos..pos + n]);
    AllBitsFrom(data, pos);
    AllBitsFrom(data[pos..], n);
    assert data[pos..][..n] == data[pos..pos + n];
    assert StreamFrom(data, pos, bits)[bits..] == AllBits(data)[8 * pos..];
  }

  /** Three bits that say how much of the last byte is padding, and at least that padding. */
  predicate Openable(data: seq<Byte>) {
    |data| > 0 && 8 * |data| >= 3 + data[0] % 8
  }

  function Remaining(rest: seq<Bit>, padding: nat): nat {
    if |rest| >= padding then |rest| - padding else 0
  }

  // --- What fields mean on a list of bits ---

  datatype Field = NoField | Field(val: nat, rest: seq<Bit>)

  /** The next `n` bits as a number. */
  function TakeField(rest: seq<Bit>, n: nat): Field {
    if n <= |rest| then Field(FromLsb(rest[..n]), rest[n..]) else NoField
  }

  /** How many zeros, up to `cap`, stand before the first 1. */
  function LeadingZeros(bs: seq<Bit>, cap: nat): (n: nat)
    ensures n <= cap && n <= |bs|
    ensures forall i :: 0 <= i < n ==> bs[i] == 0
    ensures n < cap && n < |bs| ==> bs[n] == 1
    decreases cap
  {
    if cap == 0 || |bs| == 0 || bs[0] == 1 then 0 else 1 + LeadingZeros(bs[1..], cap - 1)
  }

  /** A prefix of `n` zeros and a 1 announces `4 * (n + 1)` value bits. */
  function TakeI64(rest: seq<Bit>): Field {
    var n := LeadingZeros(rest, 16);
    if n == 16 || n == |rest| then NoField else TakeField(rest[n + 1..], 4 * (n + 1))
  }

  /** A prefix of `n` zeros and a 1 announces `n + 8` bits below a leading 1. */
  function TakeU32Number(rest: seq<Bit>): Field {
    var n := LeadingZeros(rest, 24);
    if n == 24 || n == |rest| then NoField
    else
      match TakeField(rest[n + 1..], n + 8)
      case NoField => NoField
      case Field(v, r) => Field(Pow2(n + 8) + v, r)
  }

  /** Trailing zeros of `v` with bit `cap` set. */
  function TrailingZeros(v: nat, cap: nat): (n: nat)
    ensures n <= cap
  {
    if cap == 0 || v % 2 == 1 then 0 else 1 + TrailingZeros(v / 2, cap - 1)
  }

  lemma {:induction false} TrailingIsLeading(bs: seq<Bit>, cap: nat)
    requires exists i :: 0 <= i < |bs| && i < cap && bs[i] == 1
    ensures TrailingZeros(FromLsb(bs), cap) == LeadingZeros(bs, cap)
    decreases cap
  {
    assert FromLsb(bs) / 2 == FromLsb(bs[1..]) && FromLsb(bs) % 2 == bs[0];
    if bs[0] == 0 {
      var i :| 0 <= i < |bs| && i < cap && bs[i] == 1;
      assert bs[1..][i - 1] == 1;
      TrailingIsLeading(bs[1..], cap - 1);
    }
  }

  lemma {:induction false} LeadingOfPrefix(bs: seq<Bit>, more: seq<Bit>, cap: nat)
    requires bs <= more && exists i :: 0 <= i < |bs| && i < cap && bs[i] == 1
    ensures LeadingZeros(more, cap) == LeadingZeros(bs, cap) < |bs|
    decreases cap
  {
    if bs[0] == 0 {
      var i :| 0 <= i < |bs| && i < cap && bs[i] == 1;
      assert bs[1..][i - 1] == 1 && bs[1..] <= more[1..];
      LeadingOfPrefix(bs[1..], more[1..], cap - 1);
    }
  }

  class BitReader {
    const data: seq<Byte>
    const padding: nat
    var pos: nat
    var accum: nat
    var bits: nat
    ghost var held: nat

    ghost predicate Valid()
      reads this
    {
      && pos <= |data| && bits <= 64 && bits <= 8 * pos && accum < 0x1_0000_0000_0000_0000
      && Loaded(StreamFrom(data, pos, bits), accum, bits, held)
    }

    /** The bits not yet consumed. */
    ghost function Rest(): seq<Bit>
      requires Valid()
      reads this
    {
      StreamFrom(data, pos, bits)
    }

    constructor (input: seq<Byte>)
      requires Openable(input)
      ensures Valid() && Rest() == AllBits(input)[3..] && data == input && padding == input[0] % 8
    {
      data, padding := input, input[0] % 8;
      pos, accum, bits, held := 0, 0, 0, 0;
      new;
      assert Rest() == AllBits(data);
      Refill();
      Consume(3);
    }

    /** Load until at least 57 bits are there or the data is used up; what is already there from an earlier
        load is or-ed with the same bits again. */
    method Refill()
      requires Valid() && bits <= 56
      modifies this
      ensures Valid() && Rest() == old(Rest()) && bits >= old(bits) && (bits > 56 || pos == |data|)
    {
      if bits == 0 {
        accum := 0;
      }
      if pos + 8 <= |data| {
        LoadEight();
      } else {
        while bits <= 56 && pos < |data|
          invariant Valid() && Rest() == old(Rest()) && bits >= old(bits) && (bits == 0 ==> accum == 0)
          decreases |data| - pos
        {
          LoadOne();
        }
      }
    }

    method LoadOne()
      requires Valid() && bits <= 56 && pos < |data| && (bits == 0 ==> accum == 0)
      modifies this
      ensures Valid() && Rest() == old(Rest()) && pos == old(pos) + 1 && bits == old(bits) + 8
    {
      hide FromLsb, Shl, Or, AllBits, LeValue;
      ghost var rest := Rest();
      WordBitsAt(data, pos, 1, bits);
      OneByte(data[pos]);
      assert data[pos..pos + 1] == [data[pos]];
      LoadedWord(rest, accum, bits, held, 8, data[pos]);
      held := if held > bits + 8 && bits > 0 then held else bits + 8;
      accum := Or(accum, Shl(data[pos], bits), 64);
      WordFits(rest[..held]);
      bits := bits + 8;
      pos := pos + 1;
    }

    static lemma {:induction false} OneByte(b: Byte)
      ensures LeValue([b]) == b && b < Pow2(8)
    {
      assert [b][1..] == [];
      PowerTable();
    }

    static lemma {:induction false} WordFits(bs: seq<Bit>)
      requires |bs| <= 64
      ensures FromLsb(bs) < 0x1_0000_0000_0000_0000
    {
      FromLsbBound(bs);
      Pow2Monotone(|bs|, 64);
      PowerTable();
    }

    /** One 8-byte load; only the whole bytes that fit are counted as consumed. */
    method LoadEight()
      requires Valid() && bits <= 56 && pos + 8 <= |data| && (bits == 0 ==> accum == 0)
      modifies this
      ensures Valid() && Rest() == old(Rest()) && bits >= old(bits) && bits > 56
    {
      hide FromLsb, Shl, Or, AllBits, LeValue;
      ghost var rest := Rest();
      ghost var eight := AllBits(data[pos..pos + 8]);
      WordBitsAt(data, pos, 8, bits);
      var word := LeValue(data[pos..pos + 8]);
      ShiftedWord(eight, bits);
      FromLsbBound(eight[..64 - bits]);
      assert rest[bits..bits + (64 - bits)] == eight[..64 - bits];
      LoadedWord(rest, accum, bits, held, 64 - bits, FromLsb(eight[..64 - bits]));
      held := 64;
      accum := Or(accum, Shl(word, bits) % 0x1_0000_0000_0000_0000, 64);
      WordFits(rest[..64]);
      var advance := (64 - bits) / 8;
      pos := pos + advance;
      bits := bits + 8 * advance;
    }

    /** Drop `n` bits of the accumulator; past its end nothing is left to drop. */
    method Consume(n: nat)
      requires Valid() && n <= 64
      modifies this
      ensures Valid() && pos == old(pos) && bits == if n <= old(bits) then old(bits) - n else 0
      ensures Rest() == old(Rest())[if n <= old(bits) then n else old(bits)..]
    {
      hide FromLsb, Shr;
      ghost var rest := Rest();
      if n <= bits && bits > 0 {
        ShrOfLsb(rest[..held], n);
        assert rest[..held][n..] == rest[n..][..held - n];
        WordFits(rest[..held][n..]);
      }
      accum := ShiftedDown(accum, n);
      bits := if n <= bits then bits - n else 0;
      held := if n <= held then held - n else 0;
    }

    static function ShiftedDown(v: nat, n: nat): (r: nat)
      requires v < 0x1_0000_0000_0000_0000
      ensures r < 0x1_0000_0000_0000_0000 && r == Shr(v, n)
    {
      ShrIsDiv(v, n);
      ShrSmaller(v, Pow2(n));
      Shr(v, n)
    }

    static lemma {:induction false} ShrSmaller(v: nat, d: nat)
      requires d >= 1
      ensures v / d <= v
    {
      assert v == v / d * d + v % d;
      MulMonotone(v / d, 1, d);
    }

    method EnsureBits(n: nat) returns (ok: bool)
      requires Valid() && n <= 56
      modifies this
      ensures Valid() && Rest() == old(Rest()) && (ok <==> n <= |Rest()|) && (ok ==> n <= bits)
    {
      if bits < n {
        Refill();
      }
      ok := n <= bits;
    }

    /** The low `n` buffered bits. */
    method PeekBits(n: nat) returns (v: nat)
      requires Valid() && n <= bits
      ensures v == FromLsb(Rest()[..n])
    {
      hide FromLsb, LowBits;
      v := LowBits(accum, n);
      if n > 0 {
        LowOfLsb(Rest()[..held], n);
        assert Rest()[..held][..n] == Rest()[..n];
      } else {
        EmptyField(accum, Rest());
      }
    }

    static lemma {:induction false} EmptyField(v: nat, rest: seq<Bit>)
      ensures LowBits(v, 0) == 0 && FromLsb(rest[..0]) == 0
    {
    }

    method ReadField(n: nat) returns (r: Option<nat>)
      requires Valid() && n <= 56
      modifies this
      ensures Valid()
      ensures match TakeField(old(Rest()), n)
              case NoField => r == None
              case Field(v, rest) => r == Some(v) && Rest() == rest
    {
      var ok := EnsureBits(n);
      if !ok {
        return None;
      }
      var v := PeekBits(n);
      Consume(n);
      r := Some(v);
    }

    /** More than 56 bits are read in two parts. */
    method ReadBits(n: nat) returns (r: Option<nat>)
      requires Valid() && n <= 64
      modifies this
      ensures Valid()
      ensures match TakeField(old(Rest()), n)
              case NoField => r == None
              case Field(v, rest) => r == Some(v) && Rest() == rest
    {
      hide FromLsb, Shl;
      if n <= 56 {
        r := ReadField(n);
        return;
      }
      ghost var all := Rest();
      var low := ReadField(32);
      if low.None? {
        return None;
      }
      var high := ReadField(n - 32);
      if high.None? {
        return None;
      }
      JoinFields(all, 32, n - 32);
      r := Some(low.value + Shl(high.value, 32));
    }

    static lemma {:induction false} JoinFields(rest: seq<Bit>, a: nat, b: nat)
      requires a + b <= |rest|
      ensures FromLsb(rest[..a + b]) == FromLsb(rest[..a]) + Shl(FromLsb(rest[a..][..b]), a)
      ensures rest[a..][b..] == rest[a + b..]
    {
      FromLsbConcat(rest[..a], rest[a..][..b]);
      assert rest[..a + b] == rest[..a] + rest[a..][..b];
    }

    method RemainingBits() returns (n: nat)
      requires Valid()
      ensures n == Remaining(Rest(), padding)
    {
      var loaded := bits + 8 * (|data| - pos);
      n := if loaded >= padding then loaded - padding else 0;
    }

    /** The number of zeros that a variable-length number starts with, if its first 1 is inside the data. */
    method ReadPrefix(want: nat, cap: nat) returns (n: nat)
      requires Valid() && want <= 56 && cap <= want
      modifies this
      ensures Valid() && Rest() == old(Rest()) && n <= cap
      ensures var z := LeadingZeros(Rest(), cap);
              z < cap && z + padding < |Rest()| ==> n == z && z < bits
    {
      hide FromLsb;
      var remaining := RemainingBits();
      var ok := EnsureBits(if remaining < want then remaining else want);
      n := TrailingZeros(accum, cap);
      ghost var z := LeadingZeros(Rest(), cap);
      if z < cap && z + padding < |Rest()| {
        assert Rest()[..held][z] == 1;
        TrailingIsLeading(Rest()[..held], cap);
        LeadingOfPrefix(Rest()[..held], Rest(), cap);
      }
    }

    /** Skip `n` buffered bits and take the `k` buffered ones after them. */
    method TakeAfter(n: nat, k: nat) returns (v: nat)
      requires Valid() && n + k <= bits <= |Rest()| && n <= 64 && k <= 64
      modifies this
      ensures Valid() && n + k <= |old(Rest())|
      ensures TakeField(old(Rest())[n..], k) == Field(v, Rest())
    {
      hide FromLsb, Valid, Rest;
      ghost var rest := Rest();
      Consume(n);
      v := PeekBits(k);
      Consume(k);
      assert rest[n..][k..] == Rest();
    }

    /** Every number whose code ends before the padding is read back. */
    method ReadI64() returns (r: Option<nat>)
      requires Valid()
      modifies this
      ensures Valid()
      ensures match TakeI64(old(Rest()))
              case NoField => true
              case Field(v, rest) => padding <= |rest| ==> r == Some(v) && Rest() == rest
    {
      hide FromLsb, Valid, Rest, TakeField, LeadingZeros, TakeI64;
      I64Parts(Rest());
      var n := ReadPrefix(17, 16);
      if n == 16 {
        return None;
      }
      if 5 * (n + 1) > 56 {
        r := ReadWide(n);
        return;
      }
      var ok := EnsureBits(5 * (n + 1));
      if !ok {
        return None;
      }
      BitsInRest();
      var v := TakeAfter(n + 1, 4 * (n + 1));
      r := Some(v);
    }

    lemma BitsInRest()
      requires Valid()
      ensures bits <= |Rest()|
    {
    }

    /** The prefix of a number that is all there, and its value bits. */
    static lemma {:induction false} I64Parts(rest: seq<Bit>)
      ensures match TakeI64(rest)
              case NoField => true
              case Field(v, r) =>
                var z := LeadingZeros(rest, 16);
                z < 16 && |rest| == 5 * (z + 1) + |r| && TakeField(rest[z + 1..], 4 * (z + 1)) == Field(v, r)
    {
    }

    static lemma {:induction false} U32Parts(rest: seq<Bit>)
      ensures match TakeU32Number(rest)
              case NoField => true
              case Field(v, r) =>
                var z := LeadingZeros(rest, 24);
                && z < 24 && |rest| == 2 * z + 9 + |r| && v >= Pow2(z + 8)
                && TakeField(rest[z + 1..], z + 8) == Field(v - Pow2(z + 8), r)
    {
    }

    method ReadWide(n: nat) returns (r: Option<nat>)
      requires Valid() && n <= 15
      modifies this
      ensures Valid()
      ensures n + 1 <= |old(Rest())| ==>
                match TakeField(old(Rest())[n + 1..], 4 * (n + 1))
                case NoField => r == None
                case Field(v, rest) => r == Some(v) && Rest() == rest
    {
      hide FromLsb, Shl, Valid, Rest;
      var ok := EnsureBits(n + 1);
      if !ok {
        return None;
      }
      Consume(n + 1);
      if 4 * (n + 1) <= 32 {
        r := ReadBits(4 * (n + 1));
        return;
      }
      ghost var all := Rest();
      var low := ReadBits(32);
      if low.None? {
        return None;
      }
      var high := ReadBits(4 * (n + 1) - 32);
      if high.None? {
        return None;
      }
      JoinFields(all, 32, 4 * (n + 1) - 32);
      r := Some(low.value + Shl(high.value, 32));
    }

    method ReadU32Number() returns (r: Option<nat>)
      requires Valid()
      modifies this
      ensures Valid()
      ensures match TakeU32Number(old(Rest()))
              case NoField => true
              case Field(v, rest) => padding <= |rest| ==> r == Some(v) && Rest() == rest
    {
      hide FromLsb, Valid, Rest, TakeField, LeadingZeros, Pow2, TakeU32Number;
      U32Parts(Rest());
      var n := ReadPrefix(32, 24);
      if n == 24 {
        return None;
      }
      var ok := EnsureBits(n + 1 + n + 8);
      if !ok {
        return None;
      }
      BitsInRest();
      var raw := TakeAfter(n + 1, n + 8);
      r := Some(Pow2(n + 8) + raw);
    }

    static lemma {:induction false} ByteOffset(k: nat, b: nat)
      ensures (8 * k + b) % 8 == b % 8
    {
    }

    /** Skip to the next byte boundary. */
    method AlignToByte()
      requires Valid()
      modifies this
      ensures Valid() && Rest() == old(Rest())[|old(Rest())| % 8..] && bits % 8 == 0
    {
      ByteOffset(|data| - pos, bits);
      var discard := bits % 8;
      if discard > 0 {
        Consume(discard);
      }
    }

    /** Bytes still in the accumulator, taken one by one. */
    method DrainBytes(size: nat) returns (buf: seq<Byte>)
      requires Valid() && bits % 8 == 0
      modifies this
      ensures Valid() && |buf| <= size && pos == old(pos) && bits % 8 == 0
      ensures |buf| < size ==> bits == 0
      ensures 8 * |buf| <= |old(Rest())| && AllBits(buf) == old(Rest())[..8 * |buf|]
      ensures Rest() == old(Rest())[8 * |buf|..]
    {
      hide FromLsb, Valid, Rest;
      buf := [];
      ghost var rest := Rest();
      while |buf| < size && bits >= 8
        invariant Valid() && |buf| <= size && pos == old(pos) && bits % 8 == 0 && 8 * |buf| <= |rest|
        invariant AllBits(buf) == rest[..8 * |buf|] && Rest() == rest[8 * |buf|..]
        decreases size - |buf|
      {
        BitsInRest();
        var b := PeekBits(8);
        ByteBits(rest, buf, Rest()[..8]);
        Consume(8);
        buf := buf + [b];
      }
    }

    /** One more byte taken from the front of the stream. */
    static lemma {:induction false} OneByteBits(b: Byte)
      ensures AllBits([b]) == ToLsb(b, 8)
    {
      assert [b][1..] == [];
    }

    static lemma {:induction false} ByteBits(rest: seq<Bit>, buf: seq<Byte>, next: seq<Bit>)
      requires 8 * |buf| + 8 <= |rest| && AllBits(buf) == rest[..8 * |buf|] && next == rest[8 * |buf|..][..8]
      ensures FromLsb(next) < 0x100 && AllBits(buf + [FromLsb(next)]) == rest[..8 * |buf| + 8]
    {
      hide FromLsb, ToLsb, AllBits, Pow2;
      FromLsbBound(next);
      PowerTable();
      ToFromLsb(next);
      AllBitsConcat(buf, [FromLsb(next)]);
      OneByteBits(FromLsb(next));
      assert rest[..8 * |buf| + 8] == rest[..8 * |buf|] + next;
    }

    /** A length, padding to a byte boundary, and that many bytes. */
    method ReadBuffer() returns (r: Option<seq<Byte>>)
      requires Valid()
      modifies this
      ensures Valid()
      ensures match TakeI64(old(Rest()))
              case NoField => true
              case Field(size, rest) =>
                var aligned := rest[|rest| % 8..];
                8 * size + padding <= |aligned| && size < 0x8000_0000_0000_0000 ==>
                  && r.Some? && |r.value| == size && AllBits(r.value) == aligned[..8 * size]
                  && Rest() == aligned[8 * size..]
    {
      hide FromLsb, TakeI64;
      var size := ReadI64();
      if size.None? || size.value >= 0x8000_0000_0000_0000 {
        return None;
      }
      var remaining := RemainingBits();
      if size.value > remaining / 8 + bits / 8 + 8 {
        return None;
      }
      AlignToByte();
      r := TakeBytes(size.value);
    }

    method TakeBytes(size: nat) returns (r: Option<seq<Byte>>)
      requires Valid() && bits % 8 == 0
      modifies this
      ensures Valid()
      ensures r.Some? <==> 8 * size <= |old(Rest())|
      ensures r.Some? ==> |r.value| == size && AllBits(r.value) == old(Rest())[..8 * size]
      ensures r.Some? ==> Rest() == old(Rest())[8 * size..]
    {
      hide FromLsb, AllBits;
      ghost var rest := Rest();
      var buf := DrainBytes(size);
      if |buf| == size {
        return Some(buf);
      }
      var left := size - |buf|;
      if left > |data| - pos {
        return None;
      }
      BulkBits(data, pos, left);
      AllBitsConcat(buf, data[pos..pos + left]);
      assert rest[..8 * size] == rest[..8 * |buf|] + rest[8 * |buf|..][..8 * left];
      r := Some(buf + data[pos..pos + left]);
      pos := pos + left;
    }

    /** Whole bytes copied from the data are the next bits of the stream. */
    static lemma {:induction false} BulkBits(data: seq<Byte>, pos: nat, n: nat)
      requires pos + n <= |data|
      ensures AllBits(data[pos..pos + n]) == StreamFrom(data, pos, 0)[..8 * n]
      ensures StreamFrom(data, pos + n, 0) == StreamFrom(data, pos, 0)[8 * n..]
    {
      WordBitsAt(data, pos, n, 0);
      AllBitsFrom(data, pos);
      AllBitsFrom(data, pos + n);
      assert StreamFrom(data, pos, 0)[0..8 * n] == StreamFrom(data, pos, 0)[..8 * n];
    }
  }
}
