/** The range coder as it runs: objects whose fields change with every coded bit. */
module RangeCodec {
  import opened RangeCoding
  import opened BitStrings

  class RangeEncoder {
    var low: nat
    var range: nat
    var cache: nat
    var cacheCount: nat
    var first: bool
    var output: seq<Byte>
    ghost var words: seq<Word>

    ghost function Value(): Enc
      reads this
    {
      Enc(low, range, cache, cacheCount, first, words)
    }

    ghost predicate Valid()
      reads this
    {
      output == WordBytes(words) && 0x400 <= range < 0x1_0000_0000
    }

    constructor ()
      ensures Valid() && Value() == INITIAL_ENC
    {
      low, range, cache, cacheCount, first := 0, 0xFFFF_FFFF, 0, 0, true;
      output, words := [], [];
    }

    method Emit(word: Word)
      requires output == WordBytes(words)
      modifies this`output, this`words
      ensures words == old(words) + [word] && output == WordBytes(words)
    {
      assert (words + [word])[..|words|] == words;
      output := output + [word % 0x100, word / 0x100];
      words := words + [word];
    }

    /** Emit the cached word with its carry, and the words that were waiting behind it. */
    method Flush(overflow: bool)
      requires output == WordBytes(words)
      modifies this`output, this`words
      ensures output == WordBytes(words)
      ensures words == old(words) + [(cache + if overflow then 1 else 0) % 0x1_0000]
                       + Fill(if overflow then 0 else 0xFFFF, cacheCount)
    {
      Emit((cache + if overflow then 1 else 0) % 0x1_0000);
      var fill: Word := if overflow then 0 else 0xFFFF;
      ghost var start := words;
      assert start + Fill(fill, 0) == start;
      for i := 0 to cacheCount
        invariant words == start + Fill(fill, i) && output == WordBytes(words)
      {
        Emit(fill);
        assert Fill(fill, i + 1) == Fill(fill, i) + [fill];
      }
    }

    method ShiftLow()
      requires output == WordBytes(words)
      modifies this
      ensures output == WordBytes(words) && Value() == RangeCoding.ShiftLow(old(Value()))
    {
      hide Fill;
      var overflow := low / 0x1_0000_0000 != 0;
      if low < 0xFFFF_0000 || overflow {
        if !first {
          Flush(overflow);
        }
        first := false;
        cache := low / 0x1_0000 % 0x1_0000;
        cacheCount := 0;
      } else {
        cacheCount := cacheCount + 1;
      }
      low := low % 0x1_0000 * 0x1_0000;
      range := range * 0x1_0000 % 0x1_0000_0000;
    }

    /** A loop, of which at most one turn is taken. */
    method Normalize()
      requires Valid()
      modifies this
      ensures Valid() && Value() == RangeCoding.Normalize(old(Value())) && range >= 0x1_0000
    {
      ghost var e := Value();
      OneShift(e);
      while range < 0x1_0000
        invariant output == WordBytes(words) && (Value() == e || Value() == RangeCoding.Normalize(e))
        decreases 0x1_0000 - range
      {
        ShiftLow();
      }
    }

    static lemma {:induction false} OneShift(e: Enc)
      requires 0x400 <= e.range < 0x1_0000_0000
      ensures RangeCoding.Normalize(e) == if e.range < 0x1_0000 then RangeCoding.ShiftLow(e) else e
      ensures 0x1_0000 <= RangeCoding.Normalize(e).range < 0x1_0000_0000
    {
      hide Fill;
    }

    /** Any bit may be coded, also a 1 at the start of the stream. */
    method EncodeBit(bit: Bit, prob: nat)
      requires Valid() && 1 <= prob <= 63
      modifies this
      ensures Valid() && Value() == RangeCoding.EncodeBit(old(Value()), prob, bit)
    {
      Normalize();
      BoundBounds(range, prob);
      var bound := range / 64 * prob;
      if bit == 0 {
        range := bound;
      } else {
        low := low + bound;
        range := range - bound;
      }
    }

    /** Flush, and put all words in front of `out`. */
    method Finish(out: seq<Byte>) returns (r: seq<Byte>)
      requires Valid()
      modifies this
      ensures r == WordBytes(RangeCoding.Finish(old(Value()))) + out
    {
      ShiftLow();
      ShiftLow();
      ShiftLow();
      ShiftLow();
      r := output + out;
    }
  }

  class RangeDecoder {
    const data: seq<Byte>
    var pos: nat
    var range: nat
    var code: nat

    ghost function Value(): Dec
      reads this
    {
      Dec(pos, range, code)
    }

    /** Holds on any data, valid stream or not: a range never runs out. */
    ghost predicate Valid()
      reads this
    {
      0x400 <= range < 0x1_0000_0000
    }

    constructor (input: seq<Byte>)
      requires |input| >= 4
      ensures Valid() && data == input && Value() == DecInit(input)
    {
      data := input;
      pos, range := 4, 0xFFFF_FFFF;
      code := (Le16(input, 0) as nat) * 0x1_0000 + Le16(input, 2);
    }

    method Normalize()
      requires Valid()
      modifies this
      ensures Valid() && range >= 0x1_0000 && Value() == DecNormalize(old(Value()), data)
    {
      if range < 0x1_0000 {
        range := range * 0x1_0000;
        code := code * 0x1_0000 % 0x1_0000_0000;
        if pos + 2 <= |data| {
          code := code + Le16(data, pos);
          pos := pos + 2;
        }
      }
    }

    method DecodeBit(prob: nat) returns (bit: Bit)
      requires Valid() && 1 <= prob <= 63
      modifies this
      ensures Valid() && DecodedBit(bit, Value()) == RangeCoding.DecodeBit(old(Value()), data, prob)
    {
      Normalize();
      BoundBounds(range, prob);
      var bound := range / 64 * prob;
      if code < bound {
        range, bit := bound, 0;
      } else {
        range, code, bit := range - bound, code - bound, 1;
      }
    }
  }
}
