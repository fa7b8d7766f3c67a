/** The bit stream that fills a buffer from its end, 16 bits at a time, most significant bit first. */
module BackBits {
  import opened Powers
  import opened BitStrings
  import opened RangeCoding

  // --- The stream as a list of bits ---

  /** All bits of `data`, in the order in which they are read. */
  function BackStream(data: seq<Byte>): seq<Bit> {
    if |data| < 2 then [] else ToBits(Le16(data, |data| - 2), 16) + BackStream(data[..|data| - 2])
  }

  /** Bit `k` of word `j`: the words lie from the end of the buffer to its front, low byte first, and each is read
      from its most significant bit down. */
  lemma {:induction false} BackStreamBit(data: seq<Byte>, j: nat, k: nat)
    requires 2 * j + 2 <= |data| && k < 16
    ensures |BackStream(data)| > 16 * j + k
    ensures var at := |data| - 2 * j - 2; var lo: nat, hi: nat := data[at], data[at + 1];
            BackStream(data)[16 * j + k] == (lo + 0x100 * hi) / Pow2(15 - k) % 2
    decreases j
  {
    if j == 0 {
      ToBitsDigit(Le16(data, |data| - 2), 16, k);
    } else {
      BackStreamBit(data[..|data| - 2], j - 1, k);
    }
  }

  function Reverse<T>(s: seq<T>): (r: seq<T>)
    ensures |r| == |s|
  {
    if |s| == 0 then [] else Reverse(s[1..]) + [s[0]]
  }

  function WordOf(bs: seq<Bit>): Word
    requires |bs| == 16
  {
    FromBitsBound(bs);
    PowerTable();
    FromBits(bs)
  }

  /** The bits cut into 16-bit words, the last one filled up with zeros. */
  function PadWords(bs: seq<Bit>): seq<Word> {
    if |bs| == 0 then []
    else if |bs| < 16 then [WordOf(bs + Zeros(16 - |bs|))]
    else [WordOf(bs[..16])] + PadWords(bs[16..])
  }

  /** What the writer leaves at the end of the buffer. */
  function BackBytes(bs: seq<Bit>): seq<Byte> {
    WordBytes(Reverse(PadWords(bs)))
  }

  function WordBits(ws: seq<Word>): seq<Bit> {
    if |ws| == 0 then [] else ToBits(ws[0], 16) + WordBits(ws[1..])
  }

  lemma {:induction false} WordBytesConcat(a: seq<Word>, b: seq<Word>)
    ensures WordBytes(a + b) == WordBytes(a) + WordBytes(b)
  {
    if b == [] {
      assert a + b == a;
    } else {
      WordBytesConcat(a, b[..|b| - 1]);
      assert (a + b)[..|a + b| - 1] == a + b[..|b| - 1];
    }
  }

  lemma {:induction false} BackStreamWord(front: seq<Byte>, w: Word)
    ensures BackStream(front + WordBytes([w])) == ToBits(w, 16) + BackStream(front)
  {
    var lo: Byte, hi: Byte := w % 0x100, w / 0x100;
    assert WordBytes([w]) == [lo, hi] by { assert [w][..0] == []; }
    var data := front + [lo, hi];
    assert data[..|data| - 2] == front;
    assert Le16(data, |data| - 2) == w;
  }

  lemma {:induction false} BackStreamOfWords(front: seq<Byte>, ws: seq<Word>)
    ensures BackStream(front + WordBytes(Reverse(ws))) == WordBits(ws) + BackStream(front)
  {
    if ws == [] {
      assert front + WordBytes(Reverse(ws)) == front;
    } else {
      var r := Reverse(ws[1..]);
      WordBytesConcat(r, [ws[0]]);
      assert front + (WordBytes(r) + WordBytes([ws[0]])) == (front + WordBytes(r)) + WordBytes([ws[0]]);
      BackStreamWord(front + WordBytes(r), ws[0]);
      BackStreamOfWords(front, ws[1..]);
    }
  }

  lemma {:induction false} BackStreamStep(data: seq<Byte>, pos: nat)
    requires 2 <= pos <= |data|
    ensures BackStream(data[..pos]) == ToBits(Le16(data, pos - 2), 16) + BackStream(data[..pos - 2])
  {
    var d := data[..pos];
    assert d[..|d| - 2] == data[..pos - 2];
  }

  lemma {:induction false} WordOfBits(bs: seq<Bit>)
    requires |bs| == 16
    ensures ToBits(WordOf(bs), 16) == bs
  {
    ToFromBits(bs);
  }

  lemma {:induction false} PadWordsPrefix(bs: seq<Bit>)
    ensures bs <= WordBits(PadWords(bs))
  {
    if |bs| == 0 {
    } else if |bs| < 16 {
      WordOfBits(bs + Zeros(16 - |bs|));
    } else {
      WordOfBits(bs[..16]);
      PadWordsPrefix(bs[16..]);
      assert bs == bs[..16] + bs[16..];
    }
  }

  /** Whatever stands in front of them, the written bits are the first ones read. */
  lemma {:induction false} BackBytesReadBack(front: seq<Byte>, bs: seq<Bit>)
    ensures bs <= BackStream(front + BackBytes(bs))
  {
    BackStreamOfWords(front, PadWords(bs));
    PadWordsPrefix(bs);
  }

  // --- The reader ---

  class BackBitsReader {
    const data: seq<Byte>
    var pos: nat
    var buf: nat
    var bits: nat
    /** The buffered bits as a number; `buf` holds them at the top of a 64-bit word. */
    ghost var top: nat

    ghost predicate Valid()
      reads this
    {
      && pos <= |data| && bits <= 64
      && top < Pow2(bits) && buf == Shl(top, 64 - bits)
    }

    /** The bits not yet consumed. */
    ghost function Rest(): seq<Bit>
      requires Valid()
      reads this
    {
      ToBits(top, bits) + BackStream(data[..pos])
    }

    /** Can `n` bits be taken from the buffer alone? */
    ghost predicate Ready(n: nat)
      reads this
    {
      bits >= n || pos < 2
    }

    constructor (input: seq<Byte>)
      ensures Valid() && data == input && Rest() == BackStream(input)
    {
      data := input;
      pos := |input|;
      buf, bits, top := 0, 0, 0;
      ShlIsMul(0, 64);
      new;
      assert data[..pos] == data;
    }

    method Ensure(n: nat)
      requires Valid() && n <= 32
      modifies this
      ensures Valid() && Rest() == old(Rest()) && Ready(n)
    {
      while bits < n && pos >= 2
        invariant Valid() && Rest() == old(Rest())
        decreases pos
      {
        LoadWord();
      }
    }

    method LoadWord()
      requires Valid() && bits <= 48 && pos >= 2
      modifies this
      ensures Valid() && Rest() == old(Rest()) && bits == old(bits) + 16 && pos == old(pos) - 2
    {
      hide Pow2, Shl, ToBits, BackStream;
      BackStreamStep(data, pos);
      pos := pos - 2;
      var w: nat := Le16(data, pos);
      PushWord(top, bits, w);
      PushBits(top, bits, w);
      buf := buf + Shl(w, 48 - bits);
      top := top * 0x1_0000 + w;
      bits := bits + 16;
    }

    /** The word is or-ed in below the buffered bits, where `buf` is zero. */
    static lemma {:induction false} PushWord(top: nat, bits: nat, w: nat)
      requires bits <= 48 && top < Pow2(bits) && w < 0x1_0000
      ensures Shl(w, 48 - bits) < Pow2(64 - bits)
      ensures top * 0x1_0000 + w < Pow2(bits + 16)
      ensures Shl(top, 64 - bits) + Shl(w, 48 - bits) == Shl(top * 0x1_0000 + w, 48 - bits)
    {
      hide Pow2, Shl;
      PowerTable();
      ShlIsMul(top, 16);
      ShlFits(w, 16, 48 - bits);
      WideTop(top, bits, w);
      ShlAdd(top, 16, 48 - bits);
      ShlPlus(Shl(top, 16), w, 48 - bits);
    }

    static lemma {:induction false} WideTop(top: nat, bits: nat, w: nat)
      requires top < Pow2(bits) && w < 0x1_0000
      ensures top * 0x1_0000 + w < Pow2(bits + 16)
    {
      hide Pow2;
      PowerTable();
      Pow2Add(bits, 16);
    }

    static lemma {:induction false} PushBits(top: nat, bits: nat, w: nat)
      requires top < Pow2(bits) && w < 0x1_0000
      ensures ToBits(top * 0x1_0000 + w, bits + 16) == ToBits(top, bits) + ToBits(w, 16)
    {
      hide Pow2, Shl, ToBits;
      PowerTable();
      ShlIsMul(top, 16);
      ToBitsJoin(top, bits, w, 16);
    }

    /** The next `n` bits, zeros standing for the ones past the end. */
    method Peek(n: nat) returns (r: nat)
      requires Valid() && n <= 32 && Ready(n)
      ensures r == FromBits(BitStrings.Peek(Rest(), n))
    {
      r := Shr(buf, 64 - n);
      if n <= bits {
        PeekInside(top, bits, n);
        assert BitStrings.Peek(Rest(), n) == ToBits(top, bits)[..n];
      } else {
        PeekPast(top, bits, n);
        assert BitStrings.Peek(Rest(), n) == ToBits(top, bits) + Zeros(n - bits);
      }
    }

    static lemma {:induction false} PeekInside(top: nat, bits: nat, n: nat)
      requires n <= bits <= 64 && top < Pow2(bits)
      ensures Shr(Shl(top, 64 - bits), 64 - n) == FromBits(ToBits(top, bits)[..n])
    {
      ShrAdd(Shl(top, 64 - bits), 64 - bits, bits - n);
      ShrJoin(top, 0, 64 - bits);
      ToBitsPrefix(top, bits, n);
      ShrFits(top, n, bits - n);
      FromToBits(Shr(top, bits - n), n);
    }

    static lemma {:induction false} PeekPast(top: nat, bits: nat, n: nat)
      requires bits <= n <= 64 && top < Pow2(bits)
      ensures Shr(Shl(top, 64 - bits), 64 - n) == FromBits(ToBits(top, bits) + Zeros(n - bits))
    {
      ShlAdd(top, n - bits, 64 - n);
      ShrJoin(Shl(top, n - bits), 0, 64 - n);
      FromBitsConcat(ToBits(top, bits), Zeros(n - bits));
      FromZeros(n - bits);
      FromToBits(top, bits);
    }

    /** Drop the next `n` bits; past the end there is nothing left to drop. */
    method Consume(n: nat)
      requires Valid() && n <= 32 && Ready(n)
      modifies this
      ensures Valid() && Rest() == Skip(old(Rest()), n)
      ensures pos == old(pos) && bits == if old(bits) >= n then old(bits) - n else 0
    {
      hide Shl, LowBits, ToBits, Pow2;
      ghost var low := if n <= bits then LowBits(top, bits - n) else 0;
      if n <= bits {
        ConsumeInside(top, bits, n);
      } else {
        ConsumePast(top, bits, n);
        assert BackStream(data[..pos]) == [];
      }
      buf := Shl(buf, n) % 0x1_0000_0000_0000_0000;
      bits := if bits >= n then bits - n else 0;
      top := low;
    }

    static lemma {:induction false} ConsumeInside(top: nat, bits: nat, n: nat)
      requires n <= bits <= 64 && top < Pow2(bits)
      ensures var low := LowBits(top, bits - n);
              && Shl(Shl(top, 64 - bits), n) % 0x1_0000_0000_0000_0000 == Shl(low, 64 - (bits - n))
              && ToBits(top, bits)[n..] == ToBits(low, bits - n)
    {
      hide Shl, Shr, LowBits, ToBits, Pow2;
      var m := bits - n;
      var q, low := Shr(top, m), LowBits(top, m);
      ShrSplit(top, m);
      ToBitsJoin(q, n, low, m);
      ShlAdd(top, 64 - bits, n);
      ShlPlus(Shl(q, m), low, 64 - m);
      ShlAdd(q, m, 64 - m);
      ShlFits(low, m, 64 - m);
      ShiftedOut(q, Shl(low, 64 - m));
    }

    static lemma {:induction false} ConsumePast(top: nat, bits: nat, n: nat)
      requires bits < n && bits <= 64
      ensures Shl(Shl(top, 64 - bits), n) % 0x1_0000_0000_0000_0000 == 0
      ensures Shl(0, 64) == 0
    {
      ShlAdd(top, 64 - bits, n);
      ShlAdd(top, n - bits, 64);
      ShiftedOut(Shl(top, n - bits), 0);
      ShlIsMul(0, 64);
    }

    method ReadBits(n: nat) returns (r: nat)
      requires Valid() && n <= 32
      modifies this
      ensures Valid() && r == FromBits(BitStrings.Peek(old(Rest()), n)) && Rest() == Skip(old(Rest()), n)
    {
      if n == 0 {
        return 0;
      }
      Ensure(n);
      r := Peek(n);
      Consume(n);
    }
  }

  // --- The writer ---

  class BackBitsWriter {
    var buf: nat
    var bits: nat
    var output: seq<Byte>
    ghost var words: seq<Word>

    ghost predicate Valid()
      reads this
    {
      bits < 16 && buf < Pow2(bits) && output == WordBytes(words)
    }

    /** Everything written so far. */
    ghost function Content(): seq<Bit>
      requires Valid()
      reads this
    {
      WordBits(words) + ToBits(buf, bits)
    }

    constructor ()
      ensures Valid() && Content() == []
    {
      buf, bits, output, words := 0, 0, [], [];
    }

    method WriteBits(val: nat, n: nat)
      requires Valid() && n <= 32 && val < Pow2(n)
      modifies this
      ensures Valid() && Content() == old(Content()) + ToBits(val, n)
    {
      hide Pow2, Shr, Shl, LowBits, ToBits, WordBits, WordBytes;
      ghost var goal := Content() + ToBits(val, n);
      ToBitsJoin(buf, bits, val, n);
      ShlFits(buf, bits, n);
      assert goal == WordBits(words) + ToBits(Shl(buf, n) + val, bits + n);
      buf := Shl(buf, n) + val;
      bits := bits + n;
      while bits >= 16
        invariant bits < 48 && buf < Pow2(bits) && output == WordBytes(words)
        invariant goal == WordBits(words) + ToBits(buf, bits)
      {
        FlushWord(words, buf, bits - 16);
        bits := bits - 16;
        var word := Shr(buf, bits);
        output := output + [word % 0x100, word / 0x100];
        words := words + [word];
        buf := LowBits(buf, bits);
      }
    }

    /** Moving the top 16 of `n + 16` buffered bits to the output. */
    static lemma {:induction false} FlushWord(ws: seq<Word>, v: nat, n: nat)
      requires v < Pow2(n + 16)
      ensures Shr(v, n) < 0x1_0000
      ensures var w: Word := Shr(v, n);
              && WordBits(ws) + ToBits(v, n + 16) == WordBits(ws + [w]) + ToBits(LowBits(v, n), n)
              && WordBytes(ws + [w]) == WordBytes(ws) + [w % 0x100, w / 0x100]
    {
      hide Pow2, Shr, Shl, LowBits, ToBits, WordBits;
      ShrFits(v, 16, n);
      PowerTable();
      ShrSplit(v, n);
      ToBitsJoin(Shr(v, n), 16, LowBits(v, n), n);
      WordBitsAppend(ws, Shr(v, n));
    }

    static lemma {:induction false} WordBitsAppend(ws: seq<Word>, w: Word)
      ensures WordBits(ws + [w]) == WordBits(ws) + ToBits(w, 16)
    {
      if ws == [] {
        assert ws + [w] == [w] && [w][1..] == [];
      } else {
        WordBitsAppend(ws[1..], w);
        assert (ws + [w])[1..] == ws[1..] + [w];
      }
    }

    static lemma {:induction false} PadContent(ws: seq<Word>, v: nat, n: nat)
      requires n < 16 && v < Pow2(n)
      ensures Shl(v, 16 - n) < 0x1_0000
      ensures var last: Word := Shl(v, 16 - n);
              PadWords(WordBits(ws) + ToBits(v, n)) == ws + if n > 0 then [last] else []
    {
      LastWord(v, n);
      hide Shl, FromBits, Pow2, ToBits;
      var tail := ToBits(v, n);
      if ws == [] {
        assert WordBits(ws) + tail == tail;
      } else {
        PadContent(ws[1..], v, n);
        var bs := WordBits(ws) + tail;
        assert bs[..16] == ToBits(ws[0], 16) && bs[16..] == WordBits(ws[1..]) + tail;
        PowerTable();
        FromToBits(ws[0], 16);
        assert PadWords(bs) == [WordOf(bs[..16])] + PadWords(bs[16..]);
      }
    }

    static lemma {:induction false} LastWord(v: nat, n: nat)
      requires n < 16 && v < Pow2(n)
      ensures Shl(v, 16 - n) < 0x1_0000
      ensures FromBits(ToBits(v, n) + Zeros(16 - n)) == Shl(v, 16 - n)
    {
      FromBitsConcat(ToBits(v, n), Zeros(16 - n));
      FromZeros(16 - n);
      FromToBits(v, n);
      FromBitsBound(ToBits(v, n) + Zeros(16 - n));
      PowerTable();
    }

    static lemma {:induction false} ReverseAppend(ws: seq<Word>, w: Word)
      ensures WordBytes(Reverse(ws + [w])) == [w % 0x100, w / 0x100] + WordBytes(Reverse(ws))
    {
      ReverseSnoc(ws, w);
      WordBytesConcat([w], Reverse(ws));
      assert WordBytes([w]) == [w % 0x100, w / 0x100] by { assert [w][..0] == []; }
    }

    static lemma {:induction false} ReverseSnoc(ws: seq<Word>, w: Word)
      ensures Reverse(ws + [w]) == [w] + Reverse(ws)
    {
      if ws == [] {
        assert ws + [w] == [w] && [w][1..] == [];
      } else {
        ReverseSnoc(ws[1..], w);
        assert (ws + [w])[1..] == ws[1..] + [w];
      }
    }

    /** Append the stream to `out`: the unfinished word first, then the words in reverse. */
    method Finish(out: seq<Byte>) returns (r: seq<Byte>)
      requires Valid()
      ensures r == out + BackBytes(Content())
    {
      r := out;
      PadContent(words, buf, bits);
      if bits > 0 {
        var word: Word := Shl(buf, 16 - bits);
        r := r + [word % 0x100, word / 0x100];
        ReverseAppend(words, word);
      } else {
        assert words + [] == words;
      }
      var back := ReversedWords();
      r := r + back;
    }

    method ReversedWords() returns (r: seq<Byte>)
      requires Valid()
      ensures r == WordBytes(Reverse(words))
    {
      r := [];
      var k := |output|;
      ghost var tail: seq<Word> := words;
      while k > 0
        invariant k == 2 * |tail| <= |output| && output[..k] == WordBytes(tail)
        invariant WordBytes(Reverse(words)) == r + WordBytes(Reverse(tail))
      {
        ghost var rest: seq<Word>, w: Word := tail[..|tail| - 1], tail[|tail| - 1];
        assert tail == rest + [w];
        ReverseAppend(rest, w);
        assert output[k - 2..k] == output[..k][k - 2..] == [w % 0x100, w / 0x100];
        assert output[..k - 2] == output[..k][..k - 2];
        r := r + output[k - 2..k];
        k := k - 2;
        tail := rest;
      }
    }
  }
}
