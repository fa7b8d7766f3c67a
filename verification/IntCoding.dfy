/** Signed 64-bit numbers under a code of 252 symbols, 126 for each sign, whose header lists the code lengths. */
module IntCoding {
  import opened Powers
  import opened BitStrings
  import opened LsbBits
  import opened Rift
  import opened CanonicalCode
  import opened LeftCode
  import opened BitReading
  import opened BitWriting
  import opened CtzTable
  import opened MatchCoding
  import opened MatchCodec

  const INT_SYMBOLS := 252
  const INT_HALF := 126

  /** The symbol and the verbatim bits of a number. */
  datatype IntCode = IntCode(sym: nat, extra: nat, width: nat)

  function Magnitude(v: I64): nat {
    var x: int := v;
    if x < 0 then -(x + 1) else x
  }

  /** Magnitudes up to 3 have their own symbols; larger ones share the bands of plain distances. */
  function ValueCode(v: I64): IntCode {
    var m := Magnitude(v);
    var side := if v < 0 then INT_HALF else 0;
    if m <= 3 then IntCode(m + side, 0, 0)
    else
      AdjInBand(m);
      IntCode(AdjOf(m) + side, m - BandFirst(AdjOf(m)), AdjOf(m) / 2 - 1)
  }

  function Signed(m: nat, negative: bool): int {
    var x: int := m;
    if negative then -x - 1 else x
  }

  ghost function TakeMagnitude(i: nat, rest: seq<Bit>): Field {
    if i <= 3 then Field(i, rest) else Raised(TakeField(rest, i / 2 - 1), BandFirst(i))
  }

  datatype SignedField = NoNumber | Number(val: int, rest: seq<Bit>)

  ghost function TakeNumber(lens: seq<nat>, rest: seq<Bit>): SignedField {
    match TakeSymbol(lens, rest)
    case NoField => NoNumber
    case Field(s, r) =>
      match TakeMagnitude(if s < INT_HALF then s else s - INT_HALF, r)
      case NoField => NoNumber
      case Field(m, r') => Number(Signed(m, s >= INT_HALF), r')
  }

  /** A complete code in which every number has a symbol. */
  predicate IntLengths(lens: seq<nat>) {
    |lens| == INT_SYMBOLS && LeftComplete(lens) && forall i :: 0 <= i < |lens| ==> 1 <= lens[i]
  }

  lemma {:induction false} BandOf63Bits(m: nat)
    requires 4 <= m < SPAN64 / 2
    ensures InBand(m, AdjOf(m)) && 4 <= AdjOf(m) < INT_HALF
  {
    hide AdjOf;
    AdjInBand(m);
    PowerTable();
    assert Pow2(64) == 4 * Pow2(62);
    assert BandFirst(126) == SPAN64 / 2;
    if AdjOf(m) > 126 {
      BandsAscend(126, AdjOf(m));
    }
  }

  lemma {:induction false} ValueCodeFits(v: I64)
    ensures var c := ValueCode(v);
            && c.sym < INT_SYMBOLS && c.extra < Pow2(c.width) && c.width <= 61
            && (c.sym >= INT_HALF <==> v < 0)
  {
    hide AdjOf, BandFirst;
    var m := Magnitude(v);
    if m > 3 {
      BandOf63Bits(m);
    }
  }

  function NumberBits(lens: seq<nat>, v: I64): seq<Bit>
    requires |lens| == INT_SYMBOLS
  {
    ValueCodeFits(v);
    LeftBits(lens, ValueCode(v).sym) + ToLsb(ValueCode(v).extra, ValueCode(v).width)
  }

  /** Every 64-bit number is read back. */
  lemma {:induction false} NumberReadBack(lens: seq<nat>, v: I64, tail: seq<Bit>)
    requires IntLengths(lens)
    ensures TakeNumber(lens, NumberBits(lens, v) + tail) == Number(v, tail) && |NumberBits(lens, v)| > 0
  {
    hide AdjOf, BandFirst, LeftComplete, LeftBits, TakeField, TakeSymbol, ToLsb;
    var c := ValueCode(v);
    ValueCodeFits(v);
    SymbolReadBack(lens, c.sym, ToLsb(c.extra, c.width) + tail);
    assert NumberBits(lens, v) + tail == LeftBits(lens, c.sym) + (ToLsb(c.extra, c.width) + tail);
    var m := Magnitude(v);
    if m <= 3 {
      assert ToLsb(0, 0) + tail == tail by { NoLsb(tail); }
    } else {
      BandOf63Bits(m);
      FieldReadBack(c.extra, c.width, tail);
    }
  }

  lemma {:induction false} NoLsb(tail: seq<Bit>)
    ensures ToLsb(0, 0) + tail == tail
  {
  }

  method WriteNumber(t: HuffmanTable, w: BitWriter, v: I64)
    requires w.Valid() && Usable(t) && |t.lengths| == INT_SYMBOLS
    modifies w
    ensures w.Valid() && w.Content() == old(w.Content()) + NumberBits(t.lengths, v)
  {
    hide BitWriter.Valid, BitWriter.Content, Usable, LeftBits, ToLsb, ValueCode, Pow2;
    ValueCodeFits(v);
    ghost var before := w.Content();
    var c := ValueToSymbol(v);
    WriteCode(t, w, c.sym);
    w.WriteBits(c.extra, c.width);
    assert w.Content() == before + NumberBits(t.lengths, v);
  }

  /** By the highest bit and the one below it; the bits below that are verbatim. */
  method ValueToSymbol(v: I64) returns (c: IntCode)
    ensures c == ValueCode(v)
  {
    hide AdjOf, BandFirst, Shr, Log2;
    var m := Magnitude(v);
    if m <= 3 {
      return IntCode(if v < 0 then m + INT_HALF else m, 0, 0);
    }
    var high := Log2(m);
    Log2AtLeast(m, 2) by { assert Pow2(2) == 4; }
    var half := high - 1;
    var bit := Shr(m, half) % 2;
    var sym := 2 * (half + 1) + bit;
    AdjParts(m);
    c := IntCode(if v < 0 then sym + INT_HALF else sym, m % Pow2(half), half);
  }

  lemma {:induction false} AdjParts(m: nat)
    requires 4 <= m && Log2(m) >= 2
    ensures InBand(m, AdjOf(m)) && AdjOf(m) == 2 * Log2(m) + Shr(m, Log2(m) - 1) % 2
    ensures AdjOf(m) / 2 - 1 == Log2(m) - 1 && m % Pow2(Log2(m) - 1) == m - BandFirst(AdjOf(m))
  {
    hide Shr, Log2;
    AdjInBand(m);
    var half := Log2(m) - 1;
    assert AdjOf(m) / 2 - 1 == half;
    DivUnique(m, Pow2(half), 2 + AdjOf(m) % 2, m - BandFirst(AdjOf(m)));
  }

  method ReadNumber(t: HuffmanTable, r: BitReader) returns (v: Option<int>)
    requires r.Valid() && Usable(t) && |t.lengths| == INT_SYMBOLS
    modifies r
    ensures r.Valid()
    ensures LeftComplete(t.lengths) ==>
              match TakeNumber(t.lengths, old(r.Rest()))
              case NoNumber => true
              case Number(x, rest) => r.padding <= |rest| ==> v == Some(x) && r.Rest() == rest
  {
    hide BitReader.Valid, BitReader.Rest, Usable, TakeSymbol, LeftComplete, FromLsb, Pow2, Shl;
    var s := ReadCode(t, r);
    if s.None? {
      return None;
    }
    var i := if s.value < INT_HALF then s.value else s.value - INT_HALF;
    if i <= 3 {
      return Some(Signed(i, s.value >= INT_HALF));
    }
    var half := i / 2 - 1;
    BandLimits(i);
    var extra := r.ReadBits(half);
    v := if extra.None? then None else Some(Signed(Shl(i % 2 + 2, half) + extra.value, s.value >= INT_HALF));
  }
}
