/** Any interleaving of fields written to the patch bit stream is read back. */
module BitRoundTrip {
  import opened Powers
  import opened BitStrings
  import opened RangeCoding
  import opened CanonicalCode
  import opened LsbBits
  import opened BitReading
  import opened BitWriting

  datatype Item =
    | Fixed(val: nat, width: nat)
    | Number(val: nat)
    | Number32(val: nat)
    | Buffer(bytes: seq<Byte>)

  predicate ValidItem(i: Item) {
    match i
    case Fixed(v, n) => n <= 64 && v < Pow2(n)
    case Number(v) => v < 0x1_0000_0000_0000_0000
    case Number32(v) => 0x100 <= v < 0x1_0000_0000
    case Buffer(bytes) => |bytes| < 0x8000_0000_0000_0000
  }

  /** What the reader is told: the kind of each item, and the width of a fixed field. */
  datatype Kind = FixedKind(width: nat) | NumberKind | Number32Kind | BufferKind

  function KindOf(i: Item): Kind {
    match i
    case Fixed(_, n) => FixedKind(n)
    case Number(_) => NumberKind
    case Number32(_) => Number32Kind
    case Buffer(_) => BufferKind
  }

  function ItemBits(i: Item, start: nat): seq<Bit>
    requires ValidItem(i)
  {
    match i
    case Fixed(v, n) => ToLsb(v, n)
    case Number(v) => I64Bits(v)
    case Number32(v) => U32Bits(v)
    case Buffer(bytes) => BufferBits(bytes, start)
  }

  predicate ValidItems(items: seq<Item>) {
    forall k :: 0 <= k < |items| ==> ValidItem(items[k])
  }

  /** The bits of all items, the first of which starts after `start` bits. */
  function ItemsBits(items: seq<Item>, start: nat): seq<Bit>
    requires ValidItems(items)
  {
    if |items| == 0 then []
    else
      var first := ItemBits(items[0], start);
      first + ItemsBits(items[1..], start + |first|)
  }

  method WriteItem(w: BitWriter, i: Item)
    requires w.Valid() && ValidItem(i)
    modifies w
    ensures w.Valid() && w.Content() == old(w.Content()) + ItemBits(i, |old(w.Content())|)
  {
    hide BitWriter.Valid, BitWriter.Content;
    match i
    case Fixed(v, n) => w.WriteBits(v, n);
    case Number(v) => w.WriteI64(v);
    case Number32(v) => w.WriteU32Number(v);
    case Buffer(bytes) => w.WriteBuffer(bytes);
  }

  method WriteItems(items: seq<Item>) returns (data: seq<Byte>)
    requires ValidItems(items)
    ensures AllBits(data) == Sealed(Zeros(3) + ItemsBits(items, 3))
  {
    hide BitWriter.Valid, BitWriter.Content, ItemBits, ValidItem;
    var w := new BitWriter();
    ghost var goal := Zeros(3) + ItemsBits(items, 3);
    assert items[0..] == items;
    for k := 0 to |items|
      invariant w.Valid() && Zeros(3) <= w.Content()
      invariant goal == w.Content() + ItemsBits(items[k..], |w.Content()|)
    {
      assert items[k..][1..] == items[k + 1..];
      WriteItem(w, items[k]);
    }
    assert items[|items|..] == [];
    data := w.Finish();
  }

  /** One item at the front of the stream; at least the padding of `p` bits follows it. */
  method ReadItem(r: BitReader, kind: Kind, ghost i: Item, ghost start: nat, ghost tail: seq<Bit>)
    returns (item: Option<Item>)
    requires r.Valid() && ValidItem(i) && kind == KindOf(i)
    requires r.Rest() == ItemBits(i, start) + tail && r.padding <= |tail|
    requires (start + |ItemBits(i, start)| + |tail|) % 8 == 0
    modifies r
    ensures r.Valid() && item == Some(i) && r.Rest() == tail
  {
    hide BitReader.Valid, BitReader.Rest, ToLsb, I64Bits, U32Bits, Pow2, AllBits, TakeI64, TakeU32Number;
    match kind
    case FixedKind(n) =>
      FieldReadBack(i.val, n, tail);
      var v := r.ReadBits(n);
      item := Some(Fixed(v.value, n));
    case NumberKind =>
      I64ReadBack(i.val, tail);
      var v := r.ReadI64();
      item := Some(Number(v.value));
    case Number32Kind =>
      U32ReadBack(i.val, tail);
      var v := r.ReadU32Number();
      item := Some(Number32(v.value));
    case BufferKind =>
      BufferReadBack(i.bytes, start, tail);
      var v := r.ReadBuffer();
      AllBitsInjective(v.value, i.bytes);
      item := Some(Buffer(v.value));
  }

  lemma {:induction false} BufferReadBack(bytes: seq<Byte>, start: nat, tail: seq<Bit>)
    requires |bytes| < 0x8000_0000_0000_0000
    requires (start + |BufferBits(bytes, start)| + |tail|) % 8 == 0
    ensures var rest := Zeros(Padding(start + |I64Bits(|bytes|)|)) + AllBits(bytes) + tail;
            var aligned := rest[|rest| % 8..];
            && TakeI64(BufferBits(bytes, start) + tail) == Field(|bytes|, rest)
            && 8 * |bytes| + |tail| == |aligned| && aligned[..8 * |bytes|] == AllBits(bytes)
            && aligned[8 * |bytes|..] == tail
  {
    hide TakeI64, I64Bits, AllBits;
    var rest := Zeros(Padding(start + |I64Bits(|bytes|)|)) + AllBits(bytes) + tail;
    I64ReadBack(|bytes|, rest);
    assert BufferBits(bytes, start) + tail == I64Bits(|bytes|) + rest;
    var pad := Padding(start + |I64Bits(|bytes|)|);
    PadOfRest(start + |I64Bits(|bytes|)|, 8 * |bytes|, |tail|);
    assert rest[pad..] == AllBits(bytes) + tail;
  }

  lemma {:induction false} PadOfRest(n: nat, a: nat, b: nat)
    requires a % 8 == 0 && (n + Padding(n) + a + b) % 8 == 0
    ensures (Padding(n) + a + b) % 8 == Padding(n)
  {
    var pad := Padding(n);
    assert (n + pad) % 8 == 0;
    assert b % 8 == 0;
  }

  /** Everything that was written is read back, in order. */
  method ReadItems(data: seq<Byte>, kinds: seq<Kind>, ghost items: seq<Item>) returns (r: seq<Item>)
    requires ValidItems(items) && AllBits(data) == Sealed(Zeros(3) + ItemsBits(items, 3))
    requires |kinds| == |items| && forall k :: 0 <= k < |items| ==> kinds[k] == KindOf(items[k])
    ensures r == items
  {
    hide BitReader.Valid, BitReader.Rest, ItemBits, ValidItem;
    ghost var content := Zeros(3) + ItemsBits(items, 3);
    ghost var pad := Zeros(Padding(|content|));
    SealedOpens(data, content);
    var reader := new BitReader(data);
    r := [];
    ghost var start: nat := 3;
    assert items[0..] == items && content[3..] == ItemsBits(items, 3);
    for k := 0 to |kinds|
      invariant reader.Valid() && reader.padding == |pad| && r == items[..k]
      invariant reader.Rest() == ItemsBits(items[k..], start) + pad
      invariant (start + |ItemsBits(items[k..], start)| + |pad|) % 8 == 0
    {
      assert items[k..][1..] == items[k + 1..];
      ghost var first := ItemBits(items[k], start);
      ghost var tail := ItemsBits(items[k + 1..], start + |first|) + pad;
      assert reader.Rest() == first + tail;
      var item := ReadItem(reader, kinds[k], items[k], start, tail);
      r := r + [item.value];
      start := start + |first|;
    }
  }
}
