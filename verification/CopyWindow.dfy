/** The window of the patch decoder: the reference followed by the output so far, and for every output byte the
    place in the reference that it came from. */
module CopyWindow {
  import opened RangeCoding
  import opened Rift

  // --- Overlapping copies ---

  /** `v` grown by `n` elements, each a copy of the one that many places back as the first of them. */
  function CopiedFrom<T>(v: seq<T>, src: nat, n: nat): (r: seq<T>)
    requires src < |v|
    ensures |r| == |v| + n && v <= r
    decreases n
  {
    if n == 0 then v else CopiedFrom(v + [v[src]], src + 1, n - 1)
  }

  /** Every copied element equals the one at the same distance before it, whether that is old or itself copied. */
  lemma {:induction false} CopiedAt<T>(v: seq<T>, src: nat, n: nat, k: nat)
    requires src < |v| && k < n
    ensures CopiedFrom(v, src, n)[|v| + k] == CopiedFrom(v, src, n)[src + k]
    decreases n
  {
    var w := v + [v[src]];
    var r := CopiedFrom(w, src + 1, n - 1);
    if k > 0 {
      CopiedAt(w, src + 1, n - 1, k - 1);
    } else {
      assert r[|v|] == w[|v|] == v[src] == r[src];
    }
  }

  /** Nothing else has that property. */
  lemma {:induction false} CopiedUnique<T>(v: seq<T>, src: nat, n: nat, r: seq<T>)
    requires src < |v| && |r| == |v| + n && v <= r
    requires forall i :: |v| <= i < |r| ==> r[i] == r[src + (i - |v|)]
    ensures r == CopiedFrom(v, src, n)
    decreases n
  {
    if n > 0 {
      var w := v + [v[src]];
      assert r[|v|] == r[src] == v[src];
      assert w <= r;
      CopiedUnique(w, src + 1, n - 1, r);
    }
  }

  lemma {:induction false} CopiedTwice<T>(v: seq<T>, src: nat, a: nat, b: nat)
    requires src < |v|
    ensures CopiedFrom(v, src, a + b) == CopiedFrom(CopiedFrom(v, src, a), src + a, b)
    decreases a
  {
    if a > 0 {
      CopiedTwice(v + [v[src]], src + 1, a - 1, b);
    }
  }

  lemma {:induction false} CopiedNext<T>(v: seq<T>, src: nat, n: nat)
    requires src < |v|
    ensures CopiedFrom(v, src, n + 1) == CopiedFrom(v, src, n) + [CopiedFrom(v, src, n)[src + n]]
  {
    CopiedTwice(v, src, n, 1);
  }

  /** Without overlap the copy is a slice. */
  lemma {:induction false} CopiedSlice<T>(v: seq<T>, src: nat, n: nat)
    requires src < |v| && src + n <= |v|
    ensures CopiedFrom(v, src, n) == v + v[src..src + n]
  {
    var r := v + v[src..src + n];
    CopiedUnique(v, src, n, r);
  }

  // --- Provenance ---

  /** A byte of the window and the place in the reference that it came from, or -1. */
  datatype Cell = Cell(byte: Byte, from: int)

  /** Every cell that has an origin holds the reference byte at that origin. */
  predicate Faithful(reference: seq<Byte>, cells: seq<Cell>) {
    forall i :: 0 <= i < |cells| ==>
      cells[i].from == -1 || (0 <= cells[i].from < |reference| && cells[i].byte == reference[cells[i].from])
  }

  lemma {:induction false} CopyFaithful(reference: seq<Byte>, cells: seq<Cell>, src: nat, n: nat)
    requires Faithful(reference, cells) && src < |cells|
    ensures Faithful(reference, CopiedFrom(cells, src, n))
    decreases n
  {
    if n > 0 {
      CopyFaithful(reference, cells + [cells[src]], src + 1, n - 1);
    }
  }

  function CellsOf(bytes: seq<Byte>, origins: seq<int>): (r: seq<Cell>)
    requires |bytes| == |origins|
    ensures |r| == |bytes| && forall i :: 0 <= i < |r| ==> r[i] == Cell(bytes[i], origins[i])
  {
    seq(|bytes|, i requires 0 <= i < |bytes| => Cell(bytes[i], origins[i]))
  }

  function BytesOf(cells: seq<Cell>): (r: seq<Byte>)
    ensures |r| == |cells| && forall i :: 0 <= i < |r| ==> r[i] == cells[i].byte
  {
    seq(|cells|, i requires 0 <= i < |cells| => cells[i].byte)
  }

  /** The bytes of a copy are the copy of the bytes. */
  lemma {:induction false} BytesOfCopy(cells: seq<Cell>, src: nat, n: nat)
    requires src < |cells|
    ensures BytesOf(CopiedFrom(cells, src, n)) == CopiedFrom(BytesOf(cells), src, n)
    decreases n
  {
    if n > 0 {
      assert BytesOf(cells + [cells[src]]) == BytesOf(cells) + [BytesOf(cells)[src]];
      BytesOfCopy(cells + [cells[src]], src + 1, n - 1);
    }
  }

  function Identity(n: nat): (r: seq<int>)
    ensures |r| == n && forall i :: 0 <= i < n ==> r[i] == i
  {
    seq(n, i => i)
  }

  /** The reference, every byte being its own origin. */
  function ReferenceCells(reference: seq<Byte>): (r: seq<Cell>)
    ensures |r| == |reference| && Faithful(reference, r) && BytesOf(r) == reference
  {
    CellsOf(reference, Identity(|reference|))
  }

  /** Where a copy for position `dst` starts: the subtraction wraps, and the result is read as unsigned. */
  function SourceOf(dst: nat, distance: I64): nat {
    (dst - distance) % SPAN64
  }

  class Window {
    const reference: seq<Byte>
    var output: seq<Byte>
    var copySrc: seq<int>

    /** The two lists are in step, and every origin is right. */
    predicate Valid()
      reads this
    {
      |output| == |copySrc| && Faithful(reference, CellsOf(output, copySrc))
    }

    function Cells(): (r: seq<Cell>)
      reads this
      requires |output| == |copySrc|
      ensures |r| == |reference| + |output|
    {
      ReferenceCells(reference) + CellsOf(output, copySrc)
    }

    constructor (r: seq<Byte>)
      ensures Valid() && reference == r && output == [] && copySrc == [] && Cells() == ReferenceCells(r)
    {
      reference, output, copySrc := r, [], [];
    }

    lemma WholeFaithful()
      requires |output| == |copySrc|
      ensures Faithful(reference, Cells()) <==> Valid()
    {
      if Faithful(reference, Cells()) {
        assert CellsOf(output, copySrc) == Cells()[|reference|..];
      }
    }

    method PushByte(b: Byte)
      requires Valid()
      modifies this`output, this`copySrc
      ensures Valid() && output == old(output) + [b] && copySrc == old(copySrc) + [-1]
      ensures Cells() == old(Cells()) + [Cell(b, -1)]
    {
      output, copySrc := output + [b], copySrc + [-1];
    }

    /** A copy succeeds exactly when it starts inside the window, and then it is the byte-by-byte copy of the
        whole window, whether it lies in the reference, in the output, or across the border. */
    method CopyOne(dst: nat, distance: I64, len: nat) returns (ok: bool)
      requires Valid() && dst == |reference| + |output| && 0 < len && dst + len < SPAN64 / 2
      modifies this`output, this`copySrc
      ensures Valid() && (ok <==> SourceOf(dst, distance) < dst)
      ensures ok ==> Cells() == CopiedFrom(old(Cells()), SourceOf(dst, distance), len)
      ensures !ok ==> output == old(output) && copySrc == old(copySrc)
    {
      hide Faithful, CopiedFrom, Cells, Valid;
      var src: nat := SourceOf(dst, distance);
      InStep();
      WholeFaithful();
      ghost var cells := Cells();
      if src < dst {
        CopyFaithful(reference, cells, src, len);
        assert CopiedFrom(cells, src, 0) == cells by { NothingCopied(cells, src); }
      }
      if src + len <= |reference| {
        CopyReference(src, len);
      } else if src >= |reference| {
        if src - |reference| >= |output| {
          return false;
        }
        if src - |reference| + len <= |output| {
          CopyOutput(src, len);
        } else {
          CopyForward(src, 0, len, cells);
        }
      } else {
        CopyAcross(src, len);
      }
      WholeFaithful();
      ok := true;
    }

    lemma InStep()
      requires Valid()
      ensures |output| == |copySrc|
    {
    }

    method CopyReference(src: nat, len: nat)
      requires 0 < len && src + len <= |reference| && |output| == |copySrc|
      modifies this`output, this`copySrc
      ensures |output| == |copySrc| && Cells() == CopiedFrom(old(Cells()), src, len)
    {
      hide CopiedFrom;
      CopiedSlice(Cells(), src, len);
      output := output + reference[src..src + len];
      copySrc := copySrc + Identity(|reference|)[src..src + len];
    }

    method CopyOutput(src: nat, len: nat)
      requires 0 < len && |reference| <= src && src - |reference| + len <= |output| && |output| == |copySrc|
      modifies this`output, this`copySrc
      ensures |output| == |copySrc| && Cells() == CopiedFrom(old(Cells()), src, len)
    {
      hide CopiedFrom;
      CopiedSlice(Cells(), src, len);
      var from := src - |reference|;
      output, copySrc := output + output[from..from + len], copySrc + copySrc[from..from + len];
    }

    /** First the end of the reference, then the output from its start. */
    method CopyAcross(src: nat, len: nat)
      requires src < |reference| < src + len && |output| == |copySrc|
      modifies this`output, this`copySrc
      ensures |output| == |copySrc| && Cells() == CopiedFrom(old(Cells()), src, len)
    {
      hide CopiedFrom, Cells;
      ghost var cells := Cells();
      CopyReference(src, |reference| - src);
      CopyForward(src, |reference| - src, len, cells);
    }

    /** One byte after the other, so that bytes just copied can be copied again. */
    method CopyForward(src: nat, from: nat, len: nat, ghost cells: seq<Cell>)
      requires |reference| <= src + from && src < |cells| && from <= len
      requires |output| == |copySrc| && Cells() == CopiedFrom(cells, src, from)
      modifies this`output, this`copySrc
      ensures |output| == |copySrc| && Cells() == CopiedFrom(cells, src, len)
    {
      hide CopiedFrom;
      for k := from to len
        invariant |output| == |copySrc| && Cells() == CopiedFrom(cells, src, k)
      {
        CopiedNext(cells, src, k);
        var i := src + k - |reference|;
        assert Cells()[src + k] == Cell(output[i], copySrc[i]);
        output, copySrc := output + [output[i]], copySrc + [copySrc[i]];
      }
    }
  }

  lemma {:induction false} NothingCopied<T>(v: seq<T>, src: nat)
    requires src < |v|
    ensures CopiedFrom(v, src, 0) == v
  {
  }
}
