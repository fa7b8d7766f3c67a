/** Adaptive Huffman codes: rebuilt from symbol counts after every `rebuildFreq` symbols. */
module AdaptiveCodes {
  import opened Powers
  import opened BitStrings
  import opened CanonicalCode
  import opened CodeLengths
  import opened CodeLenCompute
  import opened DecodeTables
  import opened BackBits

  // --- As a value: what encoder and decoder keep in step ---

  datatype Code = Code(rebuildFreq: nat, freqs: seq<nat>, countdown: nat, lens: seq<nat>)

  predicate ValidCode(c: Code) {
    && |c.freqs| == |c.lens| <= MAX_SYMBOLS
    && 1 <= c.countdown <= c.rebuildFreq <= 1024
    && (forall s :: 0 <= s < |c.freqs| ==> 1 <= c.freqs[s] && c.freqs[s] + c.countdown <= 2 * c.rebuildFreq + 2)
    && Subscribed(c.lens)
    && (|c.lens| >= 2 ==> Complete(c.lens))
    && (forall s :: 0 <= s < |c.lens| ==> c.lens[s] > 0)
  }

  function Units(n: nat): (r: seq<nat>)
    ensures |r| == n && forall i :: 0 <= i < n ==> r[i] == 1
  {
    seq(n, i => 1)
  }

  lemma {:induction false} ActiveAll(freqs: seq<nat>)
    requires forall s :: 0 <= s < |freqs| ==> freqs[s] > 0
    ensures |Active(freqs)| == |freqs|
  {
    if |freqs| > 0 {
      ActiveAll(freqs[..|freqs| - 1]);
    }
  }

  lemma {:induction false} RebuiltLens(freqs: seq<nat>)
    requires ValidFreqs(freqs) && forall s :: 0 <= s < |freqs| ==> freqs[s] > 0
    ensures Subscribed(CodeLens(freqs)) && (|freqs| >= 2 ==> Complete(CodeLens(freqs)))
    ensures forall s :: 0 <= s < |freqs| ==> CodeLens(freqs)[s] > 0
  {
    ActiveAll(freqs);
    CodeLensPrefixCode(freqs);
  }

  function NewCode(numSyms: nat, rebuildFreq: nat): (c: Code)
    requires numSyms <= MAX_SYMBOLS && 1 <= rebuildFreq <= 1024
    ensures ValidCode(c) && |c.freqs| == numSyms
  {
    RebuiltLens(Units(numSyms));
    Code(rebuildFreq, Units(numSyms), rebuildFreq, CodeLens(Units(numSyms)))
  }

  function Dilute(freqs: seq<nat>): (r: seq<nat>)
    ensures |r| == |freqs| && forall i :: 0 <= i < |freqs| ==> r[i] == freqs[i] / 2 + 1
  {
    seq(|freqs|, i requires 0 <= i < |freqs| => freqs[i] / 2 + 1)
  }

  /** Count one symbol. The new lengths come from the full counts, which are halved only afterwards. */
  function Observe(c: Code, sym: nat): (c': Code)
    requires ValidCode(c) && sym < |c.freqs|
    ensures ValidCode(c') && |c'.freqs| == |c.freqs| && c'.rebuildFreq == c.rebuildFreq
  {
    var freqs := c.freqs[sym := c.freqs[sym] + 1];
    if c.countdown == 1 then
      RebuiltLens(freqs);
      Code(c.rebuildFreq, Dilute(freqs), c.rebuildFreq, CodeLens(freqs))
    else
      c.(freqs := freqs, countdown := c.countdown - 1)
  }

  datatype DecodedSymbol = BadCode | DecodedSymbol(sym: nat, code: Code, rest: seq<Bit>)

  /** Prefix decoding on the next 15 bits, zeros standing for bits past the end. */
  function PrefixDecode(c: Code, rest: seq<Bit>): (d: DecodedSymbol)
    requires ValidCode(c)
    ensures d.DecodedSymbol? ==> d.sym < |c.freqs| && ValidCode(d.code) && |d.code.freqs| == |c.freqs|
  {
    match FindSymbol(c.lens, BitStrings.Peek(rest, MAX_CODEWORD_LEN))
    case None => BadCode
    case Some(s) => DecodedSymbol(s, Observe(c, s), Skip(rest, c.lens[s]))
  }

  /** The decoder reads back the symbol, and its code is again the encoder's, whatever bits follow. */
  lemma {:induction false} DecodeEncoded(c: Code, sym: nat, tail: seq<Bit>)
    requires ValidCode(c) && sym < |c.freqs|
    ensures PrefixDecode(c, CodeBits(c.lens, sym) + tail) == DecodedSymbol(sym, Observe(c, sym), tail)
  {
    var rest := CodeBits(c.lens, sym) + tail;
    var w := BitStrings.Peek(rest, MAX_CODEWORD_LEN);
    assert CodeBits(c.lens, sym) <= w;
    FindSymbolIs(c.lens, w, sym);
    PeekOfPrefix(CodeBits(c.lens, sym), tail);
  }

  // --- As an object with its tables ---

  function CodesOf(lens: seq<nat>): (r: seq<nat>)
    ensures |r| == |lens|
    ensures forall s :: 0 <= s < |lens| ==> r[s] == if lens[s] > 0 then CodeOf(lens, s) else 0
  {
    seq(|lens|, s requires 0 <= s < |lens| => if lens[s] > 0 then CodeOf(lens, s) else 0)
  }

  class AdaptiveCode {
    const rebuildFreq: nat
    var freqs: seq<nat>
    var countdown: nat
    var direct: seq<nat>
    var overflow: seq<Node>
    var codes: seq<nat>
    var lens: seq<nat>
    ghost var paths: seq<seq<Bit>>
    ghost var owner: seq<nat>

    ghost function Value(): Code
      reads this
    {
      Code(rebuildFreq, freqs, countdown, lens)
    }

    ghost predicate Valid()
      reads this
    {
      && ValidCode(Value())
      && codes == CodesOf(lens)
      && TablesFor(lens, direct, overflow, paths, owner)
    }

    constructor (numSyms: nat, rebuild: nat)
      requires numSyms <= MAX_SYMBOLS && 1 <= rebuild <= 1024
      ensures Valid() && Value() == NewCode(numSyms, rebuild)
    {
      rebuildFreq := rebuild;
      freqs := Units(numSyms);
      countdown := rebuild;
      lens, codes := Zero(numSyms), Zero(numSyms);
      direct, overflow, paths, owner := Zero(TABLE_SIZE), [], [], [];
      new;
      RebuiltLens(freqs);
      Rebuild();
    }

    method Rebuild()
      requires ValidFreqs(freqs) && Subscribed(CodeLens(freqs))
      modifies this
      ensures unchanged(`freqs, `countdown)
      ensures lens == CodeLens(freqs) && codes == CodesOf(lens)
      ensures TablesFor(lens, direct, overflow, paths, owner)
    {
      hide CodeLens, KraftSum, TablesFor, CodesOf;
      lens := ComputeLens(freqs);
      direct, overflow, paths, owner := BuildTables(lens);
      codes := BuildCodes(lens);
    }

    /** next_code[l] for the lengths 1 to 15, index 0 unused. */
    static method FirstCodes(lens: seq<nat>) returns (next: seq<nat>)
      requires ValidLens(lens)
      ensures |next| == 16 && forall l :: 1 <= l <= 15 ==> next[l] == FirstCode(lens, l)
    {
      var count := Zero(16);
      for i := 0 to |lens|
        invariant |count| == 16 && count[0] == 0
        invariant forall l :: 1 <= l <= 15 ==> count[l] == Count(lens[..i], l)
      {
        assert lens[..i + 1][..i] == lens[..i];
        if lens[i] > 0 {
          count := count[lens[i] := count[lens[i]] + 1];
        }
      }
      assert lens[..|lens|] == lens;
      next := SumCodes(lens, count);
    }

    static method SumCodes(lens: seq<nat>, count: seq<nat>) returns (next: seq<nat>)
      requires |count| == 16 && count[0] == 0 && forall l :: 1 <= l <= 15 ==> count[l] == Count(lens, l)
      ensures |next| == 16 && forall l :: 1 <= l <= 15 ==> next[l] == FirstCode(lens, l)
    {
      hide Count;
      next := Zero(16);
      var code := 0;
      for bits := 1 to 16
        invariant |next| == 16 && (bits > 1 ==> code == FirstCode(lens, bits - 1)) && (bits == 1 ==> code == 0)
        invariant forall l :: 1 <= l < bits ==> next[l] == FirstCode(lens, l)
      {
        code := 2 * (code + count[bits - 1]);
        next := next[bits := code];
      }
    }

    static method BuildCodes(lens: seq<nat>) returns (codes: seq<nat>)
      requires ValidLens(lens)
      ensures codes == CodesOf(lens)
    {
      var next := FirstCodes(lens);
      codes := Zero(|lens|);
      for sym := 0 to |lens|
        invariant |codes| == |lens| && NextCodes(lens, sym, next)
        invariant forall s :: 0 <= s < |lens| ==>
                    codes[s] == if s < sym && lens[s] > 0 then CodeOf(lens, s) else 0
      {
        NextCodesStep(lens, sym, next);
        if lens[sym] > 0 {
          codes := codes[sym := next[lens[sym]]];
          next := next[lens[sym] := next[lens[sym]] + 1];
        }
      }
    }

    static method BuildTables(lens: seq<nat>)
      returns (direct: seq<nat>, overflow: seq<Node>, ghost paths: seq<seq<Bit>>, ghost owner: seq<nat>)
      requires Subscribed(lens) && |lens| <= MAX_SYMBOLS
      ensures TablesFor(lens, direct, overflow, paths, owner)
    {
      direct, overflow, paths, owner := Zero(TABLE_SIZE), [], [], [];
      var next := FirstCodes(lens);
      for sym := 0 to |lens|
        invariant NextCodes(lens, sym, next)
        invariant Sound(lens, sym, direct, overflow, paths, owner)
        invariant AllFound(lens, sym, direct, overflow)
      {
        NextCodesStep(lens, sym, next);
        if lens[sym] == 0 {
          SoundNext(lens, sym, direct, overflow, paths, owner);
        } else {
          var c := next[lens[sym]];
          next := next[lens[sym] := c + 1];
          if lens[sym] <= TABLE_BITS {
            direct := InsertShort(lens, sym, c, direct, overflow, paths, owner);
          } else {
            direct, overflow, paths, owner := InsertLong(lens, sym, c, direct, overflow, paths, owner);
          }
        }
      }
    }

    static method InsertShort(lens: seq<nat>, sym: nat, c: nat, direct: seq<nat>,
                              ghost overflow: seq<Node>, ghost paths: seq<seq<Bit>>, ghost owner: seq<nat>)
      returns (direct': seq<nat>)
      requires Subscribed(lens) && sym < |lens| <= MAX_SYMBOLS && 0 < lens[sym] <= TABLE_BITS
      requires c == CodeOf(lens, sym)
      requires Sound(lens, sym, direct, overflow, paths, owner) && AllFound(lens, sym, direct, overflow)
      ensures Sound(lens, sym + 1, direct', overflow, paths, owner)
      ensures AllFound(lens, sym + 1, direct', overflow)
    {
      direct' := direct;
      var shift := TABLE_BITS - lens[sym];
      var base, fill := Shl(c, shift), Pow2(shift);
      ShortCells(lens, sym);
      for i := 0 to fill
        invariant |direct'| == TABLE_SIZE
        invariant forall v :: 0 <= v < TABLE_SIZE ==>
                    direct'[v] == if base <= v < base + i then Entry(lens, sym) else direct[v]
      {
        direct' := direct'[base + i := Entry(lens, sym)];
      }
      ShortInserted(lens, sym, direct, direct', overflow, paths, owner);
      AllFoundNext(lens, sym, direct, overflow, direct', overflow);
    }

    static method InsertLong(lens: seq<nat>, sym: nat, c: nat, direct: seq<nat>,
                             overflow: seq<Node>, ghost paths: seq<seq<Bit>>, ghost owner: seq<nat>)
      returns (direct': seq<nat>, overflow': seq<Node>, ghost paths': seq<seq<Bit>>, ghost owner': seq<nat>)
      requires Subscribed(lens) && sym < |lens| <= MAX_SYMBOLS && lens[sym] > TABLE_BITS
      requires c == CodeOf(lens, sym)
      requires Sound(lens, sym, direct, overflow, paths, owner) && AllFound(lens, sym, direct, overflow)
      ensures Sound(lens, sym + 1, direct', overflow', paths', owner')
      ensures AllFound(lens, sym + 1, direct', overflow')
    {
      hide DirectSound, TreeSound, Owned, Sound, Found, AllFound, CodeBits, LowBits, TreeExtends, DirectExtends,
           KraftSum;
      ghost var code := CodeBits(lens, sym);
      var suffixLen := lens[sym] - TABLE_BITS;
      var prefix := Shr(c, suffixLen);
      var suffix := LowBits(c, suffixLen);
      PrefixAndSuffix(lens, sym);
      var root: nat;
      root, direct', overflow', paths', owner' := FindRoot(lens, sym, prefix, direct, overflow, paths, owner);
      SameSize(lens, sym + 1, overflow', paths');
      EmptyReach(overflow', root);
      assert code[TABLE_BITS..TABLE_BITS] == [];
      var node: nat := root;
      var bitPos := suffixLen - 1;
      ghost var j := TABLE_BITS;
      while bitPos > 0
        invariant 0 <= bitPos && j == lens[sym] - 1 - bitPos && TABLE_BITS <= j
        invariant DirectSound(lens, sym + 1, direct', paths')
        invariant TreeSound(lens, sym + 1, overflow', paths') && Owned(lens, sym + 1, paths', owner')
        invariant |overflow'| <= 5 * sym + (j - 9) && TreeExtends(overflow, overflow')
        invariant node < |overflow'| == |paths'| && paths'[node] == code[..j]
        invariant Reach(overflow', root, code[TABLE_BITS..j]) == Some(node)
      {
        SuffixBit(lens, sym, bitPos);
        ghost var before := overflow';
        node, overflow', paths', owner' :=
          Descend(lens, sym, node, Shr(suffix, bitPos) % 2, root, j, direct', overflow', paths', owner');
        TreeExtendsTwice(overflow, before, overflow');
        SameSize(lens, sym + 1, overflow', paths');
        bitPos := bitPos - 1;
        j := j + 1;
      }
      SuffixBit(lens, sym, 0);
      LongInserted(lens, sym, direct', overflow', paths', owner', prefix, root, node);
      ghost var before := overflow';
      overflow' := overflow'[node := SetChild(overflow'[node], suffix % 2, Entry(lens, sym))];
      TreeExtendsTwice(overflow, before, overflow');
      AllFoundNext(lens, sym, direct, overflow, direct', overflow');
    }

    static lemma {:induction false} EmptyReach(overflow: seq<Node>, root: nat)
      requires root < |overflow|
      ensures Reach(overflow, root, []) == Some(root)
    {
    }

    static lemma {:induction false} TreeExtendsTwice(a: seq<Node>, b: seq<Node>, c: seq<Node>)
      requires TreeExtends(a, b) && TreeExtends(b, c)
      ensures TreeExtends(a, c)
    {
    }

    static lemma {:induction false} PrefixAndSuffix(lens: seq<nat>, sym: nat)
      requires Subscribed(lens) && sym < |lens| && lens[sym] > TABLE_BITS
      ensures var prefix := Shr(CodeOf(lens, sym), lens[sym] - TABLE_BITS);
              prefix < TABLE_SIZE && ToBits(prefix, TABLE_BITS) == CodeBits(lens, sym)[..TABLE_BITS]
    {
      var c, n := CodeOf(lens, sym), lens[sym] - TABLE_BITS;
      CodeFits(lens, sym);
      ToBitsPrefix(c, lens[sym], TABLE_BITS);
      ShrFits(c, TABLE_BITS, n);
      PowerTable();
    }

    static lemma {:induction false} SuffixBit(lens: seq<nat>, sym: nat, i: nat)
      requires sym < |lens| && i + TABLE_BITS < lens[sym]
      ensures Shr(LowBits(CodeOf(lens, sym), lens[sym] - TABLE_BITS), i) % 2 == CodeBits(lens, sym)[lens[sym] - 1 - i]
    {
      var c, n := CodeOf(lens, sym), lens[sym] - TABLE_BITS;
      ShrSplit(c, n);
      ToBitsJoin(Shr(c, n), TABLE_BITS, LowBits(c, n), n);
      ToBitsAt(LowBits(c, n), n, i);
    }

    static method FindRoot(lens: seq<nat>, sym: nat, prefix: nat, direct: seq<nat>,
                           overflow: seq<Node>, ghost paths: seq<seq<Bit>>, ghost owner: seq<nat>)
      returns (root: nat, direct': seq<nat>, overflow': seq<Node>,
               ghost paths': seq<seq<Bit>>, ghost owner': seq<nat>)
      requires Subscribed(lens) && sym < |lens| <= MAX_SYMBOLS && lens[sym] > TABLE_BITS
      requires Sound(lens, sym, direct, overflow, paths, owner)
      requires prefix < TABLE_SIZE && ToBits(prefix, TABLE_BITS) == CodeBits(lens, sym)[..TABLE_BITS]
      ensures DirectSound(lens, sym + 1, direct', paths') && TreeSound(lens, sym + 1, overflow', paths')
      ensures Owned(lens, sym + 1, paths', owner') && |overflow'| <= 5 * sym + 1
      ensures DirectExtends(direct, direct') && TreeExtends(overflow, overflow')
      ensures root < |overflow'| && direct'[prefix] == ENTRY_OVERFLOW + root
      ensures paths'[root] == CodeBits(lens, sym)[..TABLE_BITS]
    {
      LongRootCell(lens, sym, direct, overflow, paths, owner, prefix);
      if direct[prefix] == 0 {
        AddRoot(lens, sym, direct, overflow, paths, owner, prefix);
        root := |overflow|;
        overflow' := overflow + [(0, 0)];
        direct' := direct[prefix := ENTRY_OVERFLOW + root];
        paths', owner' := paths + [ToBits(prefix, TABLE_BITS)], owner + [sym];
      } else {
        SoundNext(lens, sym, direct, overflow, paths, owner);
        root := direct[prefix] - ENTRY_OVERFLOW;
        direct', overflow', paths', owner' := direct, overflow, paths, owner;
      }
    }

    /** One step down the overflow tree, adding a node where there is none. */
    static method Descend(lens: seq<nat>, sym: nat, node: nat, bit: Bit, ghost root: nat, ghost j: nat,
                          ghost direct: seq<nat>, overflow: seq<Node>,
                          ghost paths: seq<seq<Bit>>, ghost owner: seq<nat>)
      returns (next: nat, overflow': seq<Node>, ghost paths': seq<seq<Bit>>, ghost owner': seq<nat>)
      requires Subscribed(lens) && sym < |lens| <= MAX_SYMBOLS && TABLE_BITS <= j && j + 1 < lens[sym]
      requires DirectSound(lens, sym + 1, direct, paths) && TreeSound(lens, sym + 1, overflow, paths)
      requires Owned(lens, sym + 1, paths, owner)
      requires node < |overflow| && paths[node] == CodeBits(lens, sym)[..j] && bit == CodeBits(lens, sym)[j]
      requires Reach(overflow, root, CodeBits(lens, sym)[TABLE_BITS..j]) == Some(node)
      ensures DirectSound(lens, sym + 1, direct, paths') && TreeSound(lens, sym + 1, overflow', paths')
      ensures Owned(lens, sym + 1, paths', owner') && TreeExtends(overflow, overflow')
      ensures |overflow'| <= |overflow| + 1
      ensures next < |overflow'| && paths'[next] == CodeBits(lens, sym)[..j + 1]
      ensures Reach(overflow', root, CodeBits(lens, sym)[TABLE_BITS..j + 1]) == Some(next)
    {
      hide DirectSound, TreeSound, Owned, Subscribed, CodeBits, Reach, TreeExtends;
      SameSize(lens, sym + 1, overflow, paths);
      var child := Child(overflow[node], bit);
      if child == 0 {
        StepToNewNode(lens, sym, direct, overflow, paths, owner, root, node, j);
        next := |overflow|;
        paths', owner' := paths + [CodeBits(lens, sym)[..j + 1]], owner + [sym];
        overflow' := overflow + [(0, 0)];
        overflow' := overflow'[node := SetChild(overflow'[node], bit, ENTRY_OVERFLOW + next)];
      } else {
        StepToNode(lens, sym, overflow, paths, root, node, j);
        next := child - ENTRY_OVERFLOW;
        overflow', paths', owner' := overflow, paths, owner;
        TreeExtendsSelf(overflow);
      }
    }

    static lemma {:induction false} TreeExtendsSelf(a: seq<Node>)
      ensures TreeExtends(a, a)
    {
    }

    // --- Coding symbols ---

    method EncodeSymbol(sym: nat, bs: BackBitsWriter)
      requires Valid() && bs.Valid() && sym < |freqs|
      modifies this, bs
      ensures Valid() && bs.Valid()
      ensures Value() == Observe(old(Value()), sym)
      ensures bs.Content() == old(bs.Content()) + CodeBits(old(lens), sym)
    {
      var len, code := lens[sym], codes[sym];
      CodeFits(lens, sym);
      if len > 0 {
        bs.WriteBits(code, len);
      }
      Tally(sym);
    }

    method Tally(sym: nat)
      requires Valid() && sym < |freqs|
      modifies this
      ensures Valid() && Value() == Observe(old(Value()), sym)
    {
      hide CodeLens, KraftSum, TablesFor, CodesOf, Dilute, Observe, Complete;
      ObserveCases(Value(), sym);
      freqs := freqs[sym := freqs[sym] + 1];
      countdown := countdown - 1;
      if countdown == 0 {
        RebuildAndDilute();
      }
    }

    static lemma {:induction false} ObserveCases(c: Code, sym: nat)
      requires ValidCode(c) && sym < |c.freqs|
      ensures var freqs := c.freqs[sym := c.freqs[sym] + 1];
              if c.countdown == 1 then
                && ValidFreqs(freqs) && Subscribed(CodeLens(freqs))
                && Observe(c, sym) == Code(c.rebuildFreq, Dilute(freqs), c.rebuildFreq, CodeLens(freqs))
              else
                Observe(c, sym) == Code(c.rebuildFreq, freqs, c.countdown - 1, c.lens)
      ensures ValidCode(Observe(c, sym))
    {
      hide CodeLens, Subscribed, Complete;
      if c.countdown == 1 {
        RebuiltLens(c.freqs[sym := c.freqs[sym] + 1]);
      }
    }

    /** The new code is built from the full counts; only then are they halved. */
    method RebuildAndDilute()
      requires ValidFreqs(freqs) && Subscribed(CodeLens(freqs))
      modifies this
      ensures freqs == Dilute(old(freqs)) && countdown == rebuildFreq
      ensures lens == CodeLens(old(freqs)) && codes == CodesOf(lens)
      ensures TablesFor(lens, direct, overflow, paths, owner)
    {
      Rebuild();
      freqs := Dilute(freqs);
      countdown := rebuildFreq;
    }

    method DecodeSymbol(bs: BackBitsReader) returns (r: Option<nat>)
      requires Valid() && bs.Valid()
      modifies this, bs
      ensures Valid() && bs.Valid()
      ensures match PrefixDecode(old(Value()), old(bs.Rest()))
              case BadCode => r == None && Value() == old(Value())
              case DecodedSymbol(sym, code, rest) => r == Some(sym) && Value() == code && bs.Rest() == rest
    {
      hide FindSymbol, Observe, TablesFor, CodesOf, Complete, KraftSum, Skip, BitStrings.Peek, CodeLens,
           BackBitsReader.Valid, BackBitsReader.Rest;
      var cell := LookupSymbol(lens, direct, overflow, paths, owner, bs);
      if cell == 0 {
        return None;
      }
      Tally(cell / 16);
      r := Some(cell / 16);
    }

    /** The table cell of the next symbol, whose code is consumed; 0 if no code matches. */
    static method LookupSymbol(ghost lens: seq<nat>, direct: seq<nat>, overflow: seq<Node>,
                               ghost paths: seq<seq<Bit>>, ghost owner: seq<nat>, bs: BackBitsReader)
      returns (cell: nat)
      requires Subscribed(lens) && TablesFor(lens, direct, overflow, paths, owner) && bs.Valid()
      modifies bs
      ensures bs.Valid()
      ensures match FindSymbol(lens, BitStrings.Peek(old(bs.Rest()), MAX_CODEWORD_LEN))
              case None => cell == 0
              case Some(s) => cell != 0 && s == cell / 16 && bs.Rest() == Skip(old(bs.Rest()), lens[s])
    {
      ghost var rest := bs.Rest();
      ghost var w := BitStrings.Peek(rest, MAX_CODEWORD_LEN);
      LookupCases(lens, direct, overflow, paths, owner, w);
      cell := ReadEntry(direct, overflow, bs, w);
    }

    /** One table access, and single bits down the overflow tree if the code is longer. */
    static method ReadEntry(direct: seq<nat>, overflow: seq<Node>, bs: BackBitsReader, ghost w: seq<Bit>)
      returns (cell: nat)
      requires bs.Valid() && w == BitStrings.Peek(bs.Rest(), MAX_CODEWORD_LEN)
      requires |direct| == TABLE_SIZE && FromBits(w[..TABLE_BITS]) < TABLE_SIZE
      requires var first := direct[FromBits(w[..TABLE_BITS])];
               first >= ENTRY_OVERFLOW ==>
                 var start := first - ENTRY_OVERFLOW; var u := w[TABLE_BITS..];
                 && WalkEnds(overflow, start, u)
                 && (Walk(overflow, start, u) != 0 ==>
                       Walk(overflow, start, u) % 16 == TABLE_BITS + WalkLength(overflow, start, u))
      modifies bs
      ensures bs.Valid() && cell == Lookup(direct, overflow, w)
      ensures cell != 0 ==> bs.Rest() == Skip(old(bs.Rest()), cell % 16)
    {
      ghost var rest := bs.Rest();
      hide Walk, WalkEnds, WalkLength, FromBits, Skip, BackBitsReader.Valid, BackBitsReader.Rest, Lookup,
           BitStrings.Peek;
      LookupFirst(direct, overflow, w);
      cell := ReadFirst(direct, bs, w);
      if cell >= ENTRY_OVERFLOW {
        cell := ReadLong(overflow, bs, cell - ENTRY_OVERFLOW, w);
      } else if cell != 0 {
        bs.Consume(cell % 16);
      }
    }

    /** The cell of the next 10 bits; enough bits for the longest code are buffered. */
    static method ReadFirst(direct: seq<nat>, bs: BackBitsReader, ghost w: seq<Bit>) returns (cell: nat)
      requires bs.Valid() && w == BitStrings.Peek(bs.Rest(), MAX_CODEWORD_LEN)
      requires |direct| == TABLE_SIZE && FromBits(w[..TABLE_BITS]) < TABLE_SIZE
      modifies bs
      ensures bs.Valid() && bs.Rest() == old(bs.Rest()) && bs.Ready(MAX_CODEWORD_LEN)
      ensures cell == direct[FromBits(w[..TABLE_BITS])]
    {
      hide FromBits, BackBitsReader.Valid, BackBitsReader.Rest;
      FirstBits(bs.Rest(), w);
      bs.Ensure(MAX_CODEWORD_LEN);
      var peek := bs.Peek(TABLE_BITS);
      cell := direct[peek];
    }

    static lemma {:induction false} FirstBits(rest: seq<Bit>, w: seq<Bit>)
      requires w == BitStrings.Peek(rest, MAX_CODEWORD_LEN)
      ensures w[..TABLE_BITS] == BitStrings.Peek(rest, TABLE_BITS)
    {
    }

    static lemma {:induction false} LookupFirst(direct: seq<nat>, overflow: seq<Node>, w: seq<Bit>)
      requires |direct| == TABLE_SIZE && |w| >= TABLE_BITS && FromBits(w[..TABLE_BITS]) < TABLE_SIZE
      ensures var cell := direct[FromBits(w[..TABLE_BITS])];
              Lookup(direct, overflow, w)
              == if cell >= ENTRY_OVERFLOW then Walk(overflow, cell - ENTRY_OVERFLOW, w[TABLE_BITS..]) else cell
    {
    }

    static method ReadLong(overflow: seq<Node>, bs: BackBitsReader, start: nat, ghost w: seq<Bit>)
      returns (cell: nat)
      requires bs.Valid() && w == BitStrings.Peek(bs.Rest(), MAX_CODEWORD_LEN) && bs.Ready(TABLE_BITS)
      requires WalkEnds(overflow, start, w[TABLE_BITS..])
      modifies bs
      ensures bs.Valid() && cell == Walk(overflow, start, w[TABLE_BITS..])
      ensures bs.Rest() == Skip(old(bs.Rest()), TABLE_BITS + WalkLength(overflow, start, w[TABLE_BITS..]))
    {
      hide Walk, WalkEnds, WalkLength, FromBits, BackBitsReader.Valid, BackBitsReader.Rest;
      ghost var rest, u := bs.Rest(), w[TABLE_BITS..];
      PeekSplit(rest, TABLE_BITS, MAX_CODEWORD_LEN - TABLE_BITS);
      bs.Consume(TABLE_BITS);
      PeekSplit(rest, TABLE_BITS, WalkLength(overflow, start, u));
      cell := WalkOverflow(overflow, bs, start, u);
    }

    static method WalkOverflow(overflow: seq<Node>, bs: BackBitsReader, start: nat, ghost u: seq<Bit>)
      returns (cell: nat)
      requires bs.Valid() && u == BitStrings.Peek(bs.Rest(), |u|) && WalkEnds(overflow, start, u)
      modifies bs
      ensures bs.Valid() && cell == Walk(overflow, start, u)
      ensures bs.Rest() == Skip(old(bs.Rest()), WalkLength(overflow, start, u))
    {
      var idx: nat := start;
      ghost var left, d := u, 0;
      ghost var rest := bs.Rest();
      while true
        invariant bs.Valid() && WalkEnds(overflow, idx, left) && bs.Rest() == Skip(rest, d)
        invariant left == BitStrings.Peek(bs.Rest(), |left|)
        invariant Walk(overflow, start, u) == Walk(overflow, idx, left)
        invariant WalkLength(overflow, start, u) == d + WalkLength(overflow, idx, left)
        decreases |left|
      {
        cell := NextCell(overflow, bs, idx, rest, d, left);
        if cell < ENTRY_OVERFLOW {
          return;
        }
        idx := cell - ENTRY_OVERFLOW;
        left, d := left[1..], d + 1;
      }
    }

    static method NextCell(overflow: seq<Node>, bs: BackBitsReader, idx: nat, ghost rest: seq<Bit>,
                           ghost d: nat, ghost left: seq<Bit>)
      returns (cell: nat)
      requires bs.Valid() && bs.Rest() == Skip(rest, d) && left == BitStrings.Peek(bs.Rest(), |left|)
      requires idx < |overflow| && left != []
      modifies bs
      ensures bs.Valid() && cell == Child(overflow[idx], left[0]) && bs.Rest() == Skip(rest, d + 1)
      ensures left[1..] == BitStrings.Peek(bs.Rest(), |left| - 1)
    {
      NextBit(bs.Rest(), left);
      PeekSplit(rest, d, 1);
      var bit := bs.ReadBits(1);
      cell := Child(overflow[idx], bit);
    }

    static lemma {:induction false} NextBit(rest: seq<Bit>, w: seq<Bit>)
      requires w != [] && w == BitStrings.Peek(rest, |w|)
      ensures FromBits(BitStrings.Peek(rest, 1)) == w[0]
      ensures w[1..] == BitStrings.Peek(Skip(rest, 1), |w| - 1)
    {
      var b := BitStrings.Peek(rest, 1);
      assert b == [w[0]] && b[..0] == [];
      PeekSplit(rest, 1, |w| - 1);
    }
  }
}
