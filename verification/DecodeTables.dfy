/** The decoder's 10-bit table with an overflow tree for longer codes, and why looking a window up in
    it is prefix decoding. Table cells are 16-bit words: 0 is empty, `sym * 16 + len` a symbol, and
    0x8000 + i the i-th node of the overflow tree. */
module DecodeTables {
  import opened Powers
  import opened BitStrings
  import opened CanonicalCode

  const TABLE_BITS := 10
  const TABLE_SIZE := 1024
  const ENTRY_OVERFLOW := 0x8000

  type Node = (nat, nat)

  function Child(n: Node, bit: Bit): nat {
    if bit == 0 then n.0 else n.1
  }

  function SetChild(n: Node, bit: Bit, cell: nat): Node {
    if bit == 0 then (cell, n.1) else (n.0, cell)
  }

  /** Follow bits through the overflow tree until a cell that is not a node; 0 if the bits run out. */
  function Walk(overflow: seq<Node>, node: nat, w: seq<Bit>): nat
    decreases |w|
  {
    if node >= |overflow| || w == [] then 0
    else
      var cell := Child(overflow[node], w[0]);
      if cell >= ENTRY_OVERFLOW then Walk(overflow, cell - ENTRY_OVERFLOW, w[1..]) else cell
  }

  /** The walk ends at a cell that is not a node before the bits run out. */
  predicate WalkEnds(overflow: seq<Node>, node: nat, w: seq<Bit>)
    decreases |w|
  {
    && node < |overflow| && w != []
    && var cell := Child(overflow[node], w[0]);
       cell >= ENTRY_OVERFLOW ==> WalkEnds(overflow, cell - ENTRY_OVERFLOW, w[1..])
  }

  /** How many bits the walk reads. */
  function WalkLength(overflow: seq<Node>, node: nat, w: seq<Bit>): (n: nat)
    requires WalkEnds(overflow, node, w)
    ensures 1 <= n <= |w|
    decreases |w|
  {
    var cell := Child(overflow[node], w[0]);
    if cell >= ENTRY_OVERFLOW then 1 + WalkLength(overflow, cell - ENTRY_OVERFLOW, w[1..]) else 1
  }

  lemma {:induction false} IndexFits(w: seq<Bit>)
    requires |w| == TABLE_BITS
    ensures FromBits(w) < TABLE_SIZE
  {
    FromBitsBound(w);
    PowerTable();
  }

  function Lookup(direct: seq<nat>, overflow: seq<Node>, w: seq<Bit>): nat
    requires |direct| == TABLE_SIZE && |w| >= TABLE_BITS
  {
    IndexFits(w[..TABLE_BITS]);
    var cell := direct[FromBits(w[..TABLE_BITS])];
    if cell >= ENTRY_OVERFLOW then Walk(overflow, cell - ENTRY_OVERFLOW, w[TABLE_BITS..]) else cell
  }

  function Entry(lens: seq<nat>, s: nat): nat
    requires s < |lens|
  {
    s * 16 + lens[s]
  }

  // --- The invariant of table building ---

  /** A symbol cell of the direct table or of the tree, for one of the first `k` symbols. */
  predicate SymbolCell(lens: seq<nat>, k: nat, cell: nat)
    requires k <= |lens|
  {
    var s := cell / 16;
    s < k && 0 < lens[s] <= MAX_CODEWORD_LEN && cell == Entry(lens, s) && cell < ENTRY_OVERFLOW
  }

  predicate NodeCell(paths: seq<seq<Bit>>, cell: nat, path: seq<Bit>) {
    cell >= ENTRY_OVERFLOW && cell - ENTRY_OVERFLOW < |paths| && paths[cell - ENTRY_OVERFLOW] == path
  }

  /** Every filled cell means what its position says: a node cell leads to the node of that path, a
      symbol cell in the tree has exactly that path as its code, and one in the direct table has a
      code that starts the index. `paths` and `owner` give each node its bits and a symbol below. */
  ghost predicate DirectSound(lens: seq<nat>, k: nat, direct: seq<nat>, paths: seq<seq<Bit>>)
    requires k <= |lens|
  {
    && |direct| == TABLE_SIZE
    && forall v :: 0 <= v < TABLE_SIZE && direct[v] != 0 ==>
         || NodeCell(paths, direct[v], ToBits(v, TABLE_BITS))
         || (SymbolCell(lens, k, direct[v]) && CodeBits(lens, direct[v] / 16) <= ToBits(v, TABLE_BITS))
  }

  ghost predicate TreeCellSound(lens: seq<nat>, k: nat, paths: seq<seq<Bit>>, n: nat, bit: Bit, cell: nat)
    requires k <= |lens| && n < |paths|
  {
    cell != 0 ==>
      || (NodeCell(paths, cell, paths[n] + [bit]) && cell - ENTRY_OVERFLOW > n)
      || (SymbolCell(lens, k, cell) && CodeBits(lens, cell / 16) == paths[n] + [bit])
  }

  ghost predicate TreeSound(lens: seq<nat>, k: nat, overflow: seq<Node>, paths: seq<seq<Bit>>)
    requires k <= |lens|
  {
    && |overflow| == |paths|
    && forall n :: 0 <= n < |overflow| ==>
         && TreeCellSound(lens, k, paths, n, 0, overflow[n].0)
         && TreeCellSound(lens, k, paths, n, 1, overflow[n].1)
  }

  /** Every node lies inside the code of one of the first `k` symbols. */
  ghost predicate Owned(lens: seq<nat>, k: nat, paths: seq<seq<Bit>>, owner: seq<nat>)
    requires k <= |lens|
  {
    && |owner| == |paths|
    && forall n :: 0 <= n < |paths| ==>
         && owner[n] < k && TABLE_BITS <= |paths[n]| < lens[owner[n]]
         && paths[n] <= CodeBits(lens, owner[n])
  }

  ghost predicate Sound(lens: seq<nat>, k: nat, direct: seq<nat>, overflow: seq<Node>,
                        paths: seq<seq<Bit>>, owner: seq<nat>)
    requires k <= |lens|
  {
    && DirectSound(lens, k, direct, paths)
    && TreeSound(lens, k, overflow, paths)
    && Owned(lens, k, paths, owner)
    && |overflow| <= 5 * k
  }

  /** The code of symbol `s` finds its entry, whatever bits follow it. */
  ghost predicate Found(lens: seq<nat>, s: nat, direct: seq<nat>, overflow: seq<Node>)
    requires s < |lens| && |direct| == TABLE_SIZE
  {
    forall w: seq<Bit> :: |w| == MAX_CODEWORD_LEN && CodeBits(lens, s) <= w ==>
      Lookup(direct, overflow, w) == Entry(lens, s)
  }

  ghost predicate AllFound(lens: seq<nat>, k: nat, direct: seq<nat>, overflow: seq<Node>)
    requires k <= |lens| && |direct| == TABLE_SIZE
  {
    forall s :: 0 <= s < k && lens[s] > 0 ==> Found(lens, s, direct, overflow)
  }

  // --- Filled cells are never overwritten ---

  predicate CellKept(cell: nat, cell': nat) {
    cell != 0 ==> cell' == cell
  }

  predicate TreeExtends(a: seq<Node>, b: seq<Node>) {
    |a| <= |b| && forall n :: 0 <= n < |a| ==> CellKept(a[n].0, b[n].0) && CellKept(a[n].1, b[n].1)
  }

  predicate DirectExtends(a: seq<nat>, b: seq<nat>) {
    |a| == |b| && forall v :: 0 <= v < |a| ==> CellKept(a[v], b[v])
  }

  lemma {:induction false} WalkExtends(a: seq<Node>, b: seq<Node>, node: nat, w: seq<Bit>)
    requires TreeExtends(a, b) && Walk(a, node, w) != 0
    ensures Walk(b, node, w) == Walk(a, node, w)
    decreases |w|
  {
    var cell := Child(a[node], w[0]);
    if cell >= ENTRY_OVERFLOW {
      WalkExtends(a, b, cell - ENTRY_OVERFLOW, w[1..]);
    }
  }

  lemma {:induction false} FoundExtends(lens: seq<nat>, s: nat, direct: seq<nat>, overflow: seq<Node>,
                                        direct': seq<nat>, overflow': seq<Node>)
    requires s < |lens| && lens[s] > 0 && |direct| == TABLE_SIZE && Found(lens, s, direct, overflow)
    requires DirectExtends(direct, direct') && TreeExtends(overflow, overflow')
    ensures Found(lens, s, direct', overflow')
  {
    forall w: seq<Bit> | |w| == MAX_CODEWORD_LEN && CodeBits(lens, s) <= w
      ensures Lookup(direct', overflow', w) == Entry(lens, s)
    {
      assert Lookup(direct, overflow, w) == Entry(lens, s) > 0;
      IndexFits(w[..TABLE_BITS]);
      var cell := direct[FromBits(w[..TABLE_BITS])];
      if cell >= ENTRY_OVERFLOW {
        WalkExtends(overflow, overflow', cell - ENTRY_OVERFLOW, w[TABLE_BITS..]);
      }
    }
  }

  /** The node reached from `node` along `w`, if every step is a node cell. */
  function Reach(overflow: seq<Node>, node: nat, w: seq<Bit>): (r: Option<nat>)
    ensures r.Some? ==> r.value < |overflow|
    decreases |w|
  {
    if node >= |overflow| then None
    else if w == [] then Some(node)
    else
      var cell := Child(overflow[node], w[0]);
      if cell >= ENTRY_OVERFLOW then Reach(overflow, cell - ENTRY_OVERFLOW, w[1..]) else None
  }

  lemma {:induction false} ReachExtends(a: seq<Node>, b: seq<Node>, node: nat, w: seq<Bit>)
    requires TreeExtends(a, b) && Reach(a, node, w).Some?
    ensures Reach(b, node, w) == Reach(a, node, w)
    decreases |w|
  {
    if w != [] {
      ReachExtends(a, b, Child(a[node], w[0]) - ENTRY_OVERFLOW, w[1..]);
    }
  }

  lemma {:induction false} ReachStep(overflow: seq<Node>, root: nat, w: seq<Bit>, bit: Bit)
    requires Reach(overflow, root, w).Some?
    requires var cell := Child(overflow[Reach(overflow, root, w).value], bit);
             cell >= ENTRY_OVERFLOW && cell - ENTRY_OVERFLOW < |overflow|
    ensures Reach(overflow, root, w + [bit])
         == Some(Child(overflow[Reach(overflow, root, w).value], bit) - ENTRY_OVERFLOW)
    decreases |w|
  {
    if w == [] {
      assert (w + [bit])[1..] == [];
    } else {
      assert (w + [bit])[1..] == w[1..] + [bit];
      ReachStep(overflow, Child(overflow[root], w[0]) - ENTRY_OVERFLOW, w[1..], bit);
    }
  }

  lemma {:induction false} WalkFromReach(overflow: seq<Node>, root: nat, w: seq<Bit>, u: seq<Bit>)
    requires Reach(overflow, root, w).Some?
    ensures Walk(overflow, root, w + u) == Walk(overflow, Reach(overflow, root, w).value, u)
    decreases |w|
  {
    if w == [] {
      assert w + u == u;
    } else {
      assert (w + u)[1..] == w[1..] + u;
      WalkFromReach(overflow, Child(overflow[root], w[0]) - ENTRY_OVERFLOW, w[1..], u);
    }
  }

  // --- Looking a window up is prefix decoding ---

  lemma {:induction false} WalkSound(lens: seq<nat>, overflow: seq<Node>, paths: seq<seq<Bit>>,
                                     node: nat, w: seq<Bit>)
    requires TreeSound(lens, |lens|, overflow, paths) && node < |paths|
    ensures var cell := Walk(overflow, node, w);
            cell != 0 ==> SymbolCell(lens, |lens|, cell) && CodeBits(lens, cell / 16) <= paths[node] + w
    decreases |w|
  {
    if w != [] {
      var cell := Child(overflow[node], w[0]);
      assert TreeCellSound(lens, |lens|, paths, node, w[0], cell);
      assert paths[node] + w == paths[node] + [w[0]] + w[1..];
      if NodeCell(paths, cell, paths[node] + [w[0]]) {
        WalkSound(lens, overflow, paths, cell - ENTRY_OVERFLOW, w[1..]);
      }
    }
  }

  lemma {:induction false} LookupSound(lens: seq<nat>, direct: seq<nat>, overflow: seq<Node>,
                                       paths: seq<seq<Bit>>, w: seq<Bit>)
    requires DirectSound(lens, |lens|, direct, paths) && TreeSound(lens, |lens|, overflow, paths)
    requires |w| == MAX_CODEWORD_LEN && Lookup(direct, overflow, w) != 0
    ensures var cell := Lookup(direct, overflow, w);
            SymbolCell(lens, |lens|, cell) && Decodes(lens, w, cell / 16)
  {
    var index, tail := w[..TABLE_BITS], w[TABLE_BITS..];
    var v := FromBits(index);
    IndexFits(index);
    ToFromBits(index);
    var cell := direct[v];
    assert w == index + tail;
    if cell >= ENTRY_OVERFLOW {
      assert NodeCell(paths, cell, index);
      WalkSound(lens, overflow, paths, cell - ENTRY_OVERFLOW, tail);
    } else {
      assert SymbolCell(lens, |lens|, cell) && CodeBits(lens, cell / 16) <= index;
    }
  }

  /** Finished tables: the lookup gives the entry of the symbol that prefix decoding finds, and an
      empty cell exactly when no code starts the window. */
  lemma {:induction false} LookupIsPrefixDecoding(lens: seq<nat>, direct: seq<nat>, overflow: seq<Node>,
                                                  paths: seq<seq<Bit>>, w: seq<Bit>)
    requires Subscribed(lens) && |w| == MAX_CODEWORD_LEN
    requires DirectSound(lens, |lens|, direct, paths) && TreeSound(lens, |lens|, overflow, paths)
    requires AllFound(lens, |lens|, direct, overflow)
    ensures match FindSymbol(lens, w)
            case Some(s) => Lookup(direct, overflow, w) == Entry(lens, s)
            case None => Lookup(direct, overflow, w) == 0
  {
    match FindSymbol(lens, w)
    case Some(s) =>
      assert Found(lens, s, direct, overflow);
    case None =>
      if Lookup(direct, overflow, w) != 0 {
        LookupSound(lens, direct, overflow, paths, w);
      }
  }

  // --- Steps of the construction ---

  lemma {:induction false} DirectSoundMore(lens: seq<nat>, k: nat, direct: seq<nat>,
                                           paths: seq<seq<Bit>>, more: seq<seq<Bit>>)
    requires k < |lens| && DirectSound(lens, k, direct, paths)
    ensures DirectSound(lens, k + 1, direct, paths + more)
  {
    forall v | 0 <= v < TABLE_SIZE && direct[v] != 0
      ensures NodeCell(paths + more, direct[v], ToBits(v, TABLE_BITS))
           || (SymbolCell(lens, k + 1, direct[v]) && CodeBits(lens, direct[v] / 16) <= ToBits(v, TABLE_BITS))
    {
      if NodeCell(paths, direct[v], ToBits(v, TABLE_BITS)) {
        assert NodeCell(paths + more, direct[v], ToBits(v, TABLE_BITS));
      }
    }
  }

  lemma {:induction false} TreeCellMore(lens: seq<nat>, k: nat, paths: seq<seq<Bit>>, more: seq<seq<Bit>>,
                                        n: nat, bit: Bit, cell: nat)
    requires k <= |lens| && n < |paths| && TreeCellSound(lens, k, paths, n, bit, cell)
    ensures TreeCellSound(lens, k, paths + more, n, bit, cell)
  {
    assert (paths + more)[n] == paths[n];
    if NodeCell(paths, cell, paths[n] + [bit]) {
      assert NodeCell(paths + more, cell, paths[n] + [bit]);
    }
  }

  lemma {:induction false} SoundNext(lens: seq<nat>, k: nat, direct: seq<nat>, overflow: seq<Node>,
                                     paths: seq<seq<Bit>>, owner: seq<nat>)
    requires k < |lens| && Sound(lens, k, direct, overflow, paths, owner)
    ensures Sound(lens, k + 1, direct, overflow, paths, owner)
  {
    assert paths + [] == paths;
    DirectSoundMore(lens, k, direct, paths, []);
    forall n | 0 <= n < |overflow|
      ensures TreeCellSound(lens, k + 1, paths, n, 0, overflow[n].0)
      ensures TreeCellSound(lens, k + 1, paths, n, 1, overflow[n].1)
    {
    }
  }

  /** A short code owns `2^(10 - len)` consecutive cells: those whose index it starts. */
  lemma {:induction false} ShortCells(lens: seq<nat>, k: nat)
    requires Subscribed(lens) && k < |lens| && 0 < lens[k] <= TABLE_BITS
    ensures Shl(CodeOf(lens, k), TABLE_BITS - lens[k]) + Pow2(TABLE_BITS - lens[k]) <= TABLE_SIZE
  {
    CodeFits(lens, k);
    ShlFits(CodeOf(lens, k), lens[k], TABLE_BITS - lens[k]);
    PowerTable();
  }

  lemma {:induction false} ShortCellBits(lens: seq<nat>, k: nat, v: nat)
    requires Subscribed(lens) && k < |lens| && 0 < lens[k] <= TABLE_BITS
    requires Shl(CodeOf(lens, k), TABLE_BITS - lens[k]) <= v
    requires v < Shl(CodeOf(lens, k), TABLE_BITS - lens[k]) + Pow2(TABLE_BITS - lens[k])
    ensures CodeBits(lens, k) <= ToBits(v, TABLE_BITS)
  {
    var sh := TABLE_BITS - lens[k];
    ToBitsJoin(CodeOf(lens, k), lens[k], v - Shl(CodeOf(lens, k), sh), sh);
  }

  lemma {:induction false} ShortWindow(lens: seq<nat>, k: nat, w: seq<Bit>)
    requires Subscribed(lens) && k < |lens| && 0 < lens[k] <= TABLE_BITS
    requires |w| == MAX_CODEWORD_LEN && CodeBits(lens, k) <= w
    ensures var base := Shl(CodeOf(lens, k), TABLE_BITS - lens[k]);
            base <= FromBits(w[..TABLE_BITS]) < base + Pow2(TABLE_BITS - lens[k])
  {
    var tail := w[lens[k]..TABLE_BITS];
    assert w[..TABLE_BITS] == CodeBits(lens, k) + tail;
    CodeFits(lens, k);
    FromBitsConcat(CodeBits(lens, k), tail);
    FromBitsBound(tail);
  }

  /** The cells of a short code are still empty, by prefix-freeness. */
  lemma {:induction false} ShortCellFree(lens: seq<nat>, k: nat, direct: seq<nat>, overflow: seq<Node>,
                                         paths: seq<seq<Bit>>, owner: seq<nat>, v: nat)
    requires Subscribed(lens) && k < |lens| && lens[k] > 0
    requires Sound(lens, k, direct, overflow, paths, owner)
    requires v < TABLE_SIZE && CodeBits(lens, k) <= ToBits(v, TABLE_BITS)
    ensures direct[v] == 0
  {
    var bits := ToBits(v, TABLE_BITS);
    if direct[v] != 0 {
      if NodeCell(paths, direct[v], bits) {
        var n := direct[v] - ENTRY_OVERFLOW;
        assert CodeBits(lens, k) <= CodeBits(lens, owner[n]);
        PrefixFree(lens, k, owner[n]);
      } else {
        NoTwoPrefixes(lens, direct[v] / 16, k, bits);
      }
    }
  }

  lemma {:induction false} NoTwoPrefixes(lens: seq<nat>, s: nat, t: nat, w: seq<Bit>)
    requires Subscribed(lens) && s < |lens| && t < |lens| && s != t && lens[s] > 0 && lens[t] > 0
    ensures !(CodeBits(lens, s) <= w && CodeBits(lens, t) <= w)
  {
    var a, b := CodeBits(lens, s), CodeBits(lens, t);
    assert a <= w && b <= w ==> a <= b || b <= a;
    PrefixFree(lens, s, t);
    PrefixFree(lens, t, s);
  }

  /** Filling the cells of the short code of symbol `k`. */
  lemma {:induction false} ShortInserted(lens: seq<nat>, k: nat, direct: seq<nat>, direct': seq<nat>,
                                         overflow: seq<Node>, paths: seq<seq<Bit>>, owner: seq<nat>)
    requires Subscribed(lens) && k < |lens| <= 2000 && 0 < lens[k] <= TABLE_BITS
    requires Sound(lens, k, direct, overflow, paths, owner) && |direct'| == TABLE_SIZE
    requires var base := Shl(CodeOf(lens, k), TABLE_BITS - lens[k]);
             forall v :: 0 <= v < TABLE_SIZE ==>
               direct'[v] == if base <= v < base + Pow2(TABLE_BITS - lens[k]) then Entry(lens, k) else direct[v]
    ensures Sound(lens, k + 1, direct', overflow, paths, owner)
    ensures DirectExtends(direct, direct') && Found(lens, k, direct', overflow)
  {
    hide TreeSound, Owned, Found, CodeOf, Subscribed, ToBits, Pow2, Shl;
    SoundNext(lens, k, direct, overflow, paths, owner);
    var base := Shl(CodeOf(lens, k), TABLE_BITS - lens[k]);
    var fill := Pow2(TABLE_BITS - lens[k]);
    forall v | base <= v < base + fill && v < TABLE_SIZE
      ensures direct[v] == 0 && CodeBits(lens, k) <= ToBits(v, TABLE_BITS)
    {
      ShortCellBits(lens, k, v);
      ShortCellFree(lens, k, direct, overflow, paths, owner, v);
    }
    assert SymbolCell(lens, k + 1, Entry(lens, k)) && Entry(lens, k) / 16 == k by { EntryCell(lens, k); }
    ShortFound(lens, k, direct', overflow);
  }

  lemma {:induction false} EntryCell(lens: seq<nat>, k: nat)
    requires k < |lens| <= 2000 && 0 < lens[k] <= MAX_CODEWORD_LEN
    ensures SymbolCell(lens, k + 1, Entry(lens, k)) && Entry(lens, k) / 16 == k
  {
  }

  lemma {:induction false} ShortFound(lens: seq<nat>, k: nat, direct: seq<nat>, overflow: seq<Node>)
    requires Subscribed(lens) && k < |lens| <= 2000 && 0 < lens[k] <= TABLE_BITS && |direct| == TABLE_SIZE
    requires var base := Shl(CodeOf(lens, k), TABLE_BITS - lens[k]);
             forall v :: base <= v < base + Pow2(TABLE_BITS - lens[k]) && v < TABLE_SIZE ==>
               direct[v] == Entry(lens, k)
    ensures Found(lens, k, direct, overflow)
  {
    forall w: seq<Bit> | |w| == MAX_CODEWORD_LEN && CodeBits(lens, k) <= w
      ensures Lookup(direct, overflow, w) == Entry(lens, k)
    {
      ShortWindow(lens, k, w);
      IndexFits(w[..TABLE_BITS]);
    }
  }

  /** The direct cell of a long code is empty or already a node. */
  lemma {:induction false} LongRootCell(lens: seq<nat>, k: nat, direct: seq<nat>, overflow: seq<Node>,
                                        paths: seq<seq<Bit>>, owner: seq<nat>, v: nat)
    requires Subscribed(lens) && k < |lens| && lens[k] > TABLE_BITS
    requires Sound(lens, k, direct, overflow, paths, owner)
    requires v < TABLE_SIZE && ToBits(v, TABLE_BITS) <= CodeBits(lens, k)
    ensures direct[v] != 0 ==> NodeCell(paths, direct[v], ToBits(v, TABLE_BITS))
  {
    if direct[v] != 0 && !NodeCell(paths, direct[v], ToBits(v, TABLE_BITS)) {
      PrefixFree(lens, direct[v] / 16, k);
    }
  }

  /** A tree cell on the way to the code of `k` is empty or a node. */
  lemma {:induction false} LongInnerCell(lens: seq<nat>, k: nat, overflow: seq<Node>,
                                         paths: seq<seq<Bit>>, node: nat, j: nat)
    requires Subscribed(lens) && k < |lens| && TreeSound(lens, k + 1, overflow, paths)
    requires TABLE_BITS <= j && j + 1 < lens[k] && node < |paths| && paths[node] == CodeBits(lens, k)[..j]
    ensures var bit := CodeBits(lens, k)[j]; var cell := Child(overflow[node], bit);
            cell != 0 ==> NodeCell(paths, cell, CodeBits(lens, k)[..j + 1])
  {
    var code := CodeBits(lens, k);
    var bit := code[j];
    var cell := Child(overflow[node], bit);
    assert code[..j] + [bit] == code[..j + 1];
    assert TreeCellSound(lens, k + 1, paths, node, bit, cell);
    if cell != 0 && !NodeCell(paths, cell, code[..j + 1]) {
      assert CodeBits(lens, cell / 16) == code[..j + 1];
      PrefixFree(lens, cell / 16, k);
    }
  }

  /** The cell at the end of the code of `k` holds nothing but possibly the entry of `k` itself. */
  lemma {:induction false} LongLastCell(lens: seq<nat>, k: nat, overflow: seq<Node>, paths: seq<seq<Bit>>,
                                        owner: seq<nat>, node: nat)
    requires Subscribed(lens) && k < |lens| && TreeSound(lens, k + 1, overflow, paths)
    requires Owned(lens, k + 1, paths, owner)
    requires lens[k] > TABLE_BITS && node < |paths| && paths[node] == CodeBits(lens, k)[..lens[k] - 1]
    ensures CellKept(Child(overflow[node], CodeBits(lens, k)[lens[k] - 1]), Entry(lens, k))
  {
    var code := CodeBits(lens, k);
    var bit := code[lens[k] - 1];
    var cell := Child(overflow[node], bit);
    assert paths[node] + [bit] == code;
    assert TreeCellSound(lens, k + 1, paths, node, bit, cell);
    if cell != 0 {
      if NodeCell(paths, cell, code) {
        var n := cell - ENTRY_OVERFLOW;
        assert |code| < lens[owner[n]];
        PrefixFree(lens, k, owner[n]);
      } else if cell / 16 != k {
        PrefixFree(lens, cell / 16, k);
      }
    }
  }

  lemma {:induction false} AddRoot(lens: seq<nat>, k: nat, direct: seq<nat>, overflow: seq<Node>,
                                   paths: seq<seq<Bit>>, owner: seq<nat>, v: nat)
    requires k < |lens| && lens[k] > TABLE_BITS && v < TABLE_SIZE
    requires Sound(lens, k, direct, overflow, paths, owner)
    requires ToBits(v, TABLE_BITS) <= CodeBits(lens, k)
    ensures var paths' := paths + [ToBits(v, TABLE_BITS)];
            && DirectSound(lens, k + 1, direct[v := ENTRY_OVERFLOW + |overflow|], paths')
            && TreeSound(lens, k + 1, overflow + [(0, 0)], paths')
            && Owned(lens, k + 1, paths', owner + [k])
  {
    SoundNext(lens, k, direct, overflow, paths, owner);
    var p := ToBits(v, TABLE_BITS);
    DirectSoundMore(lens, k, direct, paths, [p]);
    assert NodeCell(paths + [p], ENTRY_OVERFLOW + |overflow|, p);
    TreeAppend(lens, k + 1, overflow, paths, p);
  }

  lemma {:induction false} TreeAppend(lens: seq<nat>, k: nat, overflow: seq<Node>, paths: seq<seq<Bit>>, p: seq<Bit>)
    requires k <= |lens| && TreeSound(lens, k, overflow, paths)
    ensures TreeSound(lens, k, overflow + [(0, 0)], paths + [p])
  {
    forall n | 0 <= n < |overflow|
      ensures TreeCellSound(lens, k, paths + [p], n, 0, overflow[n].0)
      ensures TreeCellSound(lens, k, paths + [p], n, 1, overflow[n].1)
    {
      TreeCellMore(lens, k, paths, [p], n, 0, overflow[n].0);
      TreeCellMore(lens, k, paths, [p], n, 1, overflow[n].1);
    }
  }

  lemma {:induction false} SetCell(lens: seq<nat>, k: nat, overflow: seq<Node>, paths: seq<seq<Bit>>,
                                   node: nat, bit: Bit, cell: nat)
    requires k <= |lens| && TreeSound(lens, k, overflow, paths) && node < |overflow|
    requires TreeCellSound(lens, k, paths, node, bit, cell)
    requires CellKept(Child(overflow[node], bit), cell)
    ensures var overflow' := overflow[node := SetChild(overflow[node], bit, cell)];
            TreeSound(lens, k, overflow', paths) && TreeExtends(overflow, overflow')
  {
    var overflow' := overflow[node := SetChild(overflow[node], bit, cell)];
    forall n | 0 <= n < |overflow|
      ensures TreeCellSound(lens, k, paths, n, 0, overflow'[n].0)
      ensures TreeCellSound(lens, k, paths, n, 1, overflow'[n].1)
      ensures CellKept(overflow[n].0, overflow'[n].0) && CellKept(overflow[n].1, overflow'[n].1)
    {
    }
  }

  /** A new node below `node` on the way to the code of `k`. */
  lemma {:induction false} AddNode(lens: seq<nat>, k: nat, overflow: seq<Node>, paths: seq<seq<Bit>>,
                                   owner: seq<nat>, node: nat, j: nat)
    requires k < |lens| && TreeSound(lens, k + 1, overflow, paths) && Owned(lens, k + 1, paths, owner)
    requires TABLE_BITS <= j && j + 1 < lens[k] && node < |paths| && paths[node] == CodeBits(lens, k)[..j]
    requires Child(overflow[node], CodeBits(lens, k)[j]) == 0
    ensures var bit := CodeBits(lens, k)[j];
            var grown := overflow + [(0, 0)];
            var overflow' := grown[node := SetChild(grown[node], bit, ENTRY_OVERFLOW + |overflow|)];
            var paths' := paths + [CodeBits(lens, k)[..j + 1]];
            && TreeSound(lens, k + 1, overflow', paths') && TreeExtends(overflow, overflow')
            && Owned(lens, k + 1, paths', owner + [k])
  {
    var code := CodeBits(lens, k);
    var p := code[..j + 1];
    var grown := overflow + [(0, 0)];
    TreeAppend(lens, k + 1, overflow, paths, p);
    assert code[..j] + [code[j]] == p;
    assert NodeCell(paths + [p], ENTRY_OVERFLOW + |overflow|, p);
    SetCell(lens, k + 1, grown, paths + [p], node, code[j], ENTRY_OVERFLOW + |overflow|);
  }

  lemma {:induction false} LongFound(lens: seq<nat>, k: nat, direct: seq<nat>, overflow: seq<Node>,
                                     v: nat, root: nat, node: nat)
    requires Subscribed(lens) && k < |lens| <= 2000 && lens[k] > TABLE_BITS && |direct| == TABLE_SIZE
    requires v < TABLE_SIZE && ToBits(v, TABLE_BITS) == CodeBits(lens, k)[..TABLE_BITS]
    requires direct[v] == ENTRY_OVERFLOW + root
    requires Reach(overflow, root, CodeBits(lens, k)[TABLE_BITS..lens[k] - 1]) == Some(node)
    requires Child(overflow[node], CodeBits(lens, k)[lens[k] - 1]) == Entry(lens, k)
    ensures Found(lens, k, direct, overflow)
  {
    hide Subscribed, CodeBits, ToBits, Reach, FromBits, Pow2;
    var code := CodeBits(lens, k);
    var l := lens[k] - 1;
    PowerTable();
    FromToBits(v, TABLE_BITS);
    forall w: seq<Bit> | |w| == MAX_CODEWORD_LEN && code <= w
      ensures Lookup(direct, overflow, w) == Entry(lens, k)
    {
      assert w[..TABLE_BITS] == code[..TABLE_BITS];
      assert w[TABLE_BITS..] == code[TABLE_BITS..l] + w[l..];
      WalkFromReach(overflow, root, code[TABLE_BITS..l], w[l..]);
      assert w[l..][0] == code[l];
    }
  }

  /** All that the finished tables for `lens` satisfy. */
  ghost predicate TablesFor(lens: seq<nat>, direct: seq<nat>, overflow: seq<Node>,
                            paths: seq<seq<Bit>>, owner: seq<nat>)
  {
    Sound(lens, |lens|, direct, overflow, paths, owner) && AllFound(lens, |lens|, direct, overflow)
  }

  /** The walk from a node at depth `d` ends within 15 bits, at a code of the depth it reaches. */
  lemma {:induction false} WalkInside(lens: seq<nat>, overflow: seq<Node>, paths: seq<seq<Bit>>,
                                      owner: seq<nat>, idx: nat, u: seq<Bit>)
    requires TreeSound(lens, |lens|, overflow, paths) && Owned(lens, |lens|, paths, owner) && ValidLens(lens)
    requires idx < |paths| && |paths[idx]| + |u| == MAX_CODEWORD_LEN
    ensures WalkEnds(overflow, idx, u)
    ensures var cell := Walk(overflow, idx, u);
            cell != 0 ==>
              SymbolCell(lens, |lens|, cell) && lens[cell / 16] == |paths[idx]| + WalkLength(overflow, idx, u)
    decreases |u|
  {
    var cell := Child(overflow[idx], u[0]);
    assert TreeCellSound(lens, |lens|, paths, idx, u[0], cell);
    if cell >= ENTRY_OVERFLOW {
      WalkInside(lens, overflow, paths, owner, cell - ENTRY_OVERFLOW, u[1..]);
    }
  }

  /** What the first lookup tells: a symbol, nothing, or where in the tree to go on. */
  lemma {:induction false} LookupCases(lens: seq<nat>, direct: seq<nat>, overflow: seq<Node>,
                                       paths: seq<seq<Bit>>, owner: seq<nat>, w: seq<Bit>)
    requires Subscribed(lens) && TablesFor(lens, direct, overflow, paths, owner) && |w| == MAX_CODEWORD_LEN
    ensures FromBits(w[..TABLE_BITS]) < |direct| == TABLE_SIZE
    ensures var cell := direct[FromBits(w[..TABLE_BITS])]; var found := Lookup(direct, overflow, w);
            if cell < ENTRY_OVERFLOW then found == cell
            else
              var start := cell - ENTRY_OVERFLOW; var u := w[TABLE_BITS..];
              && WalkEnds(overflow, start, u) && found == Walk(overflow, start, u)
              && (found != 0 ==> found % 16 == TABLE_BITS + WalkLength(overflow, start, u))
    ensures var found := Lookup(direct, overflow, w);
            match FindSymbol(lens, w)
            case Some(s) => found != 0 && s == found / 16 && lens[s] == found % 16
            case None => found == 0
  {
    hide Sound, AllFound, DirectSound, TreeSound, Owned, Subscribed, FindSymbol, Walk, WalkEnds, WalkLength, FromBits,
         Lookup;
    FinishedParts(lens, direct, overflow, paths, owner);
    LookupIsPrefixDecoding(lens, direct, overflow, paths, w);
    FoundEntry(lens, w);
    LookupCell(lens, direct, overflow, paths, owner, w);
  }

  lemma {:induction false} FinishedParts(lens: seq<nat>, direct: seq<nat>, overflow: seq<Node>,
                                         paths: seq<seq<Bit>>, owner: seq<nat>)
    requires TablesFor(lens, direct, overflow, paths, owner)
    ensures DirectSound(lens, |lens|, direct, paths) && TreeSound(lens, |lens|, overflow, paths)
    ensures Owned(lens, |lens|, paths, owner) && |direct| == TABLE_SIZE && AllFound(lens, |lens|, direct, overflow)
  {
  }

  lemma {:induction false} FoundEntry(lens: seq<nat>, w: seq<Bit>)
    requires Subscribed(lens) && |w| == MAX_CODEWORD_LEN
    ensures match FindSymbol(lens, w)
            case Some(s) => var e := Entry(lens, s); e != 0 && s == e / 16 && lens[s] == e % 16
            case None => true
  {
  }

  /** The cell of the direct table, and the walk it leads to. */
  lemma {:induction false} LookupCell(lens: seq<nat>, direct: seq<nat>, overflow: seq<Node>,
                                      paths: seq<seq<Bit>>, owner: seq<nat>, w: seq<Bit>)
    requires Subscribed(lens) && |w| == MAX_CODEWORD_LEN
    requires DirectSound(lens, |lens|, direct, paths) && TreeSound(lens, |lens|, overflow, paths)
    requires Owned(lens, |lens|, paths, owner)
    ensures FromBits(w[..TABLE_BITS]) < |direct| == TABLE_SIZE
    ensures var cell := direct[FromBits(w[..TABLE_BITS])]; var found := Lookup(direct, overflow, w);
            if cell < ENTRY_OVERFLOW then found == cell
            else
              var start := cell - ENTRY_OVERFLOW; var u := w[TABLE_BITS..];
              && WalkEnds(overflow, start, u) && found == Walk(overflow, start, u)
              && (found != 0 ==> found % 16 == TABLE_BITS + WalkLength(overflow, start, u))
  {
    hide TreeSound, Walk, WalkEnds, WalkLength, FromBits;
    var index := w[..TABLE_BITS];
    IndexFits(index);
    ToFromBits(index);
    var cell := direct[FromBits(index)];
    if cell >= ENTRY_OVERFLOW {
      assert NodeCell(paths, cell, index);
      WalkInside(lens, overflow, paths, owner, cell - ENTRY_OVERFLOW, w[TABLE_BITS..]);
    }
  }

  /** `FindRoot` and each step down, on values. */
  lemma {:induction false} StepToNewNode(lens: seq<nat>, k: nat, direct: seq<nat>, overflow: seq<Node>,
                                         paths: seq<seq<Bit>>, owner: seq<nat>, root: nat, node: nat, j: nat)
    requires k < |lens| && TABLE_BITS <= j && j + 1 < lens[k]
    requires DirectSound(lens, k + 1, direct, paths)
    requires TreeSound(lens, k + 1, overflow, paths) && Owned(lens, k + 1, paths, owner)
    requires node < |overflow| && paths[node] == CodeBits(lens, k)[..j]
    requires Reach(overflow, root, CodeBits(lens, k)[TABLE_BITS..j]) == Some(node)
    requires Child(overflow[node], CodeBits(lens, k)[j]) == 0
    ensures var bit := CodeBits(lens, k)[j];
            var grown := overflow + [(0, 0)];
            var overflow' := grown[node := SetChild(grown[node], bit, ENTRY_OVERFLOW + |overflow|)];
            var paths' := paths + [CodeBits(lens, k)[..j + 1]];
            && DirectSound(lens, k + 1, direct, paths')
            && TreeSound(lens, k + 1, overflow', paths') && TreeExtends(overflow, overflow')
            && Owned(lens, k + 1, paths', owner + [k])
            && Reach(overflow', root, CodeBits(lens, k)[TABLE_BITS..j + 1]) == Some(|overflow|)
  {
    hide DirectSound, TreeSound, Owned, Reach, CodeOf;
    var code := CodeBits(lens, k);
    var grown := overflow + [(0, 0)];
    var overflow' := grown[node := SetChild(grown[node], code[j], ENTRY_OVERFLOW + |overflow|)];
    assert |overflow| == |paths| by { SameSize(lens, k + 1, overflow, paths); }
    AddNode(lens, k, overflow, paths, owner, node, j);
    DirectSoundKeeps(lens, k + 1, direct, paths, code[..j + 1]);
    ReachExtends(overflow, overflow', root, code[TABLE_BITS..j]);
    ReachStep(overflow', root, code[TABLE_BITS..j], code[j]);
    assert code[TABLE_BITS..j + 1] == code[TABLE_BITS..j] + [code[j]];
  }

  lemma {:induction false} SameSize(lens: seq<nat>, k: nat, overflow: seq<Node>, paths: seq<seq<Bit>>)
    requires k <= |lens| && TreeSound(lens, k, overflow, paths)
    ensures |overflow| == |paths|
  {
  }

  lemma {:induction false} StepToNode(lens: seq<nat>, k: nat, overflow: seq<Node>,
                                      paths: seq<seq<Bit>>, root: nat, node: nat, j: nat)
    requires Subscribed(lens) && k < |lens| && TABLE_BITS <= j && j + 1 < lens[k]
    requires TreeSound(lens, k + 1, overflow, paths)
    requires node < |overflow| && paths[node] == CodeBits(lens, k)[..j]
    requires Reach(overflow, root, CodeBits(lens, k)[TABLE_BITS..j]) == Some(node)
    requires Child(overflow[node], CodeBits(lens, k)[j]) != 0
    ensures var cell := Child(overflow[node], CodeBits(lens, k)[j]);
            && NodeCell(paths, cell, CodeBits(lens, k)[..j + 1])
            && Reach(overflow, root, CodeBits(lens, k)[TABLE_BITS..j + 1]) == Some(cell - ENTRY_OVERFLOW)
  {
    var code := CodeBits(lens, k);
    LongInnerCell(lens, k, overflow, paths, node, j);
    ReachStep(overflow, root, code[TABLE_BITS..j], code[j]);
    assert code[TABLE_BITS..j + 1] == code[TABLE_BITS..j] + [code[j]];
  }

  lemma {:induction false} DirectSoundKeeps(lens: seq<nat>, k: nat, direct: seq<nat>,
                                            paths: seq<seq<Bit>>, p: seq<Bit>)
    requires k <= |lens| && DirectSound(lens, k, direct, paths)
    ensures DirectSound(lens, k, direct, paths + [p])
  {
    forall v | 0 <= v < TABLE_SIZE && direct[v] != 0
      ensures NodeCell(paths + [p], direct[v], ToBits(v, TABLE_BITS))
           || (SymbolCell(lens, k, direct[v]) && CodeBits(lens, direct[v] / 16) <= ToBits(v, TABLE_BITS))
    {
      if NodeCell(paths, direct[v], ToBits(v, TABLE_BITS)) {
        assert NodeCell(paths + [p], direct[v], ToBits(v, TABLE_BITS));
      }
    }
  }

  /** Writing the entry of `k` at the end of its path completes the insertion. */
  lemma {:induction false} LongInserted(lens: seq<nat>, k: nat, direct: seq<nat>, overflow: seq<Node>,
                                        paths: seq<seq<Bit>>, owner: seq<nat>, v: nat, root: nat, node: nat)
    requires Subscribed(lens) && k < |lens| <= 2000 && lens[k] > TABLE_BITS
    requires DirectSound(lens, k + 1, direct, paths)
    requires TreeSound(lens, k + 1, overflow, paths) && Owned(lens, k + 1, paths, owner)
    requires |overflow| <= 5 * (k + 1)
    requires v < TABLE_SIZE && ToBits(v, TABLE_BITS) == CodeBits(lens, k)[..TABLE_BITS]
    requires direct[v] == ENTRY_OVERFLOW + root
    requires node < |overflow| && paths[node] == CodeBits(lens, k)[..lens[k] - 1]
    requires Reach(overflow, root, CodeBits(lens, k)[TABLE_BITS..lens[k] - 1]) == Some(node)
    ensures var overflow' := overflow[node := SetChild(overflow[node], CodeBits(lens, k)[lens[k] - 1], Entry(lens, k))];
            && Sound(lens, k + 1, direct, overflow', paths, owner)
            && TreeExtends(overflow, overflow') && Found(lens, k, direct, overflow')
  {
    hide TreeSound, Owned, Reach, Found, TreeExtends, CodeOf, ToBits, KraftSum, SymbolCell, NodeCell;
    var code, l := CodeBits(lens, k), lens[k] - 1;
    var cell := Entry(lens, k);
    SameSize(lens, k + 1, overflow, paths);
    EntryCell(lens, k);
    LongLastCell(lens, k, overflow, paths, owner, node);
    assert code[..l] + [code[l]] == code;
    assert TreeCellSound(lens, k + 1, paths, node, code[l], cell);
    SetCell(lens, k + 1, overflow, paths, node, code[l], cell);
    var overflow' := overflow[node := SetChild(overflow[node], code[l], cell)];
    ReachExtends(overflow, overflow', root, code[TABLE_BITS..l]);
    LongFound(lens, k, direct, overflow', v, root, node);
  }

  lemma {:induction false} AllFoundNext(lens: seq<nat>, k: nat, direct: seq<nat>, overflow: seq<Node>,
                                        direct': seq<nat>, overflow': seq<Node>)
    requires k < |lens| && |direct| == TABLE_SIZE && AllFound(lens, k, direct, overflow)
    requires DirectExtends(direct, direct') && TreeExtends(overflow, overflow')
    requires Found(lens, k, direct', overflow')
    ensures AllFound(lens, k + 1, direct', overflow')
  {
    forall s | 0 <= s < k && lens[s] > 0 ensures Found(lens, s, direct', overflow') {
      FoundExtends(lens, s, direct, overflow, direct', overflow');
    }
  }

  // --- The running next_code counters ---

  predicate NextCodes(lens: seq<nat>, k: nat, next: seq<nat>)
    requires k <= |lens|
  {
    |next| == 16 && forall l :: 1 <= l <= 15 ==> next[l] == FirstCode(lens, l) + Count(lens[..k], l)
  }

  lemma {:induction false} NextCodesStep(lens: seq<nat>, k: nat, next: seq<nat>)
    requires ValidLens(lens) && k < |lens| && NextCodes(lens, k, next)
    ensures lens[k] == 0 ==> NextCodes(lens, k + 1, next)
    ensures lens[k] > 0 ==>
              next[lens[k]] == CodeOf(lens, k) && NextCodes(lens, k + 1, next[lens[k] := next[lens[k]] + 1])
  {
    assert lens[..k + 1][..k] == lens[..k];
  }
}
