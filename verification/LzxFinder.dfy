/** The match search of the patch encoder: every match it returns is verified byte by byte and carries an offset
    that the decoder resolves to the same distance. */
module LzxFinder {
  import opened RangeCoding
  import opened Rift
  import opened CanonicalCode
  import opened MatchCoding
  import opened MatchCodec
  import opened CopyWindow
  import opened OffsetTable
  import opened LzxParse

  const EMPTY := 0xFFFF_FFFF
  const HASH_SIZE := 0x1_0000
  const MAX_MATCH := 0x400_0000
  const MAX_CHAIN := 128
  const LONG_MATCH := 2048

  /** Positions and plain offsets fit in 32 bits. */
  const MAX_COMBINED := 0xFFFF_FFFF - RAW_BASE

  function Hash3(data: seq<Byte>, pos: nat): (h: nat)
    ensures h < HASH_SIZE
  {
    if pos + 2 >= |data| then 0
    else (data[pos] + 0x100 * data[pos + 1] + 0x1_0000 * data[pos + 2]) * 0x9E37_79B1 / 0x1_0000 % HASH_SIZE
  }

  // --- Matches that the decoder can follow ---

  datatype Match = Match(length: nat, raw: nat, distance: nat)

  const NO_MATCH := Match(0, 0, 0)

  predicate SameBytes(data: seq<Byte>, pos: nat, distance: nat, n: nat) {
    && 1 <= distance <= pos && pos + n <= |data|
    && forall k :: pos <= k < pos + n ==> data[k] == data[k - distance]
  }

  /** The offset means this distance here. */
  predicate Resolves(t: Table, pos: nat, recent: Recent, raw: nat, distance: nat)
    requires |t| > 0 && t[0].source == 0 && pos < SPAN64 / 2
  {
    DistanceOf(t, pos, recent, raw) == distance && raw < 0x1_0000_0000
  }

  /** A match that can be written and that the decoder repeats: a mapped copy stays inside one segment of the map. */
  predicate Verified(t: Table, data: seq<Byte>, pos: nat, recent: Recent, m: Match)
    requires |t| > 0 && t[0].source == 0 && |data| < SPAN64 / 2
  {
    && 2 <= m.length < 0x1_0000_0000 && SameBytes(data, pos, m.distance, m.length)
    && Resolves(t, pos, recent, m.raw, m.distance) && FitsTable(m.raw)
    && (m.raw == SOURCE_COPY ==> pos + m.length <= NextBreak(t, pos))
  }

  lemma {:induction false} CopyGivesData(data: seq<Byte>, pos: nat, distance: nat, n: nat)
    requires SameBytes(data, pos, distance, n)
    ensures CopiedFrom(data[..pos], pos - distance, n) == data[..pos + n]
  {
    var v, r := data[..pos], data[..pos + n];
    CopiedUnique(v, pos - distance, n, r);
  }

  /** The decoder turns a verified match into the next bytes. */
  lemma {:induction false} VerifiedPlays(t: Table, data: seq<Byte>, s: Played, m: Match)
    requires |t| > 0 && t[0].source == 0 && |data| < SPAN64 / 2
    requires Verified(t, data, |s.cells|, s.recent, m) && BytesOf(s.cells) == data[..|s.cells|]
    ensures |s.cells| + m.length <= |data| && m.length > 0
    ensures var one := PlayOne(t, s, Copy(m.raw, m.length));
            && one.Some? && one.value.recent == Touch(s.recent, m.distance)
            && BytesOf(one.value.cells) == data[..|s.cells| + m.length]
  {
    hide CopiedFrom, FitsTable, Touch, Find, NextBreak, MappedDistance;
    var pos := |s.cells|;
    var src := pos - m.distance;
    assert SourceOf(pos, m.distance) == src;
    CopyGivesData(data, pos, m.distance, m.length);
    BytesOfCopy(s.cells, src, m.length);
    if m.raw == SOURCE_COPY {
      OnePiece(t, s.cells, m.length);
    }
  }

  // --- The class of an offset ---

  /** The signed difference from the mapped position, if it fits a field. */
  function SignedRaw(distance: nat, offset: I64): Option<nat> {
    var raw := Wrap(distance + OFFSET_BIAS + offset);
    if 0 <= raw < SOURCE_COPY then Some(raw) else None
  }

  lemma {:induction false} SignedResolves(t: Table, pos: nat, recent: Recent, distance: nat)
    requires |t| > 0 && t[0].source == 0 && pos < SPAN64 / 2 && distance < SPAN64 / 2
    ensures var raw := SignedRaw(distance, OffsetAt(t, pos));
            raw.Some? ==> raw.value < SOURCE_COPY && Resolves(t, pos, recent, raw.value, distance)
  {
    hide Find;
    var off := OffsetAt(t, pos);
    var raw := SignedRaw(distance, off);
    if raw.Some? {
      WrapUnique(raw.value - OFFSET_BIAS - off, distance);
    }
  }

  /** The cheapest way to write a distance: mapped, recent, signed difference, plain. */
  method ChooseRaw(t: Table, pos: nat, recent: Recent, cp: nat, refLen: nat) returns (raw: nat)
    requires |t| > 0 && t[0].source == 0 && cp < pos <= MAX_COMBINED
    ensures Resolves(t, pos, recent, raw, pos - cp)
  {
    hide Find, MappedDistance, SignedRaw;
    var distance := pos - cp;
    var signed := SignedRaw(distance, OffsetAt(t, pos));
    SignedResolves(t, pos, recent, distance);
    raw := if cp < refLen && distance == MappedDistance(t, pos) then SOURCE_COPY
           else if recent.first == distance then LRU_BASE
           else if recent.second == distance then LRU_BASE + 1
           else if recent.third == distance then LRU_BASE + 2
           else if signed.Some? then signed.value
           else distance + RAW_BASE;
  }

  /** The bits that the class of an offset costs beyond its main symbol. */
  method OffsetExtraBits(raw: nat) returns (bits: nat)
    requires raw < 0x1_0000_0000
  {
    if raw == SOURCE_COPY || LRU_BASE <= raw < LRU_BASE + 3 {
      return 0;
    }
    if raw < SOURCE_COPY {
      var d := raw - OFFSET_BIAS;
      return if -0x2000 <= d < 0x2000 then 14 else if -0xA000 <= d < 0xA000 then 16 else 18;
    }
    var info := ComputeSymbolInfo(raw);
    bits := info.extra + if info.aligned then 3 else 0;
  }

  // --- Hash chains over the reference and the target ---

  class Finder {
    const combined: seq<Byte>
    const refLen: nat
    const table: array<nat>
    const chain: array<nat>

    /** Every position in the chains lies below `limit`. */
    predicate Below(limit: nat)
      reads this, table, chain
    {
      && refLen <= |combined| <= MAX_COMBINED && table.Length == HASH_SIZE && chain.Length == |combined|
      && table != chain
      && (forall h :: 0 <= h < HASH_SIZE ==> table[h] == EMPTY || table[h] < limit)
      && (forall p :: 0 <= p < |combined| ==> chain[p] == EMPTY || chain[p] < limit)
    }

    constructor (reference: seq<Byte>, target: seq<Byte>)
      requires |reference| + |target| <= MAX_COMBINED
      ensures Below(|reference|) && combined == reference + target && refLen == |reference|
      ensures fresh(table) && fresh(chain)
    {
      combined, refLen := reference + target, |reference|;
      table := new nat[HASH_SIZE](_ => EMPTY);
      chain := new nat[|reference| + |target|](_ => EMPTY);
      new;
      var i := 0;
      while i + 2 < refLen
        invariant Below(i) && i <= refLen
      {
        Insert(i);
        i := i + 1;
      }
    }

    method Insert(pos: nat)
      requires Below(pos) && pos < |combined|
      modifies table, chain
      ensures Below(pos + 1)
    {
      var h := Hash3(combined, pos);
      chain[pos] := table[h];
      table[h] := pos;
    }

    method MatchLength(cp: nat, pos: nat) returns (n: nat)
      requires cp < pos <= |combined|
      ensures SameBytes(combined, pos, pos - cp, n) && n <= MAX_MATCH
    {
      n := 0;
      while pos + n < |combined| && combined[cp + n] == combined[pos + n]
        invariant SameBytes(combined, pos, pos - cp, n) && n < MAX_MATCH
        decreases |combined| - n
      {
        n := n + 1;
        if n >= MAX_MATCH {
          break;
        }
      }
    }

    /** The best candidate on the chain by a rough bit value, not yet cut at a breakpoint. */
    method Search(t: Table, pos: nat, recent: Recent) returns (m: Match)
      requires |t| > 0 && t[0].source == 0 && Below(pos) && pos + 2 < |combined|
      ensures m == NO_MATCH
              || (3 <= m.length <= MAX_MATCH && SameBytes(combined, pos, m.distance, m.length)
                  && Resolves(t, pos, recent, m.raw, m.distance))
    {
      hide Resolves, SameBytes, Hash3;
      m := NO_MATCH;
      var best: int := MIN64;
      var cp: nat := table[Hash3(combined, pos)];
      var depth := 0;
      while cp != EMPTY && depth < MAX_CHAIN
        invariant cp == EMPTY || cp < pos
        invariant m == NO_MATCH
                  || (3 <= m.length <= MAX_MATCH && SameBytes(combined, pos, m.distance, m.length)
                      && Resolves(t, pos, recent, m.raw, m.distance))
        decreases MAX_CHAIN - depth
      {
        var n := MatchLength(cp, pos);
        if n >= 3 {
          var raw := ChooseRaw(t, pos, recent, cp, refLen);
          ResolvedFits(t, pos, recent, raw, pos - cp);
          var cost := OffsetExtraBits(raw);
          var value: int := n * 8;
          value := value - cost;
          if value > best || (value == best && n > m.length) {
            best, m := value, Match(n, raw, pos - cp);
          }
        }
        if m.length >= LONG_MATCH {
          break;
        }
        cp := chain[cp];
        depth := depth + 1;
      }
    }

    /** No match, or one that the decoder repeats. A mapped copy ends at the next breakpoint. */
    method BestMatch(t: Table, pos: nat, recent: Recent) returns (m: Match)
      requires |t| > 0 && t[0].source == 0 && Below(pos) && refLen <= pos
      ensures m == NO_MATCH || Verified(t, combined, pos, recent, m)
    {
      hide Resolves, SameBytes, FitsTable;
      if pos + 2 >= |combined| {
        return NO_MATCH;
      }
      m := Search(t, pos, recent);
      if m.raw == SOURCE_COPY && m != NO_MATCH {
        var cap := NextBreak(t, pos) - pos;
        if cap > 0 && m.length > cap {
          SameFewer(combined, pos, m.distance, m.length, cap);
          m := m.(length := cap);
        }
      }
      if m.length < 2 || !FitsTable(m.raw) {
        return NO_MATCH;
      }
    }
  }

  lemma {:induction false} ResolvedFits(t: Table, pos: nat, recent: Recent, raw: nat, distance: nat)
    requires |t| > 0 && t[0].source == 0 && pos < SPAN64 / 2 && Resolves(t, pos, recent, raw, distance)
    ensures raw < 0x1_0000_0000
  {
  }

  lemma {:induction false} SameFewer(data: seq<Byte>, pos: nat, distance: nat, n: nat, k: nat)
    requires SameBytes(data, pos, distance, n) && k <= n
    ensures SameBytes(data, pos, distance, k)
  {
  }
}
