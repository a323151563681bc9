/** A parse reads no further than what it consumes: whatever parses on a longer input parses on any part of it that
    holds all the bits consumed. With the lemmas on extensions, a block can be decoded exactly when the last of its
    bits is there.
 */
module Prefixes {
  import opened Sequences
  import opened Bits
  import opened Permutations
  import opened Crc
  import opened BitReading
  import opened Canonical
  import opened HuffmanTables
  import opened MoveToFront
  import opened BlockFormat

  lemma ReadBitsWithin(s: seq<bit>, t: seq<bit>, n: nat)
    requires n <= |s|
    ensures ReadBits(s, n) == ReadBits(s + t, n)
  {
    assert (s + t)[..n] == s[..n];
  }

  // ----- the header -----

  lemma {:induction false} ParseFlagsWithin(s: seq<bit>, groups: seq<bit>, t: seq<bit>)
    requires var r := ParseFlags(s + t, groups); r.Done? && r.used <= |s|
    ensures ParseFlags(s, groups) == ParseFlags(s + t, groups)
    decreases |groups|
  {
    if groups != [] {
      if groups[0] == 0 {
        ParseFlagsWithin(s, groups[1..], t);
      } else {
        DropAppend(s, t, 16);
        ParseFlagsWithin(s[16..], groups[1..], t);
      }
    }
  }

  lemma ParseInUseWithin(s: seq<bit>, t: seq<bit>)
    requires var r := ParseInUse(s + t); r.Done? && r.used <= |s|
    ensures ParseInUse(s) == ParseInUse(s + t)
  {
    DropAppend(s, t, 16);
    ParseFlagsWithin(s[16..], s[..16], t);
  }

  lemma {:induction false} ParseUnaryWithin(s: seq<bit>, j: nat, n: nat, t: seq<bit>)
    requires var r := ParseUnary(s + t, j, n); r.Done? && r.used <= |s|
    ensures ParseUnary(s, j, n) == ParseUnary(s + t, j, n)
    decreases |s|
  {
    if (s + t)[0] == 1 && j + 1 < n {
      DropAppend(s, t, 1);
      ParseUnaryWithin(s[1..], j + 1, n, t);
    }
  }

  lemma {:induction false} ParseSelectorsWithin(s: seq<bit>, count: nat, pos: seq<nat>, t: seq<bit>)
    requires pos != []
    requires var r := ParseSelectors(s + t, count, pos); r.Done? && r.used <= |s|
    ensures ParseSelectors(s, count, pos) == ParseSelectors(s + t, count, pos)
    decreases count
  {
    hide ToFront, ParseUnary;
    if count > 0 {
      ParseUnaryWithin(s, 0, |pos|, t);
      var j, u := ParseUnary(s, 0, |pos|).value, ParseUnary(s, 0, |pos|).used;
      DropAppend(s, t, u);
      ParseSelectorsWithin(s[u..], count - 1, ToFront(pos, j), t);
    }
  }

  lemma {:induction false} ParseLengthWithin(s: seq<bit>, curr: int, t: seq<bit>)
    requires var r := ParseLength(s + t, curr); r.Done? && r.used <= |s|
    ensures ParseLength(s, curr) == ParseLength(s + t, curr)
    decreases |s|
  {
    if (s + t)[0] == 1 {
      DropAppend(s, t, 2);
      ParseLengthWithin(s[2..], if s[1] == 0 then curr + 1 else curr - 1, t);
    }
  }

  lemma {:induction false} ParseLengthsWithin(s: seq<bit>, n: nat, curr: int, t: seq<bit>)
    requires var r := ParseLengths(s + t, n, curr); r.Done? && r.used <= |s|
    ensures ParseLengths(s, n, curr) == ParseLengths(s + t, n, curr)
    decreases n
  {
    hide ParseLength;
    if n > 0 {
      ParseLengthWithin(s, curr, t);
      var l, u := ParseLength(s, curr).value, ParseLength(s, curr).used;
      DropAppend(s, t, u);
      ParseLengthsWithin(s[u..], n - 1, l, t);
    }
  }

  lemma ParseTableWithin(s: seq<bit>, n: nat, t: seq<bit>)
    requires var r := ParseTable(s + t, n); r.Done? && r.used <= |s|
    ensures ParseTable(s, n) == ParseTable(s + t, n)
  {
    hide ReadBits, ParseLengths;
    ReadBitsWithin(s, t, 5);
    DropAppend(s, t, 5);
    ParseLengthsWithin(s[5..], n, ReadBits(s, 5).value, t);
  }

  lemma {:induction false} ParseTablesWithin(s: seq<bit>, count: nat, n: nat, t: seq<bit>)
    requires var r := ParseTables(s + t, count, n); r.Done? && r.used <= |s|
    ensures ParseTables(s, count, n) == ParseTables(s + t, count, n)
    decreases count
  {
    hide ParseTable;
    if count > 0 {
      ParseTableWithin(s, n, t);
      var u := ParseTable(s, n).used;
      DropAppend(s, t, u);
      ParseTablesWithin(s[u..], count - 1, n, t);
    }
  }

  lemma ParseListsWithin(s: seq<bit>, crc: word, origPtr: nat, inUse: seq<byte>, nGroups: nat, nSelectors: nat,
                         t: seq<bit>)
    requires nGroups > 0 && 0 < |inUse| <= 256
    requires var r := ParseLists(s + t, crc, origPtr, inUse, nGroups, nSelectors); r.Done? && r.used <= |s|
    ensures ParseLists(s, crc, origPtr, inUse, nGroups, nSelectors)
      == ParseLists(s + t, crc, origPtr, inUse, nGroups, nSelectors)
  {
    hide ParseSelectors, ParseTables, TableLengths;
    ParseSelectorsWithin(s, nSelectors, Identity(nGroups), t);
    var u := ParseSelectors(s, nSelectors, Identity(nGroups)).used;
    DropAppend(s, t, u);
    ParseTablesWithin(s[u..], nGroups, |inUse| + 2, t);
  }

  lemma ParseCountsWithin(s: seq<bit>, crc: word, origPtr: nat, inUse: seq<byte>, t: seq<bit>)
    requires 0 < |inUse| <= 256
    requires var r := ParseCounts(s + t, crc, origPtr, inUse); r.Done? && r.used <= |s|
    ensures ParseCounts(s, crc, origPtr, inUse) == ParseCounts(s + t, crc, origPtr, inUse)
  {
    hide ReadBits, ParseLists, SoundHeader;
    ReadBitsWithin(s, t, 3);
    DropAppend(s, t, 3);
    ReadBitsWithin(s[3..], t, 15);
    DropAppend(s[3..], t, 15);
    ParseListsWithin(s[3..][15..], crc, origPtr, inUse, ReadBits(s, 3).value, ReadBits(s[3..], 15).value, t);
  }

  lemma ParseMapWithin(s: seq<bit>, crc: word, origPtr: nat, t: seq<bit>)
    requires var r := ParseMap(s + t, crc, origPtr); r.Done? && r.used <= |s|
    ensures ParseMap(s, crc, origPtr) == ParseMap(s + t, crc, origPtr)
  {
    hide ParseInUse, ParseCounts, SoundHeader;
    ParseInUseWithin(s, t);
    var inUse, u := ParseInUse(s).value, ParseInUse(s).used;
    DropAppend(s, t, u);
    ParseCountsWithin(s[u..], crc, origPtr, inUse, t);
  }

  lemma ParsePointerWithin(s: seq<bit>, crc: word, t: seq<bit>)
    requires var r := ParsePointer(s + t, crc); r.Done? && r.used <= |s|
    ensures ParsePointer(s, crc) == ParsePointer(s + t, crc)
  {
    hide ReadBits, ParseMap, SoundHeader;
    ReadBitsWithin(s, t, 1);
    DropAppend(s, t, 1);
    ReadBitsWithin(s[1..], t, 24);
    DropAppend(s[1..], t, 24);
    ParseMapWithin(s[1..][24..], crc, ReadBits(s[1..], 24).value, t);
  }

  lemma ParseHeaderWithin(s: seq<bit>, t: seq<bit>)
    requires var r := ParseHeader(s + t); r.Done? && r.used <= |s|
    ensures ParseHeader(s) == ParseHeader(s + t)
  {
    hide ReadBits, ParsePointer, SoundHeader;
    ReadBitsWithin(s, t, 32);
    DropAppend(s, t, 32);
    var n := 32;
    Pow2Words(n);
    ParsePointerWithin(s[32..], ReadBits(s, 32).value, t);
  }

  // ----- the symbols -----

  lemma {:induction false} WalkWithin(lens: seq<nat>, max: nat, s: seq<bit>, t: seq<bit>, l: nat)
    requires l >= 1 && Lead(s, l - 1) >= EndCode(lens, l - 1) && Lead(s + t, l - 1) >= EndCode(lens, l - 1)
    requires var r := Walk(lens, max, s + t, l); r.Found? && r.len <= |s|
    ensures Walk(lens, max, s, l) == Walk(lens, max, s + t, l)
    decreases max + 1 - l
  {
    hide Lead, EndCode, SymbolsOf;
    if l <= |s| { LeadOfExtension(s, t, l); }
    if l <= max && Lead(s + t, l) >= EndCode(lens, l) {
      WalkWithin(lens, max, s, t, l + 1);
    }
  }

  lemma DecodeSymbolWithin(lens: seq<nat>, s: seq<bit>, t: seq<bit>)
    requires var r := DecodeSymbol(lens, s + t); r.Done? && r.used <= |s|
    ensures DecodeSymbol(lens, s) == DecodeSymbol(lens, s + t)
  {
    WalkOrigin(lens, s);
    WalkOrigin(lens, s + t);
    WalkWithin(lens, MaxLen(lens), s, t, 1);
  }

  lemma {:induction false} ParseSymbolsWithin(s: seq<bit>, h: Header, k: nat, p: Progress, size: nat, t: seq<bit>)
    requires SoundHeader(h) && |p.list| == 256
    requires var r := ParseSymbols(s + t, h, k, p, size); r.Done? && r.used <= |s|
    ensures ParseSymbols(s, h, k, p, size) == ParseSymbols(s + t, h, k, p, size)
    decreases |s|
  {
    hide DecodeSymbol, ToFront, Repeat, Pow2;
    var lens := TableFor(h, k);
    DecodeSymbolWithin(lens, s, t);
    var sym, u := DecodeSymbol(lens, s).value, DecodeSymbol(lens, s).used;
    DropAppend(s, t, u);
    match Symbol(p, sym, |h.inUse|, size)
    case Stop(_) =>
    case More(q) => ParseSymbolsWithin(s[u..], h, k + 1, q, size, t);
  }

  lemma ParseBlockWithin(s: seq<bit>, size: nat, t: seq<bit>)
    requires var r := ParseBlock(s + t, size); r.Done? && r.used <= |s|
    ensures ParseBlock(s, size) == ParseBlock(s + t, size)
  {
    hide ParseHeader, ParseSymbols, SoundHeader;
    ParseHeaderWithin(s, t);
    var h, u := ParseHeader(s).value, ParseHeader(s).used;
    DropAppend(s, t, u);
    ParseSymbolsWithin(s[u..], h, 0, Fresh(h), size, t);
  }

  /** On part of the input a block is there exactly when all the bits it takes on the whole input are, and it is the
      same block. */
  lemma BlockIsThere(s: seq<bit>, size: nat, t: seq<bit>)
    ensures ParseBlock(s, size).Done? <==> ParseBlock(s + t, size).Done? && ParseBlock(s + t, size).used <= |s|
    ensures ParseBlock(s, size).Done? ==> ParseBlock(s, size) == ParseBlock(s + t, size)
  {
    hide ParseHeader, ParseSymbols, ParseBlock;
    if ParseBlock(s, size).Done? { ParseBlockExtends(s, size, t); }
    if ParseBlock(s + t, size).Done? && ParseBlock(s + t, size).used <= |s| { ParseBlockWithin(s, size, t); }
  }
}
