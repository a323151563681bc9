/** What malformed input is refused with, stated on the bits themselves: field by field, in the order in which the
    fields are read.
 */
module Refusals {
  import opened Sequences
  import opened Bits
  import opened Results
  import opened Crc
  import opened HuffmanTables
  import opened MoveToFront
  import opened BlockFormat
  import opened BlockWritten
  import opened StreamFormat

  // ----- stream headers -----

  predicate LevelDigit(b: byte) {
    0x31 <= b <= 0x39
  }

  /** Between streams: nothing is a clean end; otherwise four bytes of header have to be there, and be right. */
  lemma StreamHeader(input: seq<byte>, m: Machine)
    requires m.phase == StreamStart
    ensures DecodeAll(BytesToBits(input), m) ==
      if input == [] then Ok([])
      else if |input| < 4 then Err(Truncated)
      else if input[..3] != [0x42, 0x5A, 0x68] then Err(InvalidMagic)
      else if !LevelDigit(input[3]) then Err(InvalidLevel)
      else DecodeAll(BytesToBits(input[4..]), Machine(InBlock, (input[3] as int - 0x30) * 100_000, 0))
  {
    hide Value, BytesToBits, HeaderMove, BlockMove;
    HeaderBytes(input);
    if |input| >= 4 {
      assert input[..4][..3] == input[..3];
      BytesToBitsSlice(input, 4, |input|);
      var s := BytesToBits(input);
      assert s[32..8 * |input|] == s[32..] && input[4..|input|] == input[4..];
    }
  }

  /** What four header bytes come to. */
  function HeaderOf(b: seq<byte>): Move
    requires |b| == 4
  {
    if b[..3] != [0x42, 0x5A, 0x68] then Stuck(InvalidMagic)
    else if !LevelDigit(b[3]) then Stuck(InvalidLevel)
    else HeaderRead(32, (b[3] as int - 0x30) * 100_000)
  }

  lemma HeaderBytes(input: seq<byte>)
    ensures |BytesToBits(input)| == 8 * |input|
    ensures HeaderMove(BytesToBits(input)) ==
      if input == [] then InputEnded(0) else if |input| < 4 then Stuck(Truncated) else HeaderOf(input[..4])
  {
    hide Value, BytesToBits, HeaderOf;
    var s := BytesToBits(input);
    assert s[0..] == s;
    if |input| >= 4 {
      ByteAt(input, 0);
      ByteAt(input, 1);
      ByteAt(input, 2);
      ByteAt(input, 3);
      HeaderValues(s, input[..4]);
    }
  }

  lemma HeaderValues(t: seq<bit>, b: seq<byte>)
    requires |t| >= 32 && |b| == 4 && Value(t[0..][..8]) == b[0] && Value(t[8..][..8]) == b[1]
    requires Value(t[16..][..8]) == b[2] && Value(t[24..][..8]) == b[3]
    ensures HeaderAt(t, 0) == HeaderOf(b)
  {
    hide Value;
    assert t[0..] == t && b[..3] == [b[0], b[1], b[2]];
  }

  lemma ByteAt(input: seq<byte>, i: nat)
    requires i < |input|
    ensures 8 * i + 8 <= |BytesToBits(input)| && Value(BytesToBits(input)[8 * i..][..8]) == input[i]
  {
    hide Value, ToBits, BytesToBits;
    var s := BytesToBits(input);
    assert s[8 * i..][..8] == s[8 * i..8 * i + 8];
    BytesToBitsAt(input, i);
    ToBitsValue(input[i], 8);
    Pow2Small();
  }

  /** Inside a stream: only the two magic numbers are known. */
  lemma UnknownMagic(s: seq<bit>, m: Machine)
    requires m.phase == InBlock
    requires |s| < 48 || (Value(s[..48]) != BLOCK_MAGIC && Value(s[..48]) != EOS_MAGIC)
    ensures DecodeAll(s, m) == Err(if |s| < 48 then Truncated else InvalidMagic)
  {
    hide Value, ParseBlock;
  }

  // ----- the symbol map -----

  function SetCount(flags: seq<bit>): (n: nat)
    ensures n <= |flags|
  {
    if flags == [] then 0 else SetCount(flags[..|flags| - 1]) + flags[|flags| - 1]
  }

  lemma {:induction false} SetCountSplit(a: seq<bit>, b: seq<bit>)
    ensures SetCount(a + b) == SetCount(a) + SetCount(b)
  {
    if b == [] {
      assert a + b == a;
    } else {
      assert (a + b)[..|a + b| - 1] == a + b[..|b| - 1];
      SetCountSplit(a, b[..|b| - 1]);
    }
  }

  lemma {:induction false} SetCountPrefix(flags: seq<bit>, i: nat)
    requires i < |flags|
    ensures SetCount(flags[..i]) + flags[i] <= SetCount(flags)
  {
    assert flags[..i + 1][..i] == flags[..i] && flags == flags[..i + 1] + flags[i + 1..];
    SetCountSplit(flags[..i + 1], flags[i + 1..]);
  }

  /** Flag `r` of group `q`, wherever the sixteen flags of that group stand; none do when its own flag is not set. */
  predicate FlagAt(s: seq<bit>, groups: seq<bit>, q: nat, r: nat)
    requires q < |groups| && r < 16 && |s| >= 16 * SetCount(groups)
  {
    SetCountPrefix(groups, q);
    groups[q] == 1 && s[16 * SetCount(groups[..q]) + r] == 1
  }

  lemma {:induction false} FlagsAt(s: seq<bit>, groups: seq<bit>)
    ensures |s| < 16 * SetCount(groups) ==> ParseFlags(s, groups) == Fail(Truncated)
    ensures |s| >= 16 * SetCount(groups) ==>
      (ParseFlags(s, groups).Done? && ParseFlags(s, groups).used == 16 * SetCount(groups))
    decreases |groups|
  {
    if groups != [] {
      FirstFlag(groups);
      FlagsAt(if groups[0] == 1 && |s| >= 16 then s[16..] else s, groups[1..]);
    }
  }

  lemma FirstFlag(groups: seq<bit>)
    requires groups != []
    ensures SetCount(groups) == groups[0] + SetCount(groups[1..])
  {
    assert groups == groups[..1] + groups[1..];
    SetCountSplit(groups[..1], groups[1..]);
    assert groups[..1][..0] == [];
  }

  lemma NoFlags()
    ensures SetCount([]) == 0
  {
  }

  lemma {:induction false} FlagIs(s: seq<bit>, groups: seq<bit>, q: nat, r: nat)
    requires q < |groups| && r < 16 && |s| >= 16 * SetCount(groups) && ParseFlags(s, groups).Done?
    ensures ParseFlags(s, groups).value[16 * q + r] == 1 <==> FlagAt(s, groups, q, r)
    decreases |groups|
  {
    hide SetCount;
    FirstFlag(groups);
    NoFlags();
    var more := groups[1..];
    var rest := if groups[0] == 1 then s[16..] else s;
    if q > 0 {
      FlagIs(rest, more, q - 1, r);
      assert groups[..q][1..] == more[..q - 1];
      FirstFlag(groups[..q]);
      SetCountPrefix(groups, q);
    } else {
      assert groups[..q] == [];
    }
  }

  /** Where the map at the front of `s` ends. */
  function MapEnd(s: seq<bit>): nat
    requires |s| >= 16
  {
    16 + 16 * SetCount(s[..16])
  }

  /** Byte value `x` is in the map at the front of `s`. */
  predicate InMap(s: seq<bit>, x: byte)
    requires |s| >= 16 && |s| >= MapEnd(s)
  {
    FlagAt(s[16..], s[..16], x / 16, x % 16)
  }

  lemma MapIs(s: seq<bit>)
    requires |s| >= 16
    ensures |s| < MapEnd(s) ==> ParseInUse(s) == Fail(Truncated)
    ensures |s| >= MapEnd(s) ==> (ParseInUse(s).Done? && ParseInUse(s).used == MapEnd(s)
      && forall x: byte :: x in ParseInUse(s).value <==> InMap(s, x))
  {
    hide ParseFlags, FlagAt, SetCount, Listed;
    var a, groups := s[16..], s[..16];
    FlagsAt(a, groups);
    if |s| >= MapEnd(s) {
      var flags := ParseFlags(a, groups).value;
      ListedAscends(flags);
      forall x: byte ensures x in Listed(flags) <==> InMap(s, x) {
        var q, r := x / 16, x % 16;
        FlagIs(a, groups, q, r);
        assert x == 16 * q + r;
      }
    }
  }

  // ----- a block's header -----

  /** The counts of tables and selectors. */
  lemma CountFields(s: seq<bit>, crc: word, origPtr: nat, inUse: seq<byte>)
    requires 0 < |inUse| <= 256
    ensures var r := ParseCounts(s, crc, origPtr, inUse);
      if |s| < 3 then r == Fail(Truncated)
      else if !(2 <= Value(s[..3]) <= 6) then r == Fail(InvalidHuffman)
      else if |s| < 18 then r == Fail(Truncated)
      else if Value(s[3..18]) == 0 then r == Fail(InvalidBlock)
      else r.Done? ==> (|r.value.tables| == Value(s[..3]) && |r.value.selectors| == Value(s[3..18])
        && r.value.crc == crc && r.value.origPtr == origPtr && r.value.inUse == inUse)
  {
    hide Value, ParseSelectors, ParseTables, SoundHeader;
    if |s| >= 18 { assert s[3..][..15] == s[3..18]; }
  }

  lemma MapFields(s: seq<bit>, crc: word, origPtr: nat)
    ensures var r := ParseMap(s, crc, origPtr);
      if |s| < 16 || |s| < MapEnd(s) then r == Fail(Truncated)
      else if forall x: byte :: !InMap(s, x) then r == Fail(InvalidBlock)
      else
        var u := MapEnd(s);
        if |s| < u + 3 then r == Fail(Truncated)
        else if !(2 <= Value(s[u..u + 3]) <= 6) then r == Fail(InvalidHuffman)
        else if |s| < u + 18 then r == Fail(Truncated)
        else if Value(s[u + 3..u + 18]) == 0 then r == Fail(InvalidBlock)
        else r.Done? ==> (|r.value.tables| == Value(s[u..u + 3]) && |r.value.selectors| == Value(s[u + 3..u + 18])
          && r.value.crc == crc && r.value.origPtr == origPtr && forall x: byte :: x in r.value.inUse <==> InMap(s, x))
  {
    hide Value, ParseCounts, ParseInUse, MapEnd, InMap;
    if |s| >= 16 {
      MapIs(s);
      if |s| >= MapEnd(s) {
        var inUse, u := ParseInUse(s).value, MapEnd(s);
        if inUse == [] {
          forall x: byte ensures !InMap(s, x) { assert x !in inUse; }
        } else {
          assert inUse[0] in inUse;
          CountFields(s[u..], crc, origPtr, inUse);
          if |s| >= u + 3 { assert s[u..][..3] == s[u..u + 3]; }
          if |s| >= u + 18 { assert s[u..][3..18] == s[u + 3..u + 18]; }
        }
      }
    } else {
      ShortMap(s);
    }
  }

  lemma ShortMap(s: seq<bit>)
    requires |s| < 16
    ensures ParseInUse(s) == Fail(Truncated)
  {
  }

  /** A block's header is refused field by field, and one that is accepted holds what its fields spell. */
  lemma HeaderFields(s: seq<bit>)
    ensures var r := ParseHeader(s);
      if |s| < 33 then r == Fail(Truncated)
      else if s[32] == 1 then r == Fail(RandomizedBlock)
      else if |s| < 73 || |s| < 57 + MapEnd(s[57..]) then r == Fail(Truncated)
      else if forall x: byte :: !InMap(s[57..], x) then r == Fail(InvalidBlock)
      else
        var u := 57 + MapEnd(s[57..]);
        if |s| < u + 3 then r == Fail(Truncated)
        else if !(2 <= Value(s[u..u + 3]) <= 6) then r == Fail(InvalidHuffman)
        else if |s| < u + 18 then r == Fail(Truncated)
        else if Value(s[u + 3..u + 18]) == 0 then r == Fail(InvalidBlock)
        else r.Done? ==> (|r.value.tables| == Value(s[u..u + 3]) && |r.value.selectors| == Value(s[u + 3..u + 18])
          && r.value.crc == Value(s[..32]) && r.value.origPtr == Value(s[33..57])
          && forall x: byte :: x in r.value.inUse <==> InMap(s[57..], x))
  {
    hide Value, ParseMap, MapEnd, InMap;
    if |s| >= 33 {
      OneBit(s);
      if |s| >= 57 {
        assert s[32..][1..][24..] == s[57..] && s[32..][1..][..24] == s[33..57];
        MapFields(s[57..], Value(s[..32]), Value(s[33..57]));
        var t := s[57..];
        if |t| >= 16 && |t| >= MapEnd(t) {
          var u := MapEnd(t);
          if |t| >= u + 3 { assert t[u..u + 3] == s[57 + u..57 + u + 3]; }
          if |t| >= u + 18 { assert t[u + 3..u + 18] == s[57 + u + 3..57 + u + 18]; }
        }
      }
    }
  }

  lemma OneBit(s: seq<bit>)
    requires |s| >= 33
    ensures Value(s[32..][..1]) == s[32] && Value(s[..32]) < U32
  {
    var n := 32;
    Pow2Words(n);
    assert s[32..][..1][..0] == [];
    ValueLast(s[32..][..1]);
  }

  // ----- selectors and lengths -----

  /** A selector is a count of ones, ended by a zero; as many ones as there are tables are refused at once. */
  lemma {:induction false} UnaryField(s: seq<bit>, j: nat, n: nat, k: nat)
    requires j <= k <= n && j < n && k - j <= |s| && forall i :: 0 <= i < k - j ==> s[i] == 1
    ensures k == n ==> ParseUnary(s, j, n) == Fail(InvalidBlock)
    ensures k < n && k - j < |s| && s[k - j] == 0 ==> ParseUnary(s, j, n) == Done(k, k - j + 1)
    ensures k < n && k - j == |s| ==> ParseUnary(s, j, n) == Fail(Truncated)
    decreases k - j
  {
    if j < k && j + 1 < n { UnaryField(s[1..], j + 1, n, k); }
  }

  /** The bits of a walk that goes up or down by one at each step. */
  function WalkBits(ups: seq<bool>): seq<bit>
    decreases |ups|
  {
    if ups == [] then [] else (if ups[0] then [1, 0] else [1, 1]) + WalkBits(ups[1..])
  }

  /** Where the walk stands after `i` steps. */
  function After(curr: int, ups: seq<bool>, i: nat): int
    requires i <= |ups|
    decreases i
  {
    if i == 0 then curr else After(if ups[0] then curr + 1 else curr - 1, ups[1..], i - 1)
  }

  /** The walk stays within 1..20, at its end and on the way. */
  predicate StaysInside(curr: int, ups: seq<bool>) {
    forall i :: 0 <= i <= |ups| ==> 1 <= After(curr, ups, i) <= 20
  }

  lemma OneStep(curr: int, ups: seq<bool>, next: int)
    requires ups != [] && next == if ups[0] then curr + 1 else curr - 1
    ensures StaysInside(curr, ups) <==> 1 <= curr <= 20 && StaysInside(next, ups[1..])
    ensures After(curr, ups, |ups|) == After(next, ups[1..], |ups| - 1)
  {
    var more := ups[1..];
    assert After(curr, ups, 0) == curr;
    assert forall i: nat :: i <= |more| ==> After(curr, ups, i + 1) == After(next, more, i);
    if 1 <= curr <= 20 && StaysInside(next, more) {
      forall i | 0 <= i <= |ups| ensures 1 <= After(curr, ups, i) <= 20 {
        if i > 0 { assert After(curr, ups, i) == After(next, more, i - 1); }
      }
    }
  }

  /** A length is a walk ended by a zero bit, and it may never leave 1..20, also not on the way. */
  lemma {:induction false} LengthField(curr: int, ups: seq<bool>, t: seq<bit>)
    ensures ParseLength(WalkBits(ups) + ([0] + t), curr) ==
      if StaysInside(curr, ups) then Done(After(curr, ups, |ups|), 2 * |ups| + 1) else Fail(InvalidHuffman)
    decreases |ups|
  {
    var s := WalkBits(ups) + ([0] + t);
    if ups != [] {
      hide StaysInside, After;
      var next, more := if ups[0] then curr + 1 else curr - 1, ups[1..];
      LengthField(next, more, t);
      OneStep(curr, ups, next);
      assert s[2..] == WalkBits(more) + ([0] + t);
    } else {
      assert After(curr, ups, 0) == curr;
    }
  }

  // ----- symbols -----

  /** Every selector stands for fifty symbols: the one for symbol `k` is number `k / 50`, and there is no symbol for
      which none is left. */
  lemma FiftySymbols(s: seq<bit>, h: Header, k: nat, p: Progress, size: nat)
    requires SoundHeader(h) && |p.list| == 256
    ensures k >= 50 * |h.selectors| ==> ParseSymbols(s, h, k, p, size) == Fail(InvalidBlock)
    ensures k < 50 * |h.selectors| ==>
      match DecodeSymbol(h.tables[h.selectors[k / 50]], s)
      case Fail(e) => ParseSymbols(s, h, k, p, size) == Fail(e)
      case Done(_, u) => u <= |s|
  {
    hide DecodeSymbol, Symbol;
  }

  /** A starting row that is not a row of the block is refused once the block is known. */
  lemma PointerOutside(h: Header, syms: seq<nat>, last: seq<byte>, size: nat, t: seq<bit>)
    requires Writable(h) && BlockWritten.Coded(syms, h.tables, h.selectors) && syms != [] && h.origPtr >= |last|
    requires Decoded(Fresh(h), syms, |h.inUse|, size) == Ok(last)
    ensures ParseBlock(HeadBits(h) + (SymbolBits(syms, h.tables, h.selectors, 0) + t), size) == Fail(InvalidBlock)
  {
    hide HeadBits, ParseHeader, ParseSymbols, SymbolBits, BlockWritten.Coded, Decoded, SoundHeader, Listed;
    var b := SymbolBits(syms, h.tables, h.selectors, 0);
    HeadParses(h, b + t);
    DropHead(HeadBits(h), b + t);
    assert syms[0..] == syms;
    SymbolsParse(syms, h, 0, Fresh(h), size, t, last);
  }
}
