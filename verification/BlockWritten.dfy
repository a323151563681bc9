/** The bits a block is written as, and reading them back. */
module BlockWritten {
  import opened Sequences
  import opened Bits
  import opened Results
  import opened Permutations
  import opened Canonical
  import opened BitReading
  import opened HuffmanTables
  import opened MoveToFront
  import opened Crc
  import opened Bwt
  import RunLength
  import opened Walking
  import opened Grouping
  import opened HuffmanBuild
  import opened BlockFormat

  const BLOCK_MAGIC: nat := 0x3141_5926_5359
  const EOS_MAGIC: nat := 0x1772_4538_5090

  // ----- the symbol map -----

  /** One flag for each of the 256 byte values. */
  function Flags(inUse: seq<byte>): (f: seq<bit>)
    ensures |f| == 256 && forall b: byte :: f[b] == if b in inUse then 1 else 0
  {
    seq(256, b requires 0 <= b < 256 => if b in inUse then 1 else 0)
  }

  predicate AnySet(flags: seq<bit>) {
    exists i :: 0 <= i < |flags| && flags[i] == 1
  }

  /** Which groups of sixteen flags have one set. */
  function GroupFlags(flags: seq<bit>): (g: seq<bit>)
    ensures |g| == |flags| / 16
    decreases |flags|
  {
    if |flags| < 16 then [] else [if AnySet(flags[..16]) then 1 else 0] + GroupFlags(flags[16..])
  }

  /** The sixteen flags of every group that has one set. */
  function SetGroups(flags: seq<bit>): seq<bit>
    decreases |flags|
  {
    if |flags| < 16 then [] else (if AnySet(flags[..16]) then flags[..16] else []) + SetGroups(flags[16..])
  }

  function MapBits(flags: seq<bit>): seq<bit> {
    GroupFlags(flags) + SetGroups(flags)
  }

  lemma NoneSet(flags: seq<bit>)
    requires |flags| == 16 && !AnySet(flags)
    ensures flags == Zeros(16)
  {
  }

  lemma {:induction false} FlagsParse(flags: seq<bit>, t: seq<bit>)
    requires |flags| % 16 == 0
    ensures ParseFlags(SetGroups(flags) + t, GroupFlags(flags)) == Done(flags, |SetGroups(flags)|)
    decreases |flags|
  {
    if |flags| >= 16 {
      var group, rest := flags[..16], flags[16..];
      FlagsParse(rest, t);
      assert GroupFlags(flags)[1..] == GroupFlags(rest);
      assert flags == group + rest;
      if AnySet(group) {
        Associate(group, SetGroups(rest), t);
        DropHead(group, SetGroups(rest) + t);
      } else {
        NoneSet(group);
        assert SetGroups(flags) == SetGroups(rest);
      }
    }
  }

  lemma {:induction false} ListedFlags(block: seq<byte>, n: nat)
    requires n <= 256
    ensures Listed(Flags(InUse(block))[..n]) == UsedBelow(block, n)
  {
    if n > 0 {
      ListedFlags(block, n - 1);
      var f := Flags(InUse(block));
      assert f[..n][..n - 1] == f[..n - 1];
    }
  }

  // ----- selectors -----

  function Ones(n: nat): (s: seq<bit>)
    ensures |s| == n && forall i :: 0 <= i < n ==> s[i] == 1
  {
    seq(n, _ => 1)
  }

  /** Each selector as its place in the list, in unary. */
  function SelectorBits(sel: seq<nat>, pos: seq<nat>): seq<bit>
    requires forall i :: 0 <= i < |sel| ==> sel[i] in pos
    decreases |sel|
  {
    if sel == [] then []
    else
      var j := IndexOf(pos, sel[0]);
      assert forall i :: 0 <= i < |sel| ==> sel[i] in ToFront(pos, j) by {
        forall i | 0 <= i < |sel| ensures sel[i] in ToFront(pos, j) { ToFrontKeeps(pos, j, sel[i]); }
      }
      Ones(j) + [0] + SelectorBits(sel[1..], ToFront(pos, j))
  }

  lemma {:induction false} UnaryParses(i: nat, j: nat, n: nat, t: seq<bit>)
    requires i + j < n
    ensures ParseUnary(Ones(j) + [0] + t, i, n) == Done(i + j, j + 1)
    decreases j
  {
    var s := Ones(j) + [0] + t;
    if j > 0 {
      assert s[1..] == Ones(j - 1) + [0] + t;
      UnaryParses(i + 1, j - 1, n, t);
    }
  }

  lemma {:induction false} SelectorsParse(sel: seq<nat>, pos: seq<nat>, t: seq<bit>)
    requires pos != [] && forall i :: 0 <= i < |sel| ==> sel[i] in pos
    ensures ParseSelectors(SelectorBits(sel, pos) + t, |sel|, pos) == Done(sel, |SelectorBits(sel, pos)|)
    decreases |sel|
  {
    if sel != [] {
      var j := IndexOf(pos, sel[0]);
      forall i | 0 <= i < |sel| ensures sel[i] in ToFront(pos, j) { ToFrontKeeps(pos, j, sel[i]); }
      var rest := SelectorBits(sel[1..], ToFront(pos, j));
      SelectorsParse(sel[1..], ToFront(pos, j), t);
      OneSelector(pos, j, sel[0], rest, t, |sel|);
      assert sel == [sel[0]] + sel[1..];
    }
  }

  lemma OneSelector(pos: seq<nat>, j: nat, x: nat, rest: seq<bit>, t: seq<bit>, count: nat)
    requires j < |pos| && pos[j] == x && count > 0
    ensures ParseSelectors(Ones(j) + [0] + rest + t, count, pos)
      == Prefixed([x], j + 1, ParseSelectors(rest + t, count - 1, ToFront(pos, j)))
  {
    var s := Ones(j) + [0] + (rest + t);
    assert Ones(j) + [0] + rest + t == s;
    UnaryParses(0, j, |pos|, rest + t);
    assert s[j + 1..] == rest + t;
  }

  // ----- code lengths -----

  /** Walk from the current length to the target, then stop. */
  function LengthBits(curr: nat, target: nat): seq<bit>
    decreases if curr < target then target - curr else curr - target
  {
    if curr < target then [1, 0] + LengthBits(curr + 1, target)
    else if curr > target then [1, 1] + LengthBits(curr - 1, target)
    else [0]
  }

  function LengthsBits(lens: seq<nat>, curr: nat): seq<bit>
    decreases |lens|
  {
    if lens == [] then [] else LengthBits(curr, lens[0]) + LengthsBits(lens[1..], lens[0])
  }

  function TableBits(lens: seq<nat>): seq<bit> {
    if lens == [] then [] else ToBits(lens[0], 5) + LengthsBits(lens, lens[0])
  }

  function TablesBits(tables: seq<seq<nat>>): seq<bit>
    decreases |tables|
  {
    if tables == [] then [] else TableBits(tables[0]) + TablesBits(tables[1..])
  }

  lemma TwoBits(a: bit, b: bit, rest: seq<bit>)
    ensures var s := [a, b] + rest; s[0] == a && s[1] == b && s[2..] == rest
  {
  }

  lemma {:induction false} LengthParses(curr: nat, target: nat, t: seq<bit>)
    requires 1 <= curr <= 20 && 1 <= target <= 20
    ensures ParseLength(LengthBits(curr, target) + t, curr) == Done(target, |LengthBits(curr, target)|)
    decreases if curr < target then target - curr else curr - target
  {
    if curr < target {
      LengthParses(curr + 1, target, t);
      Associate([1, 0], LengthBits(curr + 1, target), t);
      TwoBits(1, 0, LengthBits(curr + 1, target) + t);
    } else if curr > target {
      LengthParses(curr - 1, target, t);
      Associate([1, 1], LengthBits(curr - 1, target), t);
      TwoBits(1, 1, LengthBits(curr - 1, target) + t);
    }
  }

  lemma {:induction false} LengthsParse(lens: seq<nat>, curr: nat, t: seq<bit>)
    requires 1 <= curr <= 20 && forall i :: 0 <= i < |lens| ==> 1 <= lens[i] <= 20
    ensures ParseLengths(LengthsBits(lens, curr) + t, |lens|, curr) == Done(lens, |LengthsBits(lens, curr)|)
    decreases |lens|
  {
    hide LengthBits, ParseLength;
    if lens != [] {
      var a, rest := LengthBits(curr, lens[0]), LengthsBits(lens[1..], lens[0]);
      LengthParses(curr, lens[0], rest + t);
      LengthsParse(lens[1..], lens[0], t);
      Associate(a, rest, t);
      DropHead(a, rest + t);
      assert lens == [lens[0]] + lens[1..];
    }
  }

  lemma TableParses(lens: seq<nat>, t: seq<bit>)
    requires lens != [] && forall i :: 0 <= i < |lens| ==> 1 <= lens[i] <= 20
    ensures ParseTable(TableBits(lens) + t, |lens|) == Done(lens, |TableBits(lens)|)
  {
    Pow2Small();
    var a, rest := ToBits(lens[0], 5), LengthsBits(lens, lens[0]);
    assert a + rest + t == a + (rest + t);
    ReadBitsWritten(lens[0], 5, rest + t);
    LengthsParse(lens, lens[0], t);
    assert (a + (rest + t))[5..] == rest + t;
  }

  lemma {:induction false} TablesParse(tables: seq<seq<nat>>, n: nat, t: seq<bit>)
    requires n > 0 && forall i :: 0 <= i < |tables| ==> TableLengths(tables[i], n)
    ensures ParseTables(TablesBits(tables) + t, |tables|, n) == Done(tables, |TablesBits(tables)|)
    decreases |tables|
  {
    hide TableBits, ParseTable;
    if tables != [] {
      assert TableLengths(tables[0], n);
      var a, rest := TableBits(tables[0]), TablesBits(tables[1..]);
      TableParses(tables[0], rest + t);
      TablesParse(tables[1..], n, t);
      Associate(a, rest, t);
      DropHead(a, rest + t);
      assert tables == [tables[0]] + tables[1..];
    }
  }

  // ----- symbols -----

  ghost predicate Coded(syms: seq<nat>, lens: seq<seq<nat>>, sel: seq<nat>) {
    && |sel| == Grouping.Groups(|syms|) && (forall g :: 0 <= g < |sel| ==> sel[g] < |lens|)
    && (forall t :: 0 <= t < |lens| ==> Prefixable(lens[t], ENCODE_MAX))
    && (forall t, k :: 0 <= t < |lens| && 0 <= k < |syms| ==> syms[k] < |lens[t]|)
  }

  /** The symbols from number `k` on, each in its group's table. */
  ghost function SymbolBits(syms: seq<nat>, lens: seq<seq<nat>>, sel: seq<nat>, k: nat): seq<bit>
    requires Coded(syms, lens, sel) && k <= |syms|
    decreases |syms| - k
  {
    if k == |syms| then []
    else CodeBits(lens[sel[k / GROUP_SIZE]], syms[k]) + SymbolBits(syms, lens, sel, k + 1)
  }

  lemma DecodedStep(p: Progress, syms: seq<nat>, k: nat, n: nat, size: nat, want: seq<byte>)
    requires |p.list| == 256 && n <= 256 && k < |syms| && Decoded(p, syms[k..], n, size) == Ok(want)
    ensures match Symbol(p, syms[k], n, size)
      case Reject(_) => false
      case Stop(bytes) => k + 1 == |syms| && bytes == want
      case More(q) => k + 1 < |syms| && Decoded(q, syms[k + 1..], n, size) == Ok(want)
  {
    assert syms[k..][0] == syms[k] && syms[k..][1..] == syms[k + 1..];
  }

  lemma CodedSymbol(syms: seq<nat>, h: Header, k: nat)
    requires SoundHeader(h) && Coded(syms, h.tables, h.selectors) && k < |syms|
    ensures k / GROUP_SIZE < |h.selectors| && syms[k] < |TableFor(h, k)| && Prefixable(TableFor(h, k), ENCODE_MAX)
    ensures SymbolBits(syms, h.tables, h.selectors, k)
      == CodeBits(TableFor(h, k), syms[k]) + SymbolBits(syms, h.tables, h.selectors, k + 1)
  {
  }

  lemma CodedEnd(syms: seq<nat>, h: Header)
    requires Coded(syms, h.tables, h.selectors)
    ensures SymbolBits(syms, h.tables, h.selectors, |syms|) == []
  {
  }

  /** One code at the front of the input is one symbol fed. */
  lemma CodeStep(s: seq<bit>, h: Header, k: nat, p: Progress, size: nat, sym: nat)
    requires SoundHeader(h) && |p.list| == 256 && k / GROUP_SIZE < |h.selectors|
    requires sym < |TableFor(h, k)| && Prefixable(TableFor(h, k), ENCODE_MAX)
    ensures var a := CodeBits(TableFor(h, k), sym);
      ParseSymbols(a + s, h, k, p, size) ==
        match Symbol(p, sym, |h.inUse|, size)
        case Reject(e) => Fail(e)
        case Stop(bytes) => Done(bytes, |a|)
        case More(q) => Plus(ParseSymbols(s, h, k + 1, q, size), |a|)
  {
    var a := CodeBits(TableFor(h, k), sym);
    DropHead(a, s);
    DecodeSymbolWritten(TableFor(h, k), ENCODE_MAX, sym, s);
  }

  /** Reading the coded symbols does what feeding the symbols themselves does. */
  lemma {:induction false} SymbolsParse(syms: seq<nat>, h: Header, k: nat, p: Progress, size: nat, t: seq<bit>,
                                        want: seq<byte>)
    requires SoundHeader(h) && Coded(syms, h.tables, h.selectors) && k < |syms| && |p.list| == 256
    requires Decoded(p, syms[k..], |h.inUse|, size) == Ok(want)
    ensures ParseSymbols(SymbolBits(syms, h.tables, h.selectors, k) + t, h, k, p, size)
      == Done(want, |SymbolBits(syms, h.tables, h.selectors, k)|)
    decreases |syms| - k
  {
    hide Decoded, CodeBits, TableFor, Prefixable, ParseSymbols, Coded, SymbolBits;
    CodedSymbol(syms, h, k);
    CodedEnd(syms, h);
    DecodedStep(p, syms, k, |h.inUse|, size, want);
    var next := k + 1;
    var a, rest := CodeBits(TableFor(h, k), syms[k]), SymbolBits(syms, h.tables, h.selectors, next);
    if next < |syms| {
      SymbolsParse(syms, h, next, Symbol(p, syms[k], |h.inUse|, size).next, size, t, want);
    }
    SymbolsParseStep(h, k, p, size, syms[k], a, rest, t, want, next == |syms|);
  }

  lemma SymbolsParseStep(h: Header, k: nat, p: Progress, size: nat, sym: nat, a: seq<bit>, rest: seq<bit>, t: seq<bit>,
                         want: seq<byte>, end: bool)
    requires SoundHeader(h) && |p.list| == 256 && k / GROUP_SIZE < |h.selectors|
    requires sym < |TableFor(h, k)| && Prefixable(TableFor(h, k), ENCODE_MAX) && a == CodeBits(TableFor(h, k), sym)
    requires match Symbol(p, sym, |h.inUse|, size)
      case Reject(_) => false
      case Stop(bytes) => end && rest == [] && bytes == want
      case More(q) => !end && ParseSymbols(rest + t, h, k + 1, q, size) == Done(want, |rest|)
    ensures ParseSymbols(a + rest + t, h, k, p, size) == Done(want, |a| + |rest|)
  {
    Associate(a, rest, t);
    CodeStep(rest + t, h, k, p, size, sym);
  }

  // ----- the whole block -----

  function ListsBits(h: Header): seq<bit>
    requires SoundHeader(h)
  {
    IdentityHas(h.selectors, |h.tables|);
    SelectorBits(h.selectors, Identity(|h.tables|)) + TablesBits(h.tables)
  }

  function CountsBits(h: Header): seq<bit>
    requires SoundHeader(h)
  {
    ToBits(|h.tables|, 3) + (ToBits(|h.selectors|, 15) + ListsBits(h))
  }

  /** The block after its magic and before its symbols. */
  function HeadBits(h: Header): seq<bit>
    requires SoundHeader(h)
  {
    ToBits(h.crc, 32) + ([0] + (ToBits(h.origPtr, 24) + (MapBits(Flags(h.inUse)) + CountsBits(h))))
  }

  /** A header whose fields fit the widths they are written in. */
  ghost predicate Writable(h: Header) {
    && SoundHeader(h) && 2 <= |h.tables| <= 6 && 0 < |h.selectors| < 32768 && h.origPtr < 0x100_0000
    && Listed(Flags(h.inUse)) == h.inUse
  }

  lemma ListsParse(h: Header, t: seq<bit>)
    requires Writable(h)
    ensures ParseLists(ListsBits(h) + t, h.crc, h.origPtr, h.inUse, |h.tables|, |h.selectors|)
      == Done(h, |ListsBits(h)|)
  {
    hide SelectorBits, TablesBits, ParseSelectors, ParseTables, ToFront;
    IdentityHas(h.selectors, |h.tables|);
    var a, b := SelectorBits(h.selectors, Identity(|h.tables|)), TablesBits(h.tables);
    Associate(a, b, t);
    SelectorsParse(h.selectors, Identity(|h.tables|), b + t);
    DropHead(a, b + t);
    TablesParse(h.tables, |h.inUse| + 2, t);
  }

  lemma CountsParse(h: Header, t: seq<bit>)
    requires Writable(h)
    ensures ParseCounts(CountsBits(h) + t, h.crc, h.origPtr, h.inUse) == Done(h, |CountsBits(h)|)
  {
    var a, b, rest := ToBits(|h.tables|, 3), ToBits(|h.selectors|, 15), ListsBits(h);
    Associate(a, b + rest, t);
    Associate(b, rest, t);
    Pow2Small();
    var n := 15;
    Pow2Words(n);
    ReadBitsWritten(|h.tables|, 3, b + (rest + t));
    DropHead(a, b + (rest + t));
    ReadBitsWritten(|h.selectors|, 15, rest + t);
    DropHead(b, rest + t);
    ListsParse(h, t);
  }

  lemma InUseParses(inUse: seq<byte>, t: seq<bit>)
    requires Listed(Flags(inUse)) == inUse
    ensures ParseInUse(MapBits(Flags(inUse)) + t) == Done(inUse, |MapBits(Flags(inUse))|)
  {
    var f := Flags(inUse);
    var a, b := GroupFlags(f), SetGroups(f);
    assert a + b + t == a + (b + t);
    DropHead(a, b + t);
    FlagsParse(f, t);
  }

  lemma MapParses(h: Header, t: seq<bit>)
    requires Writable(h)
    ensures ParseMap(MapBits(Flags(h.inUse)) + CountsBits(h) + t, h.crc, h.origPtr)
      == Done(h, |MapBits(Flags(h.inUse))| + |CountsBits(h)|)
  {
    var a, b := MapBits(Flags(h.inUse)), CountsBits(h);
    Associate(a, b, t);
    InUseParses(h.inUse, b + t);
    DropHead(a, b + t);
    CountsParse(h, t);
  }

  lemma ReadZero(rest: seq<bit>)
    ensures ReadBits([0] + rest, 1) == Done(0, 1) && ([0] + rest)[1..] == rest
  {
    assert ([0] + rest)[..1] == [0];
  }

  lemma ReadPointer(ptr: nat, s: seq<bit>)
    requires ptr < 0x100_0000
    ensures ReadBits(ToBits(ptr, 24) + s, 24) == Done(ptr, 24) && (ToBits(ptr, 24) + s)[24..] == s
  {
    var n := 24;
    Pow2Words(n);
    ReadBitsWritten(ptr, n, s);
    DropHead(ToBits(ptr, n), s);
  }

  lemma PointerParses(h: Header, s: seq<bit>, u: nat)
    requires Writable(h) && ParseMap(s, h.crc, h.origPtr) == Done(h, u)
    ensures ParsePointer([0] + (ToBits(h.origPtr, 24) + s), h.crc) == Done(h, 25 + u)
  {
    ReadZero(ToBits(h.origPtr, 24) + s);
    ReadPointer(h.origPtr, s);
  }

  lemma CrcParses(h: Header, s: seq<bit>, u: nat)
    requires ParsePointer(s, h.crc) == Done(h, u)
    ensures ParseHeader(ToBits(h.crc, 32) + s) == Done(h, 32 + u)
  {
    var n := 32;
    Pow2Words(n);
    ReadBitsWritten(h.crc, 32, s);
    DropHead(ToBits(h.crc, 32), s);
  }

  /** A written header reads back as itself. */
  lemma HeadParses(h: Header, t: seq<bit>)
    requires Writable(h)
    ensures ParseHeader(HeadBits(h) + t) == Done(h, |HeadBits(h)|)
  {
    hide ToBits, MapBits, CountsBits, ParseHeader, ParsePointer, ParseMap, SoundHeader;
    var a, p, m := ToBits(h.crc, 32), ToBits(h.origPtr, 24), MapBits(Flags(h.inUse)) + CountsBits(h);
    Associate(a, [0] + (p + m), t);
    Associate([0], p + m, t);
    Associate(p, m, t);
    MapParses(h, t);
    PointerParses(h, m + t, |m|);
    CrcParses(h, [0] + (p + (m + t)), 25 + |m|);
  }

  // ----- a block of RLE1 output -----

  predicate Blockable(block: seq<byte>) {
    0 < |block| <= 900_000
  }

  lemma BlockStream(block: seq<byte>)
    requires Blockable(block)
    ensures |LastColumn(block)| == |block| && Stream(Encoded(LastColumn(block)), |InUse(LastColumn(block))| + 2)
    ensures |Encoded(LastColumn(block))| <= |block| + 1 && InUse(LastColumn(block)) != []
  {
    var last := LastColumn(block);
    BlockDecodes(last, 900_000);
    assert last[0] in InUse(last);
  }

  ghost function BlockHeader(block: seq<byte>, crc: word): (h: Header)
    requires Blockable(block)
  {
    BlockStream(block);
    var last := LastColumn(block);
    var syms, alpha := Encoded(last), |InUse(last)| + 2;
    Header(crc, OrigPtr(block), InUse(last), CodingSelectors(syms, alpha), CodingLens(syms, alpha))
  }

  lemma BlockWritable(block: seq<byte>, crc: word)
    requires Blockable(block)
    ensures var h := BlockHeader(block, crc); Writable(h) && Coded(Encoded(LastColumn(block)), h.tables, h.selectors)
  {
    hide CodingLens, CodingSelectors, Encoded, LastColumn, UsedBelow;
    BlockStream(block);
    var last, h := LastColumn(block), BlockHeader(block, crc);
    var syms, alpha := Encoded(last), |InUse(last)| + 2;
    forall t | 0 <= t < |h.tables| ensures Prefixable(h.tables[t], ENCODE_MAX) && |h.tables[t]| == alpha {
      CodingComplete(syms, alpha, t);
    }
    ListedFlags(last, 256);
    assert Flags(InUse(last))[..256] == Flags(InUse(last));
  }

  /** Everything written for one block after its magic. */
  ghost function BodyBits(block: seq<byte>, crc: word): seq<bit>
    requires Blockable(block)
  {
    BlockWritable(block, crc);
    var h := BlockHeader(block, crc);
    HeadBits(h) + SymbolBits(Encoded(LastColumn(block)), h.tables, h.selectors, 0)
  }

  lemma BodyParses(h: Header, syms: seq<nat>, last: seq<byte>, size: nat, t: seq<bit>)
    requires Writable(h) && Coded(syms, h.tables, h.selectors) && syms != [] && h.origPtr < |last|
    requires Decoded(Fresh(h), syms, |h.inUse|, size) == Ok(last)
    ensures var b := SymbolBits(syms, h.tables, h.selectors, 0);
      ParseBlock(HeadBits(h) + (b + t), size) == Done(Prepared(h.crc, h.origPtr, last), |HeadBits(h)| + |b|)
  {
    hide HeadBits, ParseHeader, ParseSymbols, SymbolBits, Coded, Decoded, SoundHeader, Listed;
    var b := SymbolBits(syms, h.tables, h.selectors, 0);
    HeadParses(h, b + t);
    DropHead(HeadBits(h), b + t);
    assert syms[0..] == syms;
    SymbolsParse(syms, h, 0, Fresh(h), size, t, last);
  }

  /** The prepared form of a block: its CRC, and its transform. */
  ghost function PreparedOf(block: seq<byte>, crc: word): (p: Prepared)
    requires Blockable(block)
    ensures Walkable(p)
  {
    Prepared(crc, OrigPtr(block), LastColumn(block))
  }

  /** A written block parses, under every size that admits it, to its CRC and its transform. */
  lemma BlockParses(block: seq<byte>, crc: word, size: nat, t: seq<bit>)
    requires Blockable(block) && |block| <= size <= 900_000
    ensures ParseBlock(BodyBits(block, crc) + t, size) == Done(PreparedOf(block, crc), |BodyBits(block, crc)|)
  {
    hide CodingLens, CodingSelectors, ParseBlock, SymbolBits, HeadBits, SoundHeader, Coded, Decoded, Stream;
    BlockWritable(block, crc);
    BlockStream(block);
    var h, last := BlockHeader(block, crc), LastColumn(block);
    var syms := Encoded(last);
    var a, b := HeadBits(h), SymbolBits(syms, h.tables, h.selectors, 0);
    BlockDecodes(last, size);
    BodyParses(h, syms, last, size, t);
    Associate(a, b, t);
  }

  /** A decoder with a given declared size accepts a written block exactly when the block fits, up to and including
      that size. */
  lemma BlockAccepted(block: seq<byte>, crc: word, size: nat, t: seq<bit>)
    requires Blockable(block) && size <= 900_000
    ensures ParseBlock(BodyBits(block, crc) + t, size).Done? <==> |block| <= size
  {
    hide BodyBits, ParseBlock;
    BlockParses(block, crc, 900_000, t);
    ParseBlockUnderSize(BodyBits(block, crc) + t, size, 900_000);
  }

  /** Blocks of every size up to the largest attain the bound on the output of their number of cells. */
  lemma PlainReaches(n: nat, crc: word)
    requires 0 < n <= 900_000
    ensures Blockable(RunLength.Widest(n))
    ensures var p := PreparedOf(RunLength.Widest(n), crc); |p.last| == n && |Plain(p)| == n + 254 * (n / 5)
  {
    hide Plain;
    PlainOfBlock(RunLength.Widest(n), crc);
    RunLength.WidestExpands(n);
  }

  /** The plaintext of a written block is its RLE1 expansion. */
  lemma PlainOfBlock(block: seq<byte>, crc: word)
    requires Blockable(block)
    ensures Plain(PreparedOf(block, crc)) == RunLength.Expand(RunLength.START, block)
  {
    Bwt.RoundTrip(block);
  }
}
