/** Writing one block: transform, symbols, coding, and the bits. */
module BlockWriting {
  import opened Sequences
  import opened Bits
  import opened Permutations
  import opened Canonical
  import opened BitWriting
  import opened TableBuilding
  import opened MoveToFront
  import opened Crc
  import opened Bwt
  import opened Grouping
  import opened HuffmanBuild
  import opened BlockFormat
  import opened BlockWritten

  // ----- words of flags -----

  lemma TopArithmetic(v: nat, b: bit, p: nat, v': nat, p': nat, word: nat)
    requires v' == 2 * v + b && p' == 2 * p && word == v * p'
    ensures word + (if b == 1 then p else 0) == v' * p
  {
    assert (2 * v) * p == v * (2 * p);
  }

  /** The first `i` flags stand at the top of the word. */
  ghost predicate AtTop(flags: seq<bit>, i: nat, word: nat)
    requires i <= |flags| == 16
  {
    word == Value(flags[..i]) * Pow2(16 - i)
  }

  lemma TopStep(flags: seq<bit>, i: nat, word: nat)
    requires i < |flags| == 16 && AtTop(flags, i, word)
    ensures AtTop(flags, i + 1, word + if flags[i] == 1 then Pow2(15 - i) else 0)
  {
    assert flags[..i + 1][..i] == flags[..i];
    var next := i + 1;
    TopArithmetic(Value(flags[..i]), flags[i], Pow2(15 - i), Value(flags[..next]), Pow2(16 - i), word);
    assert 16 - next == 15 - i;
  }

  lemma TopEnds(flags: seq<bit>, word: nat)
    requires |flags| == 16
    ensures AtTop(flags, 0, 0) && (AtTop(flags, 16, word) ==> word == Value(flags))
  {
    assert flags[..16] == flags;
    assert Pow2(0) == 1;
  }

  /** `1 << (15 - i)` for every flag that is set, or'ed together. */
  method PackFlags(flags: seq<bit>) returns (word: nat)
    requires |flags| == 16
    ensures word == Value(flags)
  {
    hide AtTop;
    word := 0;
    var i := 0;
    TopEnds(flags, 0);
    while i < 16
      invariant 0 <= i <= 16 && AtTop(flags, i, word)
    {
      TopStep(flags, i, word);
      if flags[i] == 1 {
        word := word + Pow2(15 - i);
      }
      i := i + 1;
    }
    TopEnds(flags, word);
  }

  method HasAny(flags: seq<bit>) returns (any: bool)
    ensures any <==> AnySet(flags)
  {
    any := false;
    var i := 0;
    while i < |flags|
      invariant 0 <= i <= |flags| && (any <==> exists k :: 0 <= k < i && flags[k] == 1)
    {
      if flags[i] == 1 { any := true; }
      i := i + 1;
    }
  }

  lemma {:induction false} GroupFlagAt(flags: seq<bit>, i: nat)
    requires i < |flags| / 16
    ensures GroupFlags(flags)[i] == if AnySet(flags[16 * i..16 * i + 16]) then 1 else 0
    decreases |flags|
  {
    hide AnySet;
    if i > 0 {
      GroupFlagAt(flags[16..], i - 1);
      SliceOfRest(flags, 16, 16 * (i - 1), 16);
    }
  }

  lemma {:induction false} SetGroupsNext(flags: seq<bit>, i: nat)
    requires i < |flags| / 16
    ensures SetGroups(flags[16 * i..]) ==
      (if AnySet(flags[16 * i..16 * i + 16]) then flags[16 * i..16 * i + 16] else []) + SetGroups(flags[16 * (i + 1)..])
  {
    hide AnySet;
    SliceOfRest(flags, 16 * i, 0, 16);
    DropSum(flags, 16 * i, 16);
  }

  /** The word that says which groups of sixteen have a flag set. */
  method PackGroups(flags: seq<bit>) returns (groups: nat)
    requires |flags| == 256
    ensures groups == Value(GroupFlags(flags))
  {
    ghost var g := GroupFlags(flags);
    var groupFlags: seq<bit> := [];
    var i := 0;
    while i < 16
      invariant i == |groupFlags| <= 16 && groupFlags == g[..i]
    {
      var any := HasAny(flags[16 * i..16 * i + 16]);
      GroupFlagAt(flags, i);
      groupFlags := groupFlags + [if any then 1 else 0];
      i := i + 1;
    }
    assert groupFlags == g;
    groups := PackFlags(groupFlags);
  }

  /** Mark the byte values in use. */
  method MarkUsed(inUse: seq<byte>) returns (flags: seq<bit>)
    ensures flags == Flags(inUse)
  {
    var used := new bit[256](_ => 0);
    var i := 0;
    while i < |inUse|
      invariant 0 <= i <= |inUse|
      invariant forall b: byte :: used[b] == if b in inUse[..i] then 1 else 0
    {
      used[inUse[i]] := 1;
      assert inUse[..i + 1] == inUse[..i] + [inUse[i]];
      i := i + 1;
    }
    assert inUse[..i] == inUse;
    flags := used[..];
  }

  method WriteFlags(w: BitWriter, flags: seq<bit>)
    requires w.Valid() && |flags| == 16
    modifies w
    ensures w.Valid() && w.Contents() == old(w.Contents()) + flags
  {
    var bits := PackFlags(flags);
    ValueToBits(flags);
    w.WriteBits(16, bits);
  }

  /** Sixteen bits saying which groups of sixteen byte values occur, then sixteen for each that does. */
  method WriteSymbolMap(w: BitWriter, inUse: seq<byte>)
    requires w.Valid()
    modifies w
    ensures w.Valid() && w.Contents() == old(w.Contents()) + MapBits(Flags(inUse))
  {
    hide SetGroups, GroupFlags, AnySet, Value, ToBits, BytesToBits;
    var flags := MarkUsed(inUse);
    ghost var before, g := w.Contents(), GroupFlags(flags);
    var groups := PackGroups(flags);
    ValueToBits(g);
    w.WriteBits(16, groups);
    var i := 0;
    assert flags[0..] == flags;
    while i < 16
      invariant 0 <= i <= 16 && w.Valid()
      invariant w.Contents() + SetGroups(flags[16 * i..]) == before + g + SetGroups(flags)
    {
      BitAt(g, i);
      GroupFlagAt(flags, i);
      SetGroupsNext(flags, i);
      ghost var at, rest := w.Contents(), SetGroups(flags[16 * (i + 1)..]);
      if Shr(groups, 15 - i) % 2 != 0 {
        WriteFlags(w, flags[16 * i..16 * i + 16]);
        Associate(at, flags[16 * i..16 * i + 16], rest);
      } else {
        assert [] + rest == rest;
      }
      i := i + 1;
    }
    assert flags[256..] == [];
    NoGroups();
    assert w.Contents() + [] == w.Contents();
    Associate(before, g, SetGroups(flags));
  }

  lemma NoGroups()
    ensures SetGroups([]) == []
  {
  }

  /** Each selector as its place in the table list, so many one bits and a zero. */
  method WriteSelectors(w: BitWriter, selectors: seq<nat>, n: nat)
    requires w.Valid() && forall i :: 0 <= i < |selectors| ==> selectors[i] in Identity(n)
    modifies w
    ensures w.Valid() && w.Contents() == old(w.Contents()) + SelectorBits(selectors, Identity(n))
  {
    hide SelectorBits, ToFront, IndexOf, ToBits, BytesToBits;
    var pos := Identity(n);
    ghost var all := old(w.Contents()) + SelectorBits(selectors, Identity(n));
    var i := 0;
    assert selectors[0..] == selectors;
    while i < |selectors|
      invariant 0 <= i <= |selectors| && w.Valid()
      invariant forall k :: 0 <= k < |selectors[i..]| ==> selectors[i..][k] in pos
      invariant w.Contents() + SelectorBits(selectors[i..], pos) == all
    {
      ghost var tail := selectors[i..];
      assert tail[0] == selectors[i] && tail[1..] == selectors[i + 1..];
      var j := FindIndex(pos, selectors[i]);
      NextSelector(tail, pos);
      Associate(w.Contents(), Ones(j) + [0], SelectorBits(tail[1..], ToFront(pos, j)));
      WriteUnary(w, j);
      pos := ToFront(pos, j);
      i := i + 1;
    }
    assert selectors[i..] == [];
    NoSelectors(pos);
    assert w.Contents() + [] == w.Contents();
  }

  lemma NextSelector(sel: seq<nat>, pos: seq<nat>)
    requires sel != [] && forall k :: 0 <= k < |sel| ==> sel[k] in pos
    ensures var j := IndexOf(pos, sel[0]);
      && (forall k :: 0 <= k < |sel[1..]| ==> sel[1..][k] in ToFront(pos, j))
      && SelectorBits(sel, pos) == Ones(j) + [0] + SelectorBits(sel[1..], ToFront(pos, j))
  {
    var j := IndexOf(pos, sel[0]);
    forall k | 0 <= k < |sel| ensures sel[k] in ToFront(pos, j) { ToFrontKeeps(pos, j, sel[k]); }
  }

  lemma NoSelectors(pos: seq<nat>)
    ensures SelectorBits([], pos) == []
  {
  }

  /** `j` one bits and a zero. */
  method WriteUnary(w: BitWriter, j: nat)
    requires w.Valid()
    modifies w
    ensures w.Valid() && w.Contents() == old(w.Contents()) + (Ones(j) + [0])
  {
    hide ToBits, BytesToBits;
    ghost var before := w.Contents();
    var k := 0;
    while k < j
      invariant 0 <= k <= j && w.Valid() && w.Contents() == before + Ones(k)
    {
      assert Ones(k + 1) == Ones(k) + [1];
      w.WriteBit(1);
      Associate(before, Ones(k), [1]);
      k := k + 1;
    }
    w.WriteBit(0);
    Associate(before, Ones(j), [0]);
  }

  /** Walk up or down from `curr` to the length, then stop. */
  method WriteLength(w: BitWriter, curr0: nat, target: nat)
    requires w.Valid()
    modifies w
    ensures w.Valid() && w.Contents() == old(w.Contents()) + LengthBits(curr0, target)
  {
    var curr := curr0;
    ghost var all := w.Contents() + LengthBits(curr0, target);
    while curr < target
      invariant w.Valid() && w.Contents() + LengthBits(curr, target) == all && (curr0 <= target ==> curr <= target)
      invariant curr0 > target ==> curr == curr0
    {
      ghost var before := w.Contents();
      TwoBits();
      w.WriteBits(2, 2);
      Associate(before, [1, 0], LengthBits(curr + 1, target));
      curr := curr + 1;
    }
    while curr > target
      invariant curr >= target && w.Valid() && w.Contents() + LengthBits(curr, target) == all
    {
      ghost var before := w.Contents();
      TwoBits();
      w.WriteBits(2, 3);
      Associate(before, [1, 1], LengthBits(curr - 1, target));
      curr := curr - 1;
    }
    w.WriteBit(0);
  }

  lemma TwoBits()
    ensures ToBits(2, 2) == [1, 0] && ToBits(3, 2) == [1, 1]
  {
    assert ToBits(1, 1) == [1];
  }

  method WriteTable(w: BitWriter, lens: seq<nat>)
    requires w.Valid() && lens != []
    modifies w
    ensures w.Valid() && w.Contents() == old(w.Contents()) + TableBits(lens)
  {
    var curr := lens[0];
    ghost var all := w.Contents() + TableBits(lens);
    Associate(w.Contents(), ToBits(curr, 5), LengthsBits(lens, curr));
    w.WriteBits(5, curr);
    var i := 0;
    assert lens[0..] == lens;
    while i < |lens|
      invariant 0 <= i <= |lens| && w.Valid() && w.Contents() + LengthsBits(lens[i..], curr) == all
    {
      assert lens[i..][0] == lens[i] && lens[i..][1..] == lens[i + 1..];
      Associate(w.Contents(), LengthBits(curr, lens[i]), LengthsBits(lens[i + 1..], lens[i]));
      WriteLength(w, curr, lens[i]);
      curr := lens[i];
      i := i + 1;
    }
    assert w.Contents() + [] == w.Contents();
  }

  /** Each table's lengths as a delta walk. */
  method WriteTables(w: BitWriter, tables: seq<seq<nat>>)
    requires w.Valid() && forall t :: 0 <= t < |tables| ==> tables[t] != []
    modifies w
    ensures w.Valid() && w.Contents() == old(w.Contents()) + TablesBits(tables)
  {
    ghost var all := w.Contents() + TablesBits(tables);
    var t := 0;
    assert tables[0..] == tables;
    while t < |tables|
      invariant 0 <= t <= |tables| && w.Valid() && w.Contents() + TablesBits(tables[t..]) == all
    {
      assert tables[t..][0] == tables[t] && tables[t..][1..] == tables[t + 1..];
      Associate(w.Contents(), TableBits(tables[t]), TablesBits(tables[t + 1..]));
      WriteTable(w, tables[t]);
      t := t + 1;
    }
    assert w.Contents() + [] == w.Contents();
  }

  // ----- symbols -----

  ghost predicate CodesOf(codes: seq<seq<nat>>, lens: seq<seq<nat>>) {
    |codes| == |lens| && forall t :: 0 <= t < |lens| ==> HasCodes(lens, codes, t)
  }

  lemma CodeOf(syms: seq<nat>, lens: seq<seq<nat>>, codes: seq<seq<nat>>, sel: seq<nat>, k: nat)
    requires Coded(syms, lens, sel) && CodesOf(codes, lens) && k < |syms|
    ensures k / GROUP_SIZE < |sel| && sel[k / GROUP_SIZE] < |lens|
      && syms[k] < |lens[sel[k / GROUP_SIZE]]| == |codes[sel[k / GROUP_SIZE]]|
    ensures 1 <= lens[sel[k / GROUP_SIZE]][syms[k]] <= 17
    ensures ToBits(codes[sel[k / GROUP_SIZE]][syms[k]], lens[sel[k / GROUP_SIZE]][syms[k]])
      == CodeBits(lens[sel[k / GROUP_SIZE]], syms[k])
    ensures SymbolBits(syms, lens, sel, k)
      == CodeBits(lens[sel[k / GROUP_SIZE]], syms[k]) + SymbolBits(syms, lens, sel, k + 1)
  {
    var t := sel[k / GROUP_SIZE];
    assert HasCodes(lens, codes, t);
    assert HasCode(lens[t], codes[t], syms[k]);
  }

  /** The symbols of one group, in the codes of its table. */
  method WriteGroup(w: BitWriter, syms: seq<nat>, ghost lens: seq<seq<nat>>, ghost codes: seq<seq<nat>>,
                    ghost sel: seq<nat>, group: nat, row: seq<nat>, codeRow: seq<nat>)
    requires w.Valid() && Coded(syms, lens, sel) && CodesOf(codes, lens)
    requires group < |sel| && sel[group] < |lens| == |codes| && row == lens[sel[group]] && codeRow == codes[sel[group]]
    requires group * GROUP_SIZE <= |syms|
    modifies w
    ensures w.Valid()
    ensures w.Contents() + SymbolBits(syms, lens, sel, Least(group * GROUP_SIZE + GROUP_SIZE, |syms|))
      == old(w.Contents()) + SymbolBits(syms, lens, sel, group * GROUP_SIZE)
  {
    hide SymbolBits, Coded, CodesOf, Code, ToBits, BytesToBits;
    var k := group * GROUP_SIZE;
    var end := Least(k + GROUP_SIZE, |syms|);
    while k < end
      invariant group * GROUP_SIZE <= k <= end && w.Valid()
      invariant w.Contents() + SymbolBits(syms, lens, sel, k)
        == old(w.Contents()) + SymbolBits(syms, lens, sel, group * GROUP_SIZE)
    {
      CodeOf(syms, lens, codes, sel, k);
      assert k / GROUP_SIZE == group;
      Associate(w.Contents(), CodeBits(row, syms[k]), SymbolBits(syms, lens, sel, k + 1));
      w.WriteBits(row[syms[k]], codeRow[syms[k]]);
      k := k + 1;
    }
  }

  /** Each group begins inside the symbols, and behind the last there are none. */
  lemma GroupsCover(syms: seq<nat>, lens: seq<seq<nat>>, sel: seq<nat>)
    requires Coded(syms, lens, sel)
    ensures forall g :: 0 <= g < |sel| ==> sel[g] < |lens| && g * GROUP_SIZE < |syms|
    ensures |syms| <= |sel| * GROUP_SIZE && SymbolBits(syms, lens, sel, |syms|) == []
  {
  }

  /** Every group of fifty symbols in the codes of its table. */
  method WriteSymbols(w: BitWriter, syms: seq<nat>, lens: seq<seq<nat>>, codes: seq<seq<nat>>, sel: seq<nat>)
    requires w.Valid() && Coded(syms, lens, sel) && CodesOf(codes, lens)
    modifies w
    ensures w.Valid() && w.Contents() == old(w.Contents()) + SymbolBits(syms, lens, sel, 0)
  {
    hide SymbolBits, ToBits, BytesToBits, Coded, HasCodes;
    GroupsCover(syms, lens, sel);
    ghost var all := w.Contents() + SymbolBits(syms, lens, sel, 0);
    var group := 0;
    while group < |sel|
      invariant 0 <= group <= |sel| && w.Valid()
      invariant w.Contents() + SymbolBits(syms, lens, sel, Least(group * GROUP_SIZE, |syms|)) == all
    {
      WriteGroup(w, syms, lens, codes, sel, group, lens[sel[group]], codes[sel[group]]);
      group := group + 1;
    }
    assert w.Contents() + [] == w.Contents();
  }

  // ----- the block -----

  lemma Regroup7(w: seq<bit>, a: seq<bit>, b: seq<bit>, c: seq<bit>, d: seq<bit>, e: seq<bit>, f: seq<bit>,
                 g: seq<bit>, h: seq<bit>, i: seq<bit>, j: seq<bit>)
    ensures w + a + b + c + d + e + f + g + h + i + j == w + (a + ((b + (c + (d + (e + (f + (g + (h + i))))))) + j))
  {
    assert w + a + b + c + d + e + f + g + h + i + j == w + (a + (b + (c + (d + (e + (f + (g + (h + (i + j)))))))));
  }

  /** Compress one block of RLE1 output and append it. */
  method WriteBlock(w: BitWriter, block: seq<byte>, crc: word)
    requires w.Valid() && Blockable(block)
    modifies w
    ensures w.Valid() && w.Contents() == old(w.Contents()) + (ToBits(BLOCK_MAGIC, 48) + BodyBits(block, crc))
  {
    hide CodingLens, CodingSelectors, ToBits, MapBits, SelectorBits, TablesBits, SymbolBits;
    BlockStream(block);
    BlockWritable(block, crc);
    ghost var h, before := BlockHeader(block, crc), w.Contents();
    var last, origPtr := Transform(block);
    var inUse, syms := Encode(last);
    var coding := BuildCoding(syms, |inUse| + 2);
    IdentityHas(h.selectors, |h.tables|);
    w.WriteMagic(BLOCK_MAGIC);
    w.WriteBits(32, crc);
    w.WriteBit(0);
    w.WriteBits(24, origPtr);
    WriteSymbolMap(w, inUse);
    w.WriteBits(3, coding.nGroups);
    w.WriteBits(15, |coding.selectors|);
    WriteSelectors(w, coding.selectors, coding.nGroups);
    WriteTables(w, coding.lens);
    WriteSymbols(w, syms, coding.lens, coding.codes, coding.selectors);
    Regroup7(before, ToBits(BLOCK_MAGIC, 48), ToBits(crc, 32), [0], ToBits(origPtr, 24), MapBits(Flags(inUse)),
             ToBits(coding.nGroups, 3), ToBits(|coding.selectors|, 15),
             SelectorBits(h.selectors, Identity(coding.nGroups)),
             TablesBits(coding.lens), SymbolBits(syms, coding.lens, coding.selectors, 0));
  }
}
