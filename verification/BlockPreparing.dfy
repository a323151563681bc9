/** The bit-consuming half of decoding a block: header, symbols, move-to-front and run lengths, threading. */
module BlockPreparing {
  import opened Sequences
  import opened Bits
  import opened Results
  import opened Crc
  import opened BitReading
  import opened Canonical
  import opened HuffmanTables
  import opened MoveToFront
  import opened MtfArena
  import opened Bwt
  import opened BlockFormat
  import opened BlockReading

  // ----- the header -----

  /** A header with its tables built. */
  datatype Fields = Fields(crc: word, origPtr: nat, inUse: seq<byte>, selectors: seq<nat>, tables: seq<HuffTable>)

  ghost predicate FieldsOf(f: Fields, h: Header) {
    f.crc == h.crc && f.origPtr == h.origPtr && f.inUse == h.inUse && f.selectors == h.selectors
      && AllRepresent(f.tables, h.tables)
  }

  ghost predicate HeaderRead(p: Parsed<Header>, r: Result<Fields>, h: Header, moved: int) {
    match p
    case Done(v, u) => r.Ok? && v == h && FieldsOf(r.value, h) && moved == u
    case Fail(e) => r == Err(e)
  }

  ghost const NO_HEADER := Header(0, 0, [], [], [])

  method ReadLists(c: BitCursor, crc: word, origPtr: nat, inUse: seq<byte>, nGroups: nat, nSelectors: nat)
    returns (r: Result<Fields>, ghost h: Header)
    requires c.bit <= 8 * |c.data| && nGroups > 0 && 0 < |inUse| <= 256
    modifies c
    ensures c.bit <= 8 * |c.data|
    ensures HeaderRead(ParseLists(old(c.Rest()), crc, origPtr, inUse, nGroups, nSelectors), r, h, c.bit - old(c.bit))
  {
    hide BytesToBits, ParseSelectors, ParseTables, Represents, TableLengths;
    ghost var bits, start := BytesToBits(c.data), c.bit;
    h := NO_HEADER;
    var selectors := ReadSelectors(c, nSelectors, nGroups);
    if selectors.Err? { return Err(selectors.error), h; }
    DropSum(bits, start, c.bit - start);
    var tables, lens := ReadTables(c, nGroups, |inUse| + 2);
    if tables.Err? { return Err(tables.error), h; }
    h := Header(crc, origPtr, inUse, selectors.value, lens);
    r := Ok(Fields(crc, origPtr, inUse, selectors.value, tables.value));
  }

  method ReadCounts(c: BitCursor, crc: word, origPtr: nat, inUse: seq<byte>)
    returns (r: Result<Fields>, ghost h: Header)
    requires c.bit <= 8 * |c.data| && 0 < |inUse| <= 256
    modifies c
    ensures c.bit <= 8 * |c.data|
    ensures HeaderRead(ParseCounts(old(c.Rest()), crc, origPtr, inUse), r, h, c.bit - old(c.bit))
  {
    hide BytesToBits, ParseLists, AllRepresent;
    ghost var bits, start := BytesToBits(c.data), c.bit;
    h := NO_HEADER;
    var nGroups := c.Read(3);
    if nGroups.Err? { return Err(nGroups.error), h; }
    if nGroups.value < 2 || nGroups.value > 6 { return Err(InvalidHuffman), h; }
    DropSum(bits, start, 3);
    var nSelectors := c.Read(15);
    if nSelectors.Err? { return Err(nSelectors.error), h; }
    if nSelectors.value == 0 { return Err(InvalidBlock), h; }
    DropSum(bits, start + 3, 15);
    r, h := ReadLists(c, crc, origPtr, inUse, nGroups.value, nSelectors.value);
  }

  method ReadMap(c: BitCursor, crc: word, origPtr: nat) returns (r: Result<Fields>, ghost h: Header)
    requires c.bit <= 8 * |c.data|
    modifies c
    ensures c.bit <= 8 * |c.data|
    ensures HeaderRead(ParseMap(old(c.Rest()), crc, origPtr), r, h, c.bit - old(c.bit))
  {
    hide BytesToBits, ParseInUse, ParseCounts, AllRepresent;
    ghost var bits, start := BytesToBits(c.data), c.bit;
    h := NO_HEADER;
    var inUse := ReadInUse(c);
    if inUse.Err? { return Err(inUse.error), h; }
    if |inUse.value| == 0 { return Err(InvalidBlock), h; }
    DropSum(bits, start, c.bit - start);
    r, h := ReadCounts(c, crc, origPtr, inUse.value);
  }

  method ReadPointer(c: BitCursor, crc: word) returns (r: Result<Fields>, ghost h: Header)
    requires c.bit <= 8 * |c.data|
    modifies c
    ensures c.bit <= 8 * |c.data|
    ensures HeaderRead(ParsePointer(old(c.Rest()), crc), r, h, c.bit - old(c.bit))
  {
    hide BytesToBits, ParseMap, AllRepresent;
    ghost var bits, start := BytesToBits(c.data), c.bit;
    h := NO_HEADER;
    var randomized := c.ReadBit();
    if randomized.Err? { return Err(randomized.error), h; }
    if randomized.value != 0 { return Err(RandomizedBlock), h; }
    DropSum(bits, start, 1);
    var origPtr := c.Read(24);
    if origPtr.Err? { return Err(origPtr.error), h; }
    DropSum(bits, start + 1, 24);
    r, h := ReadMap(c, crc, origPtr.value);
  }

  method ReadHeader(c: BitCursor) returns (r: Result<Fields>, ghost h: Header)
    requires c.bit <= 8 * |c.data|
    modifies c
    ensures c.bit <= 8 * |c.data|
    ensures HeaderRead(ParseHeader(old(c.Rest())), r, h, c.bit - old(c.bit))
  {
    hide BytesToBits, ParsePointer, AllRepresent;
    ghost var bits, start := BytesToBits(c.data), c.bit;
    h := NO_HEADER;
    var n := 32;
    Pow2Words(n);
    var crc := c.Read(n);
    if crc.Err? { return Err(crc.error), h; }
    DropSum(bits, start, 32);
    r, h := ReadPointer(c, crc.value);
  }

  // ----- one symbol -----

  /** Entry `c + 1` counts the bytes `c`. */
  ghost predicate Tally(cftab: array<nat>, bytes: seq<byte>)
    reads cftab
  {
    cftab.Length == 257 && cftab[0] == 0 && forall c: nat :: c < 256 ==> cftab[c + 1] == CountEq(bytes, c)
  }

  lemma {:induction false} CountRepeat(bytes: seq<byte>, b: byte, n: nat, c: nat)
    ensures CountEq(bytes + Repeat(b, n), c) == CountEq(bytes, c) + if b == c then n else 0
    decreases n
  {
    if n == 0 {
      assert bytes + Repeat(b, 0) == bytes;
    } else {
      CountRepeat(bytes, b, n - 1, c);
      assert (bytes + Repeat(b, n))[..|bytes| + n - 1] == bytes + Repeat(b, n - 1);
    }
  }

  method TallyRun(cftab: array<nat>, ghost bytes: seq<byte>, b: byte, n: nat)
    requires Tally(cftab, bytes)
    modifies cftab
    ensures Tally(cftab, bytes + Repeat(b, n))
  {
    forall c: nat | c < 256 ensures CountEq(bytes + Repeat(b, n), c) == CountEq(bytes, c) + if b == c then n else 0 {
      CountRepeat(bytes, b, n, c);
    }
    cftab[b + 1] := cftab[b + 1] + n;
  }

  datatype Status = Going | Ended | Failed(error: Error)

  /** The locals of the symbol loop against the model's progress. */
  ghost predicate Tracks(p: Progress, run: nat, runBit: nat, bytes: seq<byte>, arena: Arena, cftab: array<nat>)
    reads arena, arena.cells, arena.base, cftab
  {
    && p.run == run && p.runBit == runBit && p.bytes == bytes && Sound(p) && arena.Valid(p.list) && Tally(cftab, bytes)
  }

  ghost predicate Apart(arena: Arena, cftab: array<nat>) {
    arena.base != cftab
  }

  /** What one symbol does. */
  ghost predicate Did(o: Outcome, status: Status, run: nat, runBit: nat, bytes: seq<byte>, arena: Arena,
                      cftab: array<nat>)
    reads arena, arena.cells, arena.base, cftab
  {
    match o
    case Reject(e) => status == Failed(e)
    case Stop(b) => status == Ended && bytes == b && Tally(cftab, bytes)
    case More(q) => status == Going && Tracks(q, run, runBit, bytes, arena, cftab)
  }

  method ApplySymbol(sym: nat, run0: nat, runBit0: nat, bytes0: seq<byte>, arena: Arena, cftab: array<nat>, nInUse: nat,
                     size: nat, ghost p: Progress)
    returns (status: Status, run: nat, runBit: nat, bytes: seq<byte>)
    requires Tracks(p, run0, runBit0, bytes0, arena, cftab) && Apart(arena, cftab) && nInUse <= 256
    modifies arena.cells, arena.base, cftab
    ensures Did(Symbol(p, sym, nInUse, size), status, run, runBit, bytes, arena, cftab)
  {
    hide ToFront, Repeat, CountEq;
    status, run, runBit, bytes := Going, run0, runBit0, bytes0;
    if sym <= 1 {
      run := run + (sym + 1) * Pow2(runBit);
      runBit := runBit + 1;
      if runBit >= 32 || run > size {
        status := Failed(BlockOverflow);
      } else {
        SymbolSound(p, sym, nInUse, size);
      }
      return;
    }
    RepeatNone(bytes0, p.list[0]);
    if run > 0 {
      var b := arena.First(p.list);
      if |bytes| + run > size {
        return Failed(BlockOverflow), run, runBit, bytes;
      }
      TallyRun(cftab, bytes, b, run);
      bytes := bytes + Repeat(b, run);
      run, runBit := 0, 0;
    }
    if sym == nInUse + 1 {
      return Ended, run, runBit, bytes;
    }
    var nn := sym - 1;
    if nn >= nInUse {
      return Failed(InvalidBlock), run, runBit, bytes;
    }
    var b := arena.Front(nn, p.list);
    if |bytes| + 1 > size {
      return Failed(BlockOverflow), run, runBit, bytes;
    }
    TallyRun(cftab, bytes, b, 1);
    RepeatOne(b);
    bytes := bytes + [b];
    SymbolSound(p, sym, nInUse, size);
  }

  lemma RepeatNone(bytes: seq<byte>, b: byte)
    ensures bytes + Repeat(b, 0) == bytes
  {
  }

  lemma RepeatOne(b: byte)
    ensures Repeat(b, 1) == [b]
  {
  }

  // ----- the symbol loop -----

  /** Where the group counters stand before symbol number `k`. */
  ghost predicate GroupAt(selIdx: nat, groupCount: nat, k: nat) {
    groupCount < GROUP_SIZE && selIdx * GROUP_SIZE == k + groupCount
  }

  lemma GroupsFrom()
    ensures GroupAt(0, 0, 0)
  {
  }

  /** Symbol number `k` is coded with the table selected last, or, when that one is used up, with the next. */
  lemma GroupNext(selIdx: nat, groupCount: nat, k: nat)
    requires GroupAt(selIdx, groupCount, k)
    ensures groupCount == 0 ==> k / GROUP_SIZE == selIdx && GroupAt(selIdx + 1, GROUP_SIZE - 1, k + 1)
    ensures groupCount > 0 ==> selIdx > 0 && k / GROUP_SIZE == selIdx - 1 && GroupAt(selIdx, groupCount - 1, k + 1)
  {
  }

  lemma FieldsAgree(f: Fields, h: Header)
    requires SoundHeader(h) && FieldsOf(f, h)
    ensures f.selectors == h.selectors && f.inUse == h.inUse && 0 < |h.inUse| <= 256
  {
  }

  /** The parse of the rest, seen from the start. */
  ghost predicate Remaining(want: Parsed<seq<byte>>, s: seq<bit>, h: Header, k: nat, p: Progress, size: nat,
                            moved: int) {
    && SoundHeader(h) && |p.list| == 256 && moved >= 0
    && want == Plus(ParseSymbols(s, h, k, p, size), moved)
  }

  /** One symbol decoded and applied moves the parse on. */
  lemma SymbolAdvance(want: Parsed<seq<byte>>, bits: seq<bit>, start: nat, at: nat, next: nat, h: Header, k: nat,
                      p: Progress, size: nat, read: Result<nat>)
    requires start <= at <= next <= |bits| && Remaining(want, bits[at..], h, k, p, size, at - start)
    requires k / GROUP_SIZE < |h.selectors| && Reads(TableFor(h, k), bits[at..], read, next - at)
    ensures |p.list| == 256 && |h.inUse| <= 256
    ensures read.Err? ==> want == Fail(read.error)
    ensures read.Ok? ==>
      match Symbol(p, read.value, |h.inUse|, size)
      case Reject(e) => want == Fail(e)
      case Stop(bytes) => want == Done(bytes, next - start)
      case More(q) => at < next && Remaining(want, bits[next..], h, k + 1, q, size, next - start)
  {
    DropSum(bits, at, next - at);
  }

  lemma NoSelector(want: Parsed<seq<byte>>, s: seq<bit>, h: Header, k: nat, p: Progress, size: nat, moved: int)
    requires Remaining(want, s, h, k, p, size, moved) && k / GROUP_SIZE >= |h.selectors|
    ensures want == Fail(InvalidBlock)
  {
  }

  /** The built table a symbol needs stands for the lengths it is coded with. */
  lemma TableReady(f: Fields, h: Header, k: nat)
    requires SoundHeader(h) && FieldsOf(f, h) && k / GROUP_SIZE < |f.selectors|
    ensures f.selectors[k / GROUP_SIZE] < |f.tables|
      && Represents(f.tables[f.selectors[k / GROUP_SIZE]], TableFor(h, k)) && |TableFor(h, k)| <= 258
  {
    hide Represents;
  }

  /** Decode and apply symbols up to the end mark; `end` is where the bits after it begin. */
  method ReadSymbols(data: seq<byte>, bit: nat, f: Fields, size: nat, cftab: array<nat>, ghost h: Header)
    returns (r: Result<seq<byte>>, end: nat)
    requires bit <= 8 * |data| && SoundHeader(h) && FieldsOf(f, h) && Tally(cftab, [])
    modifies cftab
    ensures Agrees(ParseSymbols(BytesToBits(data)[bit..], h, 0, Fresh(h), size), r, end - bit)
    ensures r.Ok? ==> Tally(cftab, r.value) && end <= 8 * |data|
  {
    hide BytesToBits, Symbol, ParseSymbols, Represents, DecodeSymbol, Padded, TableFor, TableLengths, AllRepresent,
         Remaining, Tracks, Window, Value, GroupAt, SoundHeader, FieldsOf;
    FieldsAgree(f, h);
    var selIdx, groupCount, curTable := 0, 0, 0;
    var run, runBit, bytes: seq<byte> := 0, 0, [];
    var arena := new Arena(f.inUse);
    var reservoir := new BitReservoir(data, bit);
    ghost var bits, p, k := BytesToBits(data), Fresh(h), 0;
    ghost var want := ParseSymbols(bits[bit..], h, 0, p, size);
    RemainingAll(bits[bit..], h, p, size);
    end := bit;
    GroupsFrom();
    TracksNothing(h, arena, cftab);
    while true
      invariant reservoir.Valid() && reservoir.data == data && bit <= reservoir.pos <= 8 * |data|
      invariant Tracks(p, run, runBit, bytes, arena, cftab) && Apart(arena, cftab)
      invariant Remaining(want, bits[reservoir.pos..], h, k, p, size, reservoir.pos - bit)
      invariant GroupAt(selIdx, groupCount, k)
        && (groupCount > 0 ==> 0 < selIdx <= |f.selectors| && curTable == f.selectors[selIdx - 1])
      decreases 8 * |data| - reservoir.pos
    {
      GroupNext(selIdx, groupCount, k);
      if groupCount == 0 {
        if selIdx >= |f.selectors| {
          NoSelector(want, bits[reservoir.pos..], h, k, p, size, reservoir.pos - bit);
          return Err(InvalidBlock), end;
        }
        curTable := f.selectors[selIdx];
        selIdx := selIdx + 1;
        groupCount := GROUP_SIZE;
      }
      groupCount := groupCount - 1;
      ghost var at := reservoir.pos;
      TableReady(f, h, k);
      var sym := Decode(f.tables[curTable], TableFor(h, k), reservoir);
      SymbolAdvance(want, bits, bit, at, if sym.Ok? then reservoir.pos else at, h, k, p, size, sym);
      if sym.Err? { return Err(sym.error), end; }
      ghost var outcome := Symbol(p, sym.value, |h.inUse|, size);
      var status;
      status, run, runBit, bytes := ApplySymbol(sym.value, run, runBit, bytes, arena, cftab, |f.inUse|, size, p);
      match status {
        case Failed(e) => return Err(e), end;
        case Ended => return Ok(bytes), reservoir.pos;
        case Going =>
          p := outcome.next;
          k := k + 1;
      }
    }
  }

  lemma RemainingAll(s: seq<bit>, h: Header, p: Progress, size: nat)
    requires SoundHeader(h) && |p.list| == 256
    ensures Remaining(ParseSymbols(s, h, 0, p, size), s, h, 0, p, size, 0)
  {
    hide ParseSymbols;
  }

  lemma TracksNothing(h: Header, arena: Arena, cftab: array<nat>)
    requires |h.inUse| <= 256 && arena.Valid(Fresh(h).list) && Tally(cftab, [])
    ensures Tracks(Fresh(h), 0, 0, [], arena, cftab)
  {
    assert Pow2(0) == 1;
  }
}
