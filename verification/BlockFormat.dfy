/** What the bits of one block, after its magic, mean.

    Every function here reads from the front of the bits that are left. A result other than
    `Truncated` stands however the bits go on; that is what lets a decoder start before all of
    its input has arrived.
 */
module BlockFormat {
  import opened Sequences
  import opened Bits
  import opened Results
  import opened Permutations
  import opened Crc
  import opened BitReading
  import opened Canonical
  import opened HuffmanTables
  import opened MoveToFront
  import opened Walking

  /** The same result, further into the input. */
  function Plus<T>(p: Parsed<T>, used: nat): Parsed<T> {
    match p
    case Done(v, u) => Done(v, used + u)
    case Fail(e) => Fail(e)
  }

  /** `head` in front of the list that `p` reads. */
  function Prefixed<T>(head: seq<T>, used: nat, p: Parsed<seq<T>>): Parsed<seq<T>> {
    match p
    case Done(v, u) => Done(head + v, used + u)
    case Fail(e) => Fail(e)
  }

  /** Settled: more input would not change it. */
  predicate Settled<T(==)>(p: Parsed<T>) {
    p != Fail(Truncated)
  }

  // ----- the symbol map -----

  /** The 256 flags: 16 bits for every group whose own flag is set. */
  function ParseFlags(s: seq<bit>, groups: seq<bit>): (r: Parsed<seq<bit>>)
    ensures r.Done? ==> r.used <= |s| && |r.value| == 16 * |groups|
    decreases |groups|
  {
    if groups == [] then Done([], 0)
    else if groups[0] == 0 then Prefixed(Zeros(16), 0, ParseFlags(s, groups[1..]))
    else if |s| < 16 then Fail(Truncated)
    else Prefixed(s[..16], 16, ParseFlags(s[16..], groups[1..]))
  }

  lemma {:induction false} ParseFlagsExtends(s: seq<bit>, groups: seq<bit>, t: seq<bit>)
    requires Settled(ParseFlags(s, groups))
    ensures ParseFlags(s + t, groups) == ParseFlags(s, groups)
    decreases |groups|
  {
    if groups != [] {
      if groups[0] == 0 {
        ParseFlagsExtends(s, groups[1..], t);
      } else {
        DropAppend(s, t, 16);
        ParseFlagsExtends(s[16..], groups[1..], t);
      }
    }
  }

  /** The positions of the flags that are set, ascending. */
  function Listed(flags: seq<bit>): (r: seq<byte>)
    requires |flags| <= 256
    ensures |r| <= |flags|
  {
    if flags == [] then [] else
      var last: byte := |flags| - 1;
      Listed(flags[..last]) + if flags[last] == 1 then [last] else []
  }

  /** The list is ascending and holds exactly the flags that are set. */
  lemma {:induction false} ListedAscends(flags: seq<bit>)
    requires |flags| <= 256
    ensures forall i, j :: 0 <= i < j < |Listed(flags)| ==> Listed(flags)[i] < Listed(flags)[j]
    ensures forall x: byte :: x in Listed(flags) <==> x < |flags| && flags[x] == 1
  {
    if flags != [] {
      var last := |flags| - 1;
      ListedAscends(flags[..last]);
      var l := Listed(flags[..last]);
      forall i | 0 <= i < |l| ensures l[i] < last { assert l[i] in l; }
    }
  }

  /** The byte values in use. */
  function ParseInUse(s: seq<bit>): (r: Parsed<seq<byte>>)
    ensures r.Done? ==> r.used <= |s| && |r.value| <= 256
  {
    if |s| < 16 then Fail(Truncated)
    else match ParseFlags(s[16..], s[..16])
      case Fail(e) => Fail(e)
      case Done(flags, u) => Done(Listed(flags), 16 + u)
  }

  lemma ParseInUseExtends(s: seq<bit>, t: seq<bit>)
    requires Settled(ParseInUse(s))
    ensures ParseInUse(s + t) == ParseInUse(s)
  {
    DropAppend(s, t, 16);
    ParseFlagsExtends(s[16..], s[..16], t);
  }

  // ----- selectors -----

  /** The number of one bits before the first zero; at most `n - 1`. */
  function ParseUnary(s: seq<bit>, j: nat, n: nat): (r: Parsed<nat>)
    ensures r.Done? ==> 1 <= r.used <= |s| && j <= r.value && (j < n ==> r.value < n)
    decreases |s|
  {
    if s == [] then Fail(Truncated)
    else if s[0] == 0 then Done(j, 1)
    else if j + 1 >= n then Fail(InvalidBlock)
    else Plus(ParseUnary(s[1..], j + 1, n), 1)
  }

  lemma {:induction false} ParseUnaryExtends(s: seq<bit>, j: nat, n: nat, t: seq<bit>)
    requires Settled(ParseUnary(s, j, n))
    ensures ParseUnary(s + t, j, n) == ParseUnary(s, j, n)
    decreases |s|
  {
    if s != [] && s[0] == 1 && j + 1 < n {
      DropAppend(s, t, 1);
      ParseUnaryExtends(s[1..], j + 1, n, t);
    }
  }

  /** Table numbers, each coded as its place in a move-to-front list. */
  function ParseSelectors(s: seq<bit>, count: nat, pos: seq<nat>): (r: Parsed<seq<nat>>)
    requires pos != []
    ensures r.Done? ==> r.used <= |s| && |r.value| == count
    decreases count
  {
    if count == 0 then Done([], 0)
    else match ParseUnary(s, 0, |pos|)
      case Fail(e) => Fail(e)
      case Done(j, u) => Prefixed([pos[j]], u, ParseSelectors(s[u..], count - 1, ToFront(pos, j)))
  }

  lemma {:induction false} ParseSelectorsExtends(s: seq<bit>, count: nat, pos: seq<nat>, t: seq<bit>)
    requires pos != [] && Settled(ParseSelectors(s, count, pos))
    ensures ParseSelectors(s + t, count, pos) == ParseSelectors(s, count, pos)
    decreases count
  {
    if count > 0 {
      ParseUnaryExtends(s, 0, |pos|, t);
      match ParseUnary(s, 0, |pos|)
      case Fail(_) =>
      case Done(j, u) =>
        DropAppend(s, t, u);
        ParseSelectorsExtends(s[u..], count - 1, ToFront(pos, j), t);
    }
  }

  lemma {:induction false} SelectorsBelow(s: seq<bit>, count: nat, pos: seq<nat>, n: nat)
    requires pos != [] && forall i :: 0 <= i < |pos| ==> pos[i] < n
    ensures var r := ParseSelectors(s, count, pos); r.Done? ==> forall i :: 0 <= i < |r.value| ==> r.value[i] < n
    decreases count
  {
    if count > 0 {
      match ParseUnary(s, 0, |pos|)
      case Fail(_) =>
      case Done(j, u) =>
        SelectorsBelow(s[u..], count - 1, ToFront(pos, j), n);
    }
  }

  // ----- code lengths -----

  /** One length as a walk up and down from the previous one. */
  function ParseLength(s: seq<bit>, curr: int): (r: Parsed<nat>)
    ensures r.Done? ==> 1 <= r.used <= |s| && 1 <= r.value <= 20
    decreases |s|
  {
    if curr < 1 || curr > 20 then Fail(InvalidHuffman)
    else if s == [] then Fail(Truncated)
    else if s[0] == 0 then Done(curr, 1)
    else if |s| < 2 then Fail(Truncated)
    else Plus(ParseLength(s[2..], if s[1] == 0 then curr + 1 else curr - 1), 2)
  }

  lemma {:induction false} ParseLengthExtends(s: seq<bit>, curr: int, t: seq<bit>)
    requires Settled(ParseLength(s, curr))
    ensures ParseLength(s + t, curr) == ParseLength(s, curr)
    decreases |s|
  {
    if 1 <= curr <= 20 && s[0] == 1 {
      DropAppend(s, t, 2);
      ParseLengthExtends(s[2..], if s[1] == 0 then curr + 1 else curr - 1, t);
    }
  }

  function ParseLengths(s: seq<bit>, n: nat, curr: int): (r: Parsed<seq<nat>>)
    ensures r.Done? ==> r.used <= |s| && |r.value| == n
    ensures r.Done? ==> forall i :: 0 <= i < n ==> 1 <= r.value[i] <= 20
    decreases n
  {
    if n == 0 then Done([], 0)
    else match ParseLength(s, curr)
      case Fail(e) => Fail(e)
      case Done(l, u) => Prefixed([l], u, ParseLengths(s[u..], n - 1, l))
  }

  lemma {:induction false} ParseLengthsExtends(s: seq<bit>, n: nat, curr: int, t: seq<bit>)
    requires Settled(ParseLengths(s, n, curr))
    ensures ParseLengths(s + t, n, curr) == ParseLengths(s, n, curr)
    decreases n
  {
    if n > 0 {
      ParseLengthExtends(s, curr, t);
      match ParseLength(s, curr)
      case Fail(_) =>
      case Done(l, u) =>
        DropAppend(s, t, u);
        ParseLengthsExtends(s[u..], n - 1, l, t);
    }
  }

  /** One table: a five-bit start, then one length a symbol. */
  function ParseTable(s: seq<bit>, n: nat): (r: Parsed<seq<nat>>)
    ensures r.Done? ==> r.used <= |s| && |r.value| == n
    ensures r.Done? ==> forall i :: 0 <= i < n ==> 1 <= r.value[i] <= 20
  {
    match ReadBits(s, 5)
    case Fail(e) => Fail(e)
    case Done(curr, _) => Plus(ParseLengths(s[5..], n, curr), 5)
  }

  lemma ParseTableExtends(s: seq<bit>, n: nat, t: seq<bit>)
    requires Settled(ParseTable(s, n))
    ensures ParseTable(s + t, n) == ParseTable(s, n)
  {
    ReadBitsExtends(s, t, 5);
    DropAppend(s, t, 5);
    ParseLengthsExtends(s[5..], n, ReadBits(s, 5).value, t);
  }

  function ParseTables(s: seq<bit>, count: nat, n: nat): (r: Parsed<seq<seq<nat>>>)
    ensures r.Done? ==> r.used <= |s| && |r.value| == count
    ensures r.Done? ==> forall i :: 0 <= i < count ==> TableLengths(r.value[i], n)
    decreases count
  {
    if count == 0 then Done([], 0)
    else match ParseTable(s, n)
      case Fail(e) => Fail(e)
      case Done(lens, u) => Prefixed([lens], u, ParseTables(s[u..], count - 1, n))
  }

  /** Lengths the delta walk can produce for an alphabet of `n`. */
  predicate TableLengths(lens: seq<nat>, n: nat) {
    |lens| == n && forall i :: 0 <= i < n ==> 1 <= lens[i] <= 20
  }

  lemma {:induction false} ParseTablesExtends(s: seq<bit>, count: nat, n: nat, t: seq<bit>)
    requires Settled(ParseTables(s, count, n))
    ensures ParseTables(s + t, count, n) == ParseTables(s, count, n)
    decreases count
  {
    if count > 0 {
      ParseTableExtends(s, n, t);
      match ParseTable(s, n)
      case Fail(_) =>
      case Done(lens, u) =>
        DropAppend(s, t, u);
        ParseTablesExtends(s[u..], count - 1, n, t);
    }
  }

  // ----- everything before the symbols -----

  datatype Header = Header(crc: word, origPtr: nat, inUse: seq<byte>, selectors: seq<nat>, tables: seq<seq<nat>>)

  lemma IdentityHas(sel: seq<nat>, n: nat)
    requires forall i :: 0 <= i < |sel| ==> sel[i] < n
    ensures forall i :: 0 <= i < |sel| ==> sel[i] in Identity(n)
  {
    forall i | 0 <= i < |sel| ensures sel[i] in Identity(n) { assert Identity(n)[sel[i]] == sel[i]; }
  }

  predicate SoundHeader(h: Header) {
    && 0 < |h.inUse| <= 256 && h.tables != []
    && (forall i :: 0 <= i < |h.tables| ==> TableLengths(h.tables[i], |h.inUse| + 2))
    && (forall i :: 0 <= i < |h.selectors| ==> h.selectors[i] < |h.tables|)
  }

  function ParseLists(s: seq<bit>, crc: word, origPtr: nat, inUse: seq<byte>, nGroups: nat,
                      nSelectors: nat): (r: Parsed<Header>)
    requires nGroups > 0 && 0 < |inUse| <= 256
    ensures r.Done? ==> r.used <= |s| && SoundHeader(r.value)
  {
    match ParseSelectors(s, nSelectors, Identity(nGroups))
    case Fail(e) => Fail(e)
    case Done(selectors, u) =>
      SelectorsBelow(s, nSelectors, Identity(nGroups), nGroups);
      match ParseTables(s[u..], nGroups, |inUse| + 2)
      case Fail(e) => Fail(e)
      case Done(tables, u') =>
        assert forall i :: 0 <= i < |selectors| ==> selectors[i] < nGroups;
        assert forall i :: 0 <= i < |tables| ==> TableLengths(tables[i], |inUse| + 2);
        Done(Header(crc, origPtr, inUse, selectors, tables), u + u')
  }

  function ParseCounts(s: seq<bit>, crc: word, origPtr: nat, inUse: seq<byte>): (r: Parsed<Header>)
    requires 0 < |inUse| <= 256
    ensures r.Done? ==> r.used <= |s| && SoundHeader(r.value)
  {
    match ReadBits(s, 3)
    case Fail(e) => Fail(e)
    case Done(nGroups, _) =>
      if nGroups < 2 || nGroups > 6 then Fail(InvalidHuffman)
      else match ReadBits(s[3..], 15)
        case Fail(e) => Fail(e)
        case Done(nSelectors, _) =>
          if nSelectors == 0 then Fail(InvalidBlock)
          else Plus(ParseLists(s[3..][15..], crc, origPtr, inUse, nGroups, nSelectors), 18)
  }

  function ParseMap(s: seq<bit>, crc: word, origPtr: nat): (r: Parsed<Header>)
    ensures r.Done? ==> r.used <= |s| && SoundHeader(r.value)
  {
    match ParseInUse(s)
    case Fail(e) => Fail(e)
    case Done(inUse, u) =>
      if inUse == [] then Fail(InvalidBlock) else Plus(ParseCounts(s[u..], crc, origPtr, inUse), u)
  }

  function ParsePointer(s: seq<bit>, crc: word): (r: Parsed<Header>)
    ensures r.Done? ==> r.used <= |s| && SoundHeader(r.value)
  {
    match ReadBits(s, 1)
    case Fail(e) => Fail(e)
    case Done(randomized, _) =>
      if randomized != 0 then Fail(RandomizedBlock)
      else match ReadBits(s[1..], 24)
        case Fail(e) => Fail(e)
        case Done(origPtr, _) => Plus(ParseMap(s[1..][24..], crc, origPtr), 25)
  }

  function ParseHeader(s: seq<bit>): (r: Parsed<Header>)
    ensures r.Done? ==> r.used <= |s| && SoundHeader(r.value)
  {
    match ReadBits(s, 32)
    case Fail(e) => Fail(e)
    case Done(crc, _) =>
      var n := 32;
      Pow2Words(n);
      Plus(ParsePointer(s[32..], crc), 32)
  }

  lemma ParseListsExtends(s: seq<bit>, crc: word, origPtr: nat, inUse: seq<byte>, nGroups: nat, nSelectors: nat,
                          t: seq<bit>)
    requires nGroups > 0 && 0 < |inUse| <= 256 && Settled(ParseLists(s, crc, origPtr, inUse, nGroups, nSelectors))
    ensures ParseLists(s + t, crc, origPtr, inUse, nGroups, nSelectors)
      == ParseLists(s, crc, origPtr, inUse, nGroups, nSelectors)
  {
    ParseSelectorsExtends(s, nSelectors, Identity(nGroups), t);
    match ParseSelectors(s, nSelectors, Identity(nGroups))
    case Fail(_) =>
    case Done(selectors, u) =>
      DropAppend(s, t, u);
      ParseTablesExtends(s[u..], nGroups, |inUse| + 2, t);
  }

  lemma ParseCountsExtends(s: seq<bit>, crc: word, origPtr: nat, inUse: seq<byte>, t: seq<bit>)
    requires 0 < |inUse| <= 256 && Settled(ParseCounts(s, crc, origPtr, inUse))
    ensures ParseCounts(s + t, crc, origPtr, inUse) == ParseCounts(s, crc, origPtr, inUse)
  {
    ReadBitsExtends(s, t, 3);
    DropAppend(s, t, 3);
    var nGroups := ReadBits(s, 3).value;
    if 2 <= nGroups <= 6 {
      ReadBitsExtends(s[3..], t, 15);
      DropAppend(s[3..], t, 15);
      var nSelectors := ReadBits(s[3..], 15).value;
      if nSelectors > 0 { ParseListsExtends(s[3..][15..], crc, origPtr, inUse, nGroups, nSelectors, t); }
    }
  }

  lemma ParseMapExtends(s: seq<bit>, crc: word, origPtr: nat, t: seq<bit>)
    requires Settled(ParseMap(s, crc, origPtr))
    ensures ParseMap(s + t, crc, origPtr) == ParseMap(s, crc, origPtr)
  {
    ParseInUseExtends(s, t);
    match ParseInUse(s)
    case Fail(_) =>
    case Done(inUse, u) =>
      DropAppend(s, t, u);
      if inUse != [] { ParseCountsExtends(s[u..], crc, origPtr, inUse, t); }
  }

  lemma ParsePointerExtends(s: seq<bit>, crc: word, t: seq<bit>)
    requires Settled(ParsePointer(s, crc))
    ensures ParsePointer(s + t, crc) == ParsePointer(s, crc)
  {
    ReadBitsExtends(s, t, 1);
    DropAppend(s, t, 1);
    if ReadBits(s, 1).value == 0 {
      ReadBitsExtends(s[1..], t, 24);
      DropAppend(s[1..], t, 24);
      ParseMapExtends(s[1..][24..], crc, ReadBits(s[1..], 24).value, t);
    }
  }

  lemma ParseHeaderExtends(s: seq<bit>, t: seq<bit>)
    requires Settled(ParseHeader(s))
    ensures ParseHeader(s + t) == ParseHeader(s)
  {
    ReadBitsExtends(s, t, 32);
    DropAppend(s, t, 32);
    var n := 32;
    Pow2Words(n);
    ParsePointerExtends(s[32..], ReadBits(s, 32).value, t);
  }

  // ----- the symbols -----

  /** The table symbol number `k` is coded with. */
  function TableFor(h: Header, k: nat): seq<nat>
    requires SoundHeader(h) && k / GROUP_SIZE < |h.selectors|
  {
    h.tables[h.selectors[k / GROUP_SIZE]]
  }

  /** The symbols from number `k` on; every fifty of them have a table. */
  function ParseSymbols(s: seq<bit>, h: Header, k: nat, p: Progress, size: nat): (r: Parsed<seq<byte>>)
    requires SoundHeader(h) && |p.list| == 256
    ensures r.Done? ==> r.used <= |s|
    decreases |s|
  {
    if k / GROUP_SIZE >= |h.selectors| then Fail(InvalidBlock)
    else match DecodeSymbol(TableFor(h, k), s)
      case Fail(e) => Fail(e)
      case Done(sym, u) =>
        match Symbol(p, sym, |h.inUse|, size)
        case Reject(e) => Fail(e)
        case Stop(bytes) => Done(bytes, u)
        case More(q) => Plus(ParseSymbols(s[u..], h, k + 1, q, size), u)
  }

  lemma {:induction false} ParseSymbolsExtends(s: seq<bit>, h: Header, k: nat, p: Progress, size: nat, t: seq<bit>)
    requires SoundHeader(h) && |p.list| == 256 && Settled(ParseSymbols(s, h, k, p, size))
    ensures ParseSymbols(s + t, h, k, p, size) == ParseSymbols(s, h, k, p, size)
    decreases |s|
  {
    if k / GROUP_SIZE < |h.selectors| {
      var lens := TableFor(h, k);
      DecodeSymbolExtends(lens, s, t);
      match DecodeSymbol(lens, s)
      case Fail(_) =>
      case Done(sym, u) =>
        DropAppend(s, t, u);
        match Symbol(p, sym, |h.inUse|, size)
        case Reject(_) =>
        case Stop(_) =>
        case More(q) => ParseSymbolsExtends(s[u..], h, k + 1, q, size, t);
    }
  }

  /** The bytes decoded hold at least those already out and the pending run, and never exceed the size. */
  lemma {:induction false} ParseSymbolsFits(s: seq<bit>, h: Header, k: nat, p: Progress, size: nat)
    requires SoundHeader(h) && |p.list| == 256 && ParseSymbols(s, h, k, p, size).Done?
    ensures |p.bytes| + p.run <= |ParseSymbols(s, h, k, p, size).value|
    ensures |p.bytes| <= size ==> |ParseSymbols(s, h, k, p, size).value| <= size
    decreases |s|
  {
    hide DecodeSymbol, TableFor, ToFront, Repeat, Pow2;
    var lens := TableFor(h, k);
    var sym, u := DecodeSymbol(lens, s).value, DecodeSymbol(lens, s).used;
    SymbolGrows(p, sym, |h.inUse|, size);
    match Symbol(p, sym, |h.inUse|, size)
    case Stop(_) =>
    case More(q) => ParseSymbolsFits(s[u..], h, k + 1, q, size);
  }

  /** Success under a small size is the same success under a larger one. */
  lemma {:induction false} ParseSymbolsLarger(s: seq<bit>, h: Header, k: nat, p: Progress, small: nat, large: nat)
    requires SoundHeader(h) && |p.list| == 256 && small <= large && ParseSymbols(s, h, k, p, small).Done?
    ensures ParseSymbols(s, h, k, p, large) == ParseSymbols(s, h, k, p, small)
    decreases |s|
  {
    hide DecodeSymbol, TableFor, ToFront, Repeat, Pow2;
    var lens := TableFor(h, k);
    var sym, u := DecodeSymbol(lens, s).value, DecodeSymbol(lens, s).used;
    SymbolSize(p, sym, |h.inUse|, small, large);
    match Symbol(p, sym, |h.inUse|, small)
    case Stop(_) =>
    case More(q) => ParseSymbolsLarger(s[u..], h, k + 1, q, small, large);
  }

  /** Success under a large size whose bytes fit a smaller one is the same success under that one. */
  lemma {:induction false} ParseSymbolsSmaller(s: seq<bit>, h: Header, k: nat, p: Progress, small: nat, large: nat)
    requires SoundHeader(h) && |p.list| == 256 && small <= large && ParseSymbols(s, h, k, p, large).Done?
    requires |ParseSymbols(s, h, k, p, large).value| <= small
    ensures ParseSymbols(s, h, k, p, small) == ParseSymbols(s, h, k, p, large)
    decreases |s|
  {
    hide DecodeSymbol, TableFor, ToFront, Repeat, Pow2;
    var lens := TableFor(h, k);
    var sym, u := DecodeSymbol(lens, s).value, DecodeSymbol(lens, s).used;
    SymbolSize(p, sym, |h.inUse|, small, large);
    match Symbol(p, sym, |h.inUse|, large)
    case Stop(_) =>
    case More(q) =>
      ParseSymbolsFits(s[u..], h, k + 1, q, large);
      ParseSymbolsSmaller(s[u..], h, k + 1, q, small, large);
  }

  /** Success under a large size whose bytes do not fit a smaller one is an overflow under that one. */
  lemma {:induction false} ParseSymbolsOverflow(s: seq<bit>, h: Header, k: nat, p: Progress, small: nat, large: nat)
    requires SoundHeader(h) && |p.list| == 256 && small <= large && ParseSymbols(s, h, k, p, large).Done?
    requires |ParseSymbols(s, h, k, p, large).value| > small
    ensures ParseSymbols(s, h, k, p, small) == Fail(BlockOverflow) || |p.bytes| > small
    decreases |s|
  {
    hide DecodeSymbol, TableFor, ToFront, Repeat, Pow2;
    var lens := TableFor(h, k);
    var sym, u := DecodeSymbol(lens, s).value, DecodeSymbol(lens, s).used;
    match Symbol(p, sym, |h.inUse|, large)
    case Stop(_) =>
    case More(q) => ParseSymbolsOverflow(s[u..], h, k + 1, q, small, large);
  }

  // ----- the whole block -----

  /** Before the first symbol. */
  function Fresh(h: Header): Progress
    requires |h.inUse| <= 256
  {
    Progress(0, 0, Padded(h.inUse), [])
  }

  /** A block under a declared size: its header, its symbols, and a starting row inside it. */
  function ParseBlock(s: seq<bit>, size: nat): (r: Parsed<Prepared>)
    ensures r.Done? ==> r.used <= |s| && Walkable(r.value)
  {
    match ParseHeader(s)
    case Fail(e) => Fail(e)
    case Done(h, u) =>
      match ParseSymbols(s[u..], h, 0, Fresh(h), size)
      case Fail(e) => Fail(e)
      case Done(last, u') =>
        if h.origPtr >= |last| then Fail(InvalidBlock) else Done(Prepared(h.crc, h.origPtr, last), u + u')
  }

  /** A block, or a hard error in it, is the answer on every extension, also where decoding a symbol
      leaned on zero bits past the end. */
  lemma ParseBlockExtends(s: seq<bit>, size: nat, t: seq<bit>)
    requires Settled(ParseBlock(s, size))
    ensures ParseBlock(s + t, size) == ParseBlock(s, size)
  {
    ParseHeaderExtends(s, t);
    match ParseHeader(s)
    case Fail(_) =>
    case Done(h, u) =>
      DropAppend(s, t, u);
      ParseSymbolsExtends(s[u..], h, 0, Fresh(h), size, t);
  }

  /** A prepared block never exceeds the declared size. */
  lemma ParseBlockFits(s: seq<bit>, size: nat)
    requires ParseBlock(s, size).Done?
    ensures |ParseBlock(s, size).value.last| <= size
  {
    var h, u := ParseHeader(s).value, ParseHeader(s).used;
    ParseSymbolsFits(s[u..], h, 0, Fresh(h), size);
  }

  /** The declared size changes what a block decodes to only by refusing it: under the smaller size it
      succeeds, with the same result, exactly when it does under the larger one and its length fits. */
  lemma ParseBlockUnderSize(s: seq<bit>, small: nat, large: nat)
    requires small <= large
    ensures ParseBlock(s, small).Done? <==> ParseBlock(s, large).Done? && |ParseBlock(s, large).value.last| <= small
    ensures ParseBlock(s, small).Done? ==> ParseBlock(s, large) == ParseBlock(s, small)
  {
    match ParseHeader(s)
    case Fail(_) =>
    case Done(h, u) =>
      if ParseBlock(s, small).Done? {
        ParseBlockFits(s, small);
        ParseSymbolsLarger(s[u..], h, 0, Fresh(h), small, large);
      }
      if ParseBlock(s, large).Done? && |ParseBlock(s, large).value.last| <= small {
        ParseSymbolsSmaller(s[u..], h, 0, Fresh(h), small, large);
      }
  }

  /** And what it is refused with is an overflow. */
  lemma ParseBlockOverflows(s: seq<bit>, small: nat, large: nat)
    requires small <= large && ParseBlock(s, large).Done? && |ParseBlock(s, large).value.last| > small
    ensures ParseBlock(s, small) == Fail(BlockOverflow)
  {
    var h, u := ParseHeader(s).value, ParseHeader(s).used;
    ParseSymbolsOverflow(s[u..], h, 0, Fresh(h), small, large);
  }
}
