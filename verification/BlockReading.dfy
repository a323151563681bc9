/** Reading one block: header fields through the cursor, symbols through the reservoir. */
module BlockReading {
  import opened Sequences
  import opened Bits
  import opened Results
  import opened Permutations
  import opened Canonical
  import opened BitReading
  import opened HuffmanTables
  import opened TableBuilding
  import opened MoveToFront
  import opened BlockFormat

  /** A method's result against the parse it carries out, with the number of bits it moved. */
  ghost predicate Agrees<T>(p: Parsed<T>, r: Result<T>, moved: int) {
    match p
    case Done(v, u) => r == Ok(v) && moved == u
    case Fail(e) => r == Err(e)
  }

  // ----- the symbol map -----

  /** Which byte values are marked, as flags. */
  ghost predicate Marked(used: array<bool>, flags: seq<bit>)
    reads used
  {
    |flags| <= used.Length == 256 && forall k :: 0 <= k < 256 ==> (used[k] <==> k < |flags| && flags[k] == 1)
  }

  /** Mark the set bits of a 16-bit word from `start` on. */
  method MarkGroup(used: array<bool>, start: nat, word: nat, ghost flags: seq<bit>, ghost w: seq<bit>)
    requires Marked(used, flags) && start == |flags| && start + 16 <= 256 && |w| == 16 && word == Value(w)
    modifies used
    ensures Marked(used, flags + w)
  {
    var j := 0;
    assert w[..0] == [] && flags + [] == flags;
    while j < 16
      invariant 0 <= j <= 16 && Marked(used, flags + w[..j])
    {
      BitAt(w, j);
      assert flags + w[..j + 1] == flags + w[..j] + [w[j]];
      if Shr(word, 15 - j) % 2 != 0 {
        used[start + j] := true;
      }
      j := j + 1;
    }
    assert w[..16] == w;
  }

  /** All groups whose own bit is set. */
  method ReadFlags(c: BitCursor, word: nat, ghost groups: seq<bit>, used: array<bool>)
    returns (r: Result<()>, ghost flags: seq<bit>)
    requires c.bit <= 8 * |c.data| && |groups| == 16 && word == Value(groups) && Marked(used, [])
    modifies c, used
    ensures c.bit <= 8 * |c.data|
    ensures match ParseFlags(old(c.Rest()), groups)
      case Done(f, u) => r == Ok(()) && c.bit == old(c.bit) + u && f == flags && Marked(used, flags)
      case Fail(e) => r == Err(e)
  {
    hide BytesToBits, Value, ToBits, ParseFlags, Prefixed, Marked, Zeros;
    flags := [];
    ghost var bits, start := BytesToBits(c.data), c.bit;
    var i := 0;
    assert groups[0..] == groups;
    PrefixedNone(0, ParseFlags(c.Rest(), groups));
    while i < 16
      invariant 0 <= i <= 16 && |flags| == 16 * i && start <= c.bit <= 8 * |c.data| && Marked(used, flags)
      invariant ParseFlags(bits[start..], groups)
        == Prefixed(flags, c.bit - start, ParseFlags(bits[c.bit..], groups[i..]))
    {
      ghost var at, rest := c.bit, groups[i..];
      FlagsStep(bits[at..], rest);
      assert rest[0] == groups[i] && rest[1..] == groups[i + 1..];
      BitAt(groups, i);
      if Shr(word, 15 - i) % 2 != 0 {
        var v := c.Read(16);
        PrefixedEnds(flags, at - start, Truncated);
        if v.Err? { return Err(v.error), flags; }
        ghost var w := bits[at..][..16];
        MarkGroup(used, i * 16, v.value, flags, w);
        DropSum(bits, at, c.bit - at);
        PrefixedTwice(flags, at - start, w, 16, ParseFlags(bits[c.bit..], groups[i + 1..]));
        flags := flags + w;
      } else {
        PrefixedTwice(flags, at - start, Zeros(16), 0, ParseFlags(bits[c.bit..], groups[i + 1..]));
        MarkedZeros(used, flags);
        flags := flags + Zeros(16);
      }
      i := i + 1;
    }
    assert groups[16..] == [];
    FlagsEnd(bits[c.bit..]);
    PrefixedEnds(flags, c.bit - start, Truncated);
    r := Ok(());
  }

  lemma FlagsStep(s: seq<bit>, groups: seq<bit>)
    requires groups != []
    ensures ParseFlags(s, groups) ==
      if groups[0] == 0 then Prefixed(Zeros(16), 0, ParseFlags(s, groups[1..]))
      else if |s| < 16 then Fail(Truncated)
      else Prefixed(s[..16], 16, ParseFlags(s[16..], groups[1..]))
  {
  }

  lemma FlagsEnd(s: seq<bit>)
    ensures ParseFlags(s, []) == Done([], 0)
  {
  }

  lemma MarkedZeros(used: array<bool>, flags: seq<bit>)
    requires Marked(used, flags) && |flags| <= 240
    ensures Marked(used, flags + Zeros(16))
  {
  }

  lemma PrefixedNone<T>(u: nat, p: Parsed<seq<T>>)
    requires u == 0
    ensures Prefixed([], u, p) == p
  {
    match p
    case Done(v, _) => assert [] + v == v;
    case Fail(_) =>
  }

  lemma PrefixedTwice<T>(a: seq<T>, u: nat, b: seq<T>, v: nat, p: Parsed<seq<T>>)
    ensures Prefixed(a, u, Prefixed(b, v, p)) == Prefixed(a + b, u + v, p)
  {
    match p
    case Done(w, _) => assert a + (b + w) == a + b + w;
    case Fail(_) =>
  }

  /** The marked byte values, ascending. */
  method ListUsed(used: array<bool>, ghost flags: seq<bit>) returns (inUse: seq<byte>)
    requires Marked(used, flags) && |flags| == 256
    ensures inUse == Listed(flags)
  {
    inUse := [];
    var b: nat := 0;
    while b < 256
      invariant b <= 256 && inUse == Listed(flags[..b])
    {
      assert flags[..b + 1][..b] == flags[..b];
      if used[b] { inUse := inUse + [b]; }
      b := b + 1;
    }
    assert flags[..256] == flags;
  }

  /** The byte values that the block uses. */
  method ReadInUse(c: BitCursor) returns (r: Result<seq<byte>>)
    requires c.bit <= 8 * |c.data|
    modifies c
    ensures c.bit <= 8 * |c.data| && Agrees(ParseInUse(old(c.Rest())), r, c.bit - old(c.bit))
  {
    ghost var s := c.Rest();
    var used := new bool[256](_ => false);
    var word := c.Read(16);
    if word.Err? { return Err(word.error); }
    assert c.Rest() == s[16..];
    var read, flags := ReadFlags(c, word.value, s[..16], used);
    if read.Err? { return Err(read.error); }
    var inUse := ListUsed(used, flags);
    r := Ok(inUse);
  }

  // ----- selectors -----

  /** Ones before the first zero, fewer than `n` of them. */
  method ReadUnary(c: BitCursor, n: nat) returns (r: Result<nat>)
    requires c.bit <= 8 * |c.data|
    modifies c
    ensures c.bit <= 8 * |c.data| && Agrees(ParseUnary(old(c.Rest()), 0, n), r, c.bit - old(c.bit))
  {
    hide BytesToBits, ToBits;
    ghost var bits, start := BytesToBits(c.data), c.bit;
    var j := 0;
    while true
      invariant start <= c.bit <= 8 * |c.data|
      invariant ParseUnary(bits[start..], 0, n) == Plus(ParseUnary(bits[c.bit..], j, n), c.bit - start)
      decreases 8 * |c.data| - c.bit
    {
      ghost var at := c.bit;
      var b := c.ReadBit();
      if b.Err? { return Err(b.error); }
      OneBit(bits, at);
      if b.value == 0 { return Ok(j); }
      if j + 1 >= n { return Err(InvalidBlock); }
      j := j + 1;
    }
  }

  lemma OneBit(bits: seq<bit>, at: nat)
    requires at < |bits|
    ensures Value(bits[at..][..1]) == bits[at..][0] == bits[at] && bits[at..][1..] == bits[at + 1..]
  {
    assert bits[at..][..1] == [bits[at]];
    assert [bits[at]][..0] == [];
    assert Value([bits[at]]) == bits[at];
  }

  lemma SelectorsStep(s: seq<bit>, count: nat, pos: seq<nat>)
    requires count > 0 && pos != []
    ensures match ParseUnary(s, 0, |pos|)
      case Fail(e) => ParseSelectors(s, count, pos) == Fail(e)
      case Done(j, u) =>
        (j < |pos| &&
         ParseSelectors(s, count, pos) == Prefixed([pos[j]], u, ParseSelectors(s[u..], count - 1, ToFront(pos, j))))
  {
  }

  lemma PrefixedEnds<T>(a: seq<T>, u: nat, e: Error)
    ensures Prefixed(a, u, Fail(e)) == Fail(e) && Prefixed(a, u, Done([], 0)) == Done(a, u)
  {
    assert a + [] == a;
  }

  lemma SelectorsAdvance(want: Parsed<seq<nat>>, bits: seq<bit>, start: nat, at: nat, next: nat, acc: seq<nat>,
                         count: nat, pos: seq<nat>, read: Result<nat>)
    requires start <= at <= next <= |bits| && count > 0 && pos != []
    requires want == Prefixed(acc, at - start, ParseSelectors(bits[at..], count, pos))
    requires Agrees(ParseUnary(bits[at..], 0, |pos|), read, next - at)
    ensures read.Err? ==> want == Fail(read.error)
    ensures read.Ok? ==> read.value < |pos|
    ensures read.Ok? ==>
      want == Prefixed(acc + [pos[read.value]], next - start,
                       ParseSelectors(bits[next..], count - 1, ToFront(pos, read.value)))
  {
    hide ParseSelectors, ParseUnary, Prefixed, ToFront;
    SelectorsStep(bits[at..], count, pos);
    DropSum(bits, at, next - at);
    match read
    case Err(e) => PrefixedEnds(acc, at - start, e);
    case Ok(j) =>
      PrefixedTwice(acc, at - start, [pos[j]], next - at, ParseSelectors(bits[next..], count - 1, ToFront(pos, j)));
  }

  lemma SelectorsEnd(want: Parsed<seq<nat>>, bits: seq<bit>, start: nat, at: nat, acc: seq<nat>, pos: seq<nat>)
    requires start <= at <= |bits| && pos != []
    requires want == Prefixed(acc, at - start, ParseSelectors(bits[at..], 0, pos))
    ensures want == Done(acc, at - start)
  {
    PrefixedEnds(acc, at - start, Truncated);
  }

  /** The selector list, undoing its move-to-front. */
  method ReadSelectors(c: BitCursor, count: nat, nGroups: nat) returns (r: Result<seq<nat>>)
    requires c.bit <= 8 * |c.data| && nGroups > 0
    modifies c
    ensures c.bit <= 8 * |c.data|
      && Agrees(ParseSelectors(old(c.Rest()), count, Identity(nGroups)), r, c.bit - old(c.bit))
  {
    hide BytesToBits, ParseUnary, ParseSelectors, ToFront, Prefixed;
    ghost var bits, start := BytesToBits(c.data), c.bit;
    var pos, selectors: seq<nat> := Identity(nGroups), [];
    ghost var want := ParseSelectors(bits[start..], count, pos);
    PrefixedNone(0, want);
    var left := count;
    while left > 0
      invariant start <= c.bit <= 8 * |c.data| && pos != []
      invariant want == Prefixed(selectors, c.bit - start, ParseSelectors(bits[c.bit..], left, pos))
      decreases left
    {
      ghost var at := c.bit;
      var read := ReadUnary(c, |pos|);
      SelectorsAdvance(want, bits, start, at, if read.Ok? then c.bit else at, selectors, left, pos, read);
      if read.Err? { return Err(read.error); }
      var j := read.value;
      selectors := selectors + [pos[j]];
      pos := ToFront(pos, j);
      left := left - 1;
    }
    SelectorsEnd(want, bits, start, c.bit, selectors, pos);
    r := Ok(selectors);
  }

  // ----- code lengths -----

  method ReadLength(c: BitCursor, curr0: int) returns (r: Result<nat>)
    requires c.bit <= 8 * |c.data|
    modifies c
    ensures c.bit <= 8 * |c.data| && Agrees(ParseLength(old(c.Rest()), curr0), r, c.bit - old(c.bit))
  {
    hide BytesToBits, ToBits, Value, ParseLength;
    ghost var bits, start := BytesToBits(c.data), c.bit;
    var curr := curr0;
    PlusNothing(ParseLength(bits[start..], curr0));
    while true
      invariant start <= c.bit <= 8 * |c.data|
      invariant ParseLength(bits[start..], curr0) == Plus(ParseLength(bits[c.bit..], curr), c.bit - start)
      decreases 8 * |c.data| - c.bit
    {
      LengthOutside(bits[c.bit..], curr);
      if !(1 <= curr <= 20) { return Err(InvalidHuffman); }
      ghost var at := c.bit;
      LengthBit(bits[at..], curr);
      var more := c.ReadBit();
      if more.Err? { return Err(more.error); }
      OneBit(bits, at);
      if more.value == 0 { return Ok(curr); }
      var down := c.ReadBit();
      if down.Err? { return Err(down.error); }
      OneBit(bits, at + 1);
      DropSum(bits, at, 2);
      assert bits[at..][1] == bits[at + 1];
      if down.value == 0 {
        curr := curr + 1;
      } else {
        curr := curr - 1;
      }
    }
  }

  lemma PlusNothing<T>(p: Parsed<T>)
    ensures Plus(p, 0) == p
  {
  }

  lemma LengthOutside(s: seq<bit>, curr: int)
    ensures !(1 <= curr <= 20) ==> ParseLength(s, curr) == Fail(InvalidHuffman)
  {
  }

  lemma LengthBit(s: seq<bit>, curr: int)
    requires 1 <= curr <= 20
    ensures ParseLength(s, curr) ==
      if s == [] then Fail(Truncated)
      else if s[0] == 0 then Done(curr, 1)
      else if |s| < 2 then Fail(Truncated)
      else Plus(ParseLength(s[2..], if s[1] == 0 then curr + 1 else curr - 1), 2)
  {
  }

  lemma LengthsStep(s: seq<bit>, n: nat, curr: int)
    requires n > 0
    ensures match ParseLength(s, curr)
      case Fail(e) => ParseLengths(s, n, curr) == Fail(e)
      case Done(l, u) => ParseLengths(s, n, curr) == Prefixed([l], u, ParseLengths(s[u..], n - 1, l))
  {
  }

  lemma TablesStep(s: seq<bit>, count: nat, n: nat)
    requires count > 0
    ensures match ParseTable(s, n)
      case Fail(e) => ParseTables(s, count, n) == Fail(e)
      case Done(lens, u) => ParseTables(s, count, n) == Prefixed([lens], u, ParseTables(s[u..], count - 1, n))
  {
  }

  lemma LengthsAdvance(want: Parsed<seq<nat>>, bits: seq<bit>, start: nat, at: nat, next: nat, acc: seq<nat>, n: nat,
                       curr: int, read: Result<nat>)
    requires start <= at <= next <= |bits| && n > 0
    requires want == Prefixed(acc, at - start, ParseLengths(bits[at..], n, curr))
    requires Agrees(ParseLength(bits[at..], curr), read, next - at)
    ensures read.Err? ==> want == Fail(read.error)
    ensures read.Ok? ==>
      want == Prefixed(acc + [read.value], next - start, ParseLengths(bits[next..], n - 1, read.value))
  {
    hide ParseLengths, ParseLength, Prefixed;
    LengthsStep(bits[at..], n, curr);
    DropSum(bits, at, next - at);
    match read
    case Err(e) => PrefixedEnds(acc, at - start, e);
    case Ok(l) => PrefixedTwice(acc, at - start, [l], next - at, ParseLengths(bits[next..], n - 1, l));
  }

  lemma LengthsEnd(want: Parsed<seq<nat>>, bits: seq<bit>, start: nat, at: nat, acc: seq<nat>, curr: int)
    requires start <= at <= |bits|
    requires want == Prefixed(acc, at - start, ParseLengths(bits[at..], 0, curr))
    ensures want == Done(acc, at - start)
  {
    PrefixedEnds(acc, at - start, Truncated);
  }

  /** A table's lengths after the five-bit start. */
  method ReadLengths(c: BitCursor, n: nat, curr0: int) returns (r: Result<seq<nat>>)
    requires c.bit <= 8 * |c.data|
    modifies c
    ensures c.bit <= 8 * |c.data| && Agrees(ParseLengths(old(c.Rest()), n, curr0), r, c.bit - old(c.bit))
  {
    hide BytesToBits, ParseLength, ParseLengths, Prefixed;
    ghost var bits, start := BytesToBits(c.data), c.bit;
    var curr := curr0;
    var lens: seq<nat> := [];
    ghost var want := ParseLengths(bits[start..], n, curr);
    PrefixedNone(0, want);
    var left := n;
    while left > 0
      invariant start <= c.bit <= 8 * |c.data|
      invariant want == Prefixed(lens, c.bit - start, ParseLengths(bits[c.bit..], left, curr))
      decreases left
    {
      ghost var at := c.bit;
      var read := ReadLength(c, curr);
      LengthsAdvance(want, bits, start, at, if read.Ok? then c.bit else at, lens, left, curr, read);
      if read.Err? { return Err(read.error); }
      lens := lens + [read.value];
      curr := read.value;
      left := left - 1;
    }
    LengthsEnd(want, bits, start, c.bit, lens, curr);
    r := Ok(lens);
  }

  /** One table's lengths. */
  method ReadTable(c: BitCursor, n: nat) returns (r: Result<seq<nat>>)
    requires c.bit <= 8 * |c.data|
    modifies c
    ensures c.bit <= 8 * |c.data| && Agrees(ParseTable(old(c.Rest()), n), r, c.bit - old(c.bit))
  {
    hide BytesToBits, ParseLengths;
    ghost var bits, start := BytesToBits(c.data), c.bit;
    var five := c.Read(5);
    if five.Err? { return Err(five.error); }
    DropSum(bits, start, c.bit - start);
    r := ReadLengths(c, n, five.value);
  }

  ghost predicate AllRepresent(tables: seq<HuffTable>, lens: seq<seq<nat>>) {
    |tables| == |lens| && forall i :: 0 <= i < |tables| ==> Represents(tables[i], lens[i])
  }

  lemma LengthsBuild(lens: seq<nat>, n: nat)
    requires TableLengths(lens, n) && n > 0
    ensures MinLen(lens) >= 1 && MaxLen(lens) <= 20
  {
  }

  lemma TablesAdvance(want: Parsed<seq<seq<nat>>>, bits: seq<bit>, start: nat, at: nat, next: nat, acc: seq<seq<nat>>,
                      count: nat, n: nat, row: Result<seq<nat>>)
    requires start <= at <= next <= |bits| && count > 0
    requires want == Prefixed(acc, at - start, ParseTables(bits[at..], count, n))
    requires Agrees(ParseTable(bits[at..], n), row, next - at)
    ensures row.Err? ==> want == Fail(row.error)
    ensures row.Ok? ==> want == Prefixed(acc + [row.value], next - start, ParseTables(bits[next..], count - 1, n))
  {
    hide ParseTables, ParseTable, Prefixed;
    TablesStep(bits[at..], count, n);
    DropSum(bits, at, next - at);
    match row
    case Err(e) => PrefixedEnds(acc, at - start, e);
    case Ok(lens) =>
      PrefixedTwice(acc, at - start, [lens], next - at, ParseTables(bits[next..], count - 1, n));
  }

  lemma TablesEnd(want: Parsed<seq<seq<nat>>>, bits: seq<bit>, start: nat, at: nat, acc: seq<seq<nat>>, n: nat)
    requires start <= at <= |bits| && want == Prefixed(acc, at - start, ParseTables(bits[at..], 0, n))
    ensures want == Done(acc, at - start)
  {
    PrefixedEnds(acc, at - start, Truncated);
  }

  /** One table's lengths, and the decode table they make. */
  method ReadAndBuild(c: BitCursor, n: nat) returns (t: Result<HuffTable>, ghost row: Result<seq<nat>>)
    requires c.bit <= 8 * |c.data| && n > 0
    modifies c
    ensures c.bit <= 8 * |c.data| && Agrees(ParseTable(old(c.Rest()), n), row, c.bit - old(c.bit))
    ensures row.Ok? ==> t.Ok? && Represents(t.value, row.value)
    ensures row.Err? ==> t == Err(row.error)
  {
    hide Represents, MinLen, MaxLen;
    var lens := ReadTable(c, n);
    row := lens;
    if lens.Err? { return Err(lens.error), row; }
    assert TableLengths(lens.value, n);
    LengthsBuild(lens.value, n);
    t := Build(lens.value);
  }

  /** Every group's lengths, each turned into a decode table. */
  method ReadTables(c: BitCursor, count: nat, n: nat) returns (r: Result<seq<HuffTable>>, ghost lens: seq<seq<nat>>)
    requires c.bit <= 8 * |c.data| && n > 0
    modifies c
    ensures c.bit <= 8 * |c.data|
    ensures match ParseTables(old(c.Rest()), count, n)
      case Done(v, u) => r.Ok? && v == lens && AllRepresent(r.value, lens) && c.bit == old(c.bit) + u
      case Fail(e) => r == Err(e)
  {
    hide BytesToBits, ParseTable, ParseTables, Represents, Prefixed, TableLengths;
    lens := [];
    ghost var bits, start := BytesToBits(c.data), c.bit;
    var tables: seq<HuffTable> := [];
    ghost var want := ParseTables(bits[start..], count, n);
    PrefixedNone(0, want);
    var left := count;
    while left > 0
      invariant start <= c.bit <= 8 * |c.data| && AllRepresent(tables, lens)
      invariant want == Prefixed(lens, c.bit - start, ParseTables(bits[c.bit..], left, n))
      decreases left
    {
      ghost var at := c.bit;
      var t, row := ReadAndBuild(c, n);
      TablesAdvance(want, bits, start, at, if row.Ok? then c.bit else at, lens, left, n, row);
      if t.Err? { return Err(t.error), lens; }
      lens := lens + [row.value];
      tables := tables + [t.value];
      left := left - 1;
    }
    TablesEnd(want, bits, start, c.bit, lens, n);
    r := Ok(tables);
  }
}
