/** What a whole input decodes to: concatenated streams of blocks, each stream between a header and an end mark.

    `NextMove` is one turn of the decoder's loop, `NextBlock` the turns up to one block's plaintext,
    and `DecodeAll` the serial decode of everything that is left.
 */
module StreamFormat {
  import opened Sequences
  import opened Bits
  import opened Results
  import opened Crc
  import opened BitReading
  import opened Walking
  import opened BlockFormat
  import opened BlockWritten

  datatype Phase = StreamStart | InBlock

  /** What the decoder carries from block to block. */
  datatype Machine = Machine(phase: Phase, size: nat, combined: word)

  datatype Move =
    | HeaderRead(used: nat, size: nat)
    | BlockRead(used: nat, block: Prepared)
    | StreamEnded(used: nat)
    | InputEnded(used: nat)
    | Stuck(error: Error)

  /** A stream header at a byte boundary, `BZh` and a level digit, after skipping `skip` bits to get there. */
  function HeaderAt(t: seq<bit>, skip: nat): Move {
    if t == [] then InputEnded(skip)
    else if |t| / 8 < 4 then Stuck(Truncated)
    else
      var b0, b1, b2, level := Value(t[..8]), Value(t[8..][..8]), Value(t[16..][..8]), Value(t[24..][..8]);
      if b0 != 0x42 || b1 != 0x5A || b2 != 0x68 then Stuck(InvalidMagic)
      else if level < 0x31 || level > 0x39 then Stuck(InvalidLevel)
      else HeaderRead(skip + 32, (level - 0x30) * 100_000)
  }

  function HeaderMove(s: seq<bit>): Move {
    HeaderAt(s[|s| % 8..], |s| % 8)
  }

  /** A block, or the end of the stream with the combined CRC. */
  function BlockMove(s: seq<bit>, size: nat, combined: word): Move {
    match ReadBits(s, 48)
    case Fail(e) => Stuck(e)
    case Done(magic, _) =>
      if magic == BLOCK_MAGIC then
        match ParseBlock(s[48..], size)
        case Fail(e) => Stuck(e)
        case Done(p, u) => BlockRead(48 + u, p)
      else if magic == EOS_MAGIC then
        match ReadBits(s[48..], 32)
        case Fail(e) => Stuck(e)
        case Done(stored, _) => if stored != combined then Stuck(CrcMismatch) else StreamEnded(80)
      else Stuck(InvalidMagic)
  }

  function NextMove(s: seq<bit>, m: Machine): Move {
    match m.phase
    case StreamStart => HeaderMove(s)
    case InBlock => BlockMove(s, m.size, m.combined)
  }

  lemma MoveInside(s: seq<bit>, m: Machine)
    ensures match NextMove(s, m)
      case HeaderRead(u, size) => 0 < u <= |s| && size <= 900_000
      case BlockRead(u, p) => m.phase == InBlock && 0 < u <= |s| && Walkable(p) && |p.last| <= m.size
      case StreamEnded(u) => 0 < u <= |s|
      case InputEnded(u) => u <= |s|
      case Stuck(_) => true
  {
    if m.phase == InBlock && NextMove(s, m).BlockRead? { ParseBlockFits(s[48..], m.size); }
  }

  /** The state after a move that consumes bits. */
  function AfterMove(m: Machine, v: Move): Machine {
    match v
    case HeaderRead(_, size) => Machine(InBlock, size, 0)
    case BlockRead(_, p) => m.(combined := Combine(m.combined, p.crc))
    case StreamEnded(_) => m.(phase := StreamStart)
    case InputEnded(_) => m
    case Stuck(_) => m
  }

  ghost predicate Intact(p: Prepared)
    requires Walkable(p)
  {
    Checksum(Plain(p)) == p.crc
  }

  function Ahead(out: seq<byte>, r: Result<seq<byte>>): Result<seq<byte>> {
    match r
    case Ok(rest) => Ok(out + rest)
    case Err(e) => Err(e)
  }

  /** The plaintext of everything left, or the first error. */
  ghost function DecodeAll(s: seq<bit>, m: Machine): Result<seq<byte>>
    decreases |s|
  {
    MoveInside(s, m);
    var v := NextMove(s, m);
    match v
    case Stuck(e) => Err(e)
    case InputEnded(_) => Ok([])
    case HeaderRead(u, _) => DecodeAll(s[u..], AfterMove(m, v))
    case StreamEnded(u) => DecodeAll(s[u..], AfterMove(m, v))
    case BlockRead(u, p) =>
      if !Intact(p) then Err(CrcMismatch) else Ahead(Plain(p), DecodeAll(s[u..], AfterMove(m, v)))
  }

  /** Where decoding finds the blocks it hands out, up to the end or the first error; `s` begins at offset `at`. */
  ghost function BlockStarts(s: seq<bit>, at: nat, m: Machine): seq<nat>
    decreases |s|
  {
    MoveInside(s, m);
    var v := NextMove(s, m);
    match v
    case Stuck(_) => []
    case InputEnded(_) => []
    case HeaderRead(u, _) => BlockStarts(s[u..], at + u, AfterMove(m, v))
    case StreamEnded(u) => BlockStarts(s[u..], at + u, AfterMove(m, v))
    case BlockRead(u, p) => if Intact(p) then [at] + BlockStarts(s[u..], at + u, AfterMove(m, v)) else []
  }

  const INITIAL: Machine := Machine(StreamStart, 0, 0)

  /** What a `.bz2` file decodes to. */
  ghost function DecodeFile(input: seq<byte>): Result<seq<byte>> {
    DecodeAll(BytesToBits(input), INITIAL)
  }

  // ----- one block at a time -----

  /** One call: a block's plaintext, a clean end, or an error; with how far the decoder is committed afterwards. */
  datatype Stepped =
    | Produced(out: seq<byte>, used: nat, next: Machine)
    | AtEnd(used: nat, next: Machine)
    | Halted(error: Error, used: nat, next: Machine)

  function Further(u: nat, r: Stepped): Stepped {
    match r
    case Produced(out, used, m) => Produced(out, u + used, m)
    case AtEnd(used, m) => AtEnd(u + used, m)
    case Halted(e, used, m) => Halted(e, u + used, m)
  }

  ghost function NextBlock(s: seq<bit>, m: Machine): (r: Stepped)
    ensures r.used <= |s| && (r.Produced? ==> r.used > 0)
    decreases |s|
  {
    MoveInside(s, m);
    var v := NextMove(s, m);
    match v
    case Stuck(e) => Halted(e, 0, m)
    case InputEnded(u) => AtEnd(u, m)
    case HeaderRead(u, _) => Further(u, NextBlock(s[u..], AfterMove(m, v)))
    case StreamEnded(u) => Further(u, NextBlock(s[u..], AfterMove(m, v)))
    case BlockRead(u, p) => if !Intact(p) then Halted(CrcMismatch, 0, m) else Produced(Plain(p), u, AfterMove(m, v))
  }

  /** Whole framing stands at the front of the bits at hand: between streams, after the padding to a byte
      boundary, four bytes of valid header; inside one, the end mark with the right combined CRC. */
  predicate FramingAhead(s: seq<bit>, m: Machine) {
    match m.phase
    case StreamStart =>
      var t := s[|s| % 8..];
      && |t| >= 32 && Value(t[..8]) == 0x42 && Value(t[8..16]) == 0x5A && Value(t[16..24]) == 0x68
      && 0x31 <= Value(t[24..32]) <= 0x39
    case InBlock => |s| >= 80 && Value(s[..48]) == EOS_MAGIC && Value(s[48..80]) == m.combined
  }

  lemma HeaderFraming(s: seq<bit>, m: Machine)
    requires m.phase == StreamStart
    ensures FramingAhead(s, m) <==> NextMove(s, m).HeaderRead?
    ensures !NextMove(s, m).StreamEnded? && (NextMove(s, m).HeaderRead? ==> NextMove(s, m).used >= 32)
  {
    hide Value;
    var t := s[|s| % 8..];
    if |t| >= 32 {
      assert t[8..][..8] == t[8..16] && t[16..][..8] == t[16..24] && t[24..][..8] == t[24..32];
    }
  }

  lemma EndFraming(s: seq<bit>, m: Machine)
    requires m.phase == InBlock
    ensures FramingAhead(s, m) <==> NextMove(s, m).StreamEnded?
    ensures !NextMove(s, m).HeaderRead? && (NextMove(s, m).StreamEnded? ==> NextMove(s, m).used == 80)
  {
    hide Value, ParseBlock;
    if |s| >= 80 { assert s[48..][..32] == s[48..80]; }
  }

  /** A call that ends in an error leaves bits committed exactly when whole framing stood in front of it; at
      least a header's worth then, and otherwise the decoder has not moved. */
  lemma HaltedCommits(s: seq<bit>, m: Machine)
    requires NextBlock(s, m).Halted?
    ensures var r := NextBlock(s, m);
      && (r.used > 0 <==> FramingAhead(s, m)) && (r.used > 0 ==> r.used >= 32) && (r.used == 0 ==> r.next == m)
  {
    hide NextMove, FramingAhead, Plain, Intact;
    MoveInside(s, m);
    if m.phase == StreamStart { HeaderFraming(s, m); } else { EndFraming(s, m); }
  }

  /** A clean end leaves nothing. */
  lemma {:induction false} EndLeavesNothing(s: seq<bit>, m: Machine)
    requires NextBlock(s, m).AtEnd?
    ensures var r := NextBlock(s, m); s[r.used..] == [] && r.next.phase == StreamStart
    decreases |s|
  {
    hide NextMove, Plain, Intact, AfterMove;
    MoveInside(s, m);
    var v := NextMove(s, m);
    if v.InputEnded? {
      EndStays(s, m, v.used);
      EndIsEmpty(s, m, v.used);
    } else {
      EndLeavesNothing(s[v.used..], AfterMove(m, v));
      DropSum(s, v.used, NextBlock(s[v.used..], AfterMove(m, v)).used);
    }
  }

  /** Framing stays framing when more input follows. */
  lemma FramingExtends(s: seq<bit>, m: Machine, t: seq<bit>)
    requires WholeBytes(t) && FramingAhead(s, m)
    ensures FramingAhead(s + t, m)
  {
    hide NextMove, FramingAhead;
    if m.phase == StreamStart {
      HeaderFraming(s, m);
      HeaderFraming(s + t, m);
    } else {
      EndFraming(s, m);
      EndFraming(s + t, m);
    }
    NextMoveExtends(s, m, t);
  }

  /** Decoding everything is decoding one block and then the rest from where the decoder is committed. */
  lemma {:induction false} DecodeByBlocks(s: seq<bit>, m: Machine)
    ensures match NextBlock(s, m)
      case Produced(out, u, next) => DecodeAll(s, m) == Ahead(out, DecodeAll(s[u..], next))
      case AtEnd(u, next) => DecodeAll(s, m) == Ok([]) == DecodeAll(s[u..], next)
      case Halted(e, u, next) => DecodeAll(s, m) == Err(e) == DecodeAll(s[u..], next)
    decreases |s|
  {
    hide NextMove, Intact, AfterMove, Plain;
    MoveInside(s, m);
    var v := NextMove(s, m);
    match v
    case Stuck(_) => assert s[0..] == s;
    case InputEnded(u) => EndStays(s, m, u);
    case HeaderRead(u, _) =>
      DecodeByBlocks(s[u..], AfterMove(m, v));
      DropSum(s, u, NextBlock(s[u..], AfterMove(m, v)).used);
    case StreamEnded(u) =>
      DecodeByBlocks(s[u..], AfterMove(m, v));
      DropSum(s, u, NextBlock(s[u..], AfterMove(m, v)).used);
    case BlockRead(_, _) => assert s[0..] == s;
  }

  lemma EndStays(s: seq<bit>, m: Machine, u: nat)
    requires NextMove(s, m) == InputEnded(u)
    ensures u <= |s| && s[u..] == [] && NextMove(s[u..], m) == InputEnded(0)
  {
    assert m.phase == StreamStart;
    assert s[u..] == [];
  }

  // ----- more input -----

  predicate WholeBytes(t: seq<bit>) {
    |t| % 8 == 0
  }

  lemma HeaderAtExtends(a: seq<bit>, t: seq<bit>, skip: nat)
    requires HeaderAt(a, skip) != Stuck(Truncated) && !HeaderAt(a, skip).InputEnded?
    ensures HeaderAt(a + t, skip) == HeaderAt(a, skip)
  {
    assert (a + t)[..8] == a[..8];
    DropAppend(a, t, 8);
    DropAppend(a, t, 16);
    DropAppend(a, t, 24);
    assert (a[8..] + t)[..8] == a[8..][..8];
    assert (a[16..] + t)[..8] == a[16..][..8];
    assert (a[24..] + t)[..8] == a[24..][..8];
  }

  lemma HeaderMoveExtends(s: seq<bit>, t: seq<bit>)
    requires WholeBytes(t) && HeaderMove(s) != Stuck(Truncated) && !HeaderMove(s).InputEnded?
    ensures HeaderMove(s + t) == HeaderMove(s)
  {
    hide HeaderAt;
    var skip := |s| % 8;
    DropAppend(s, t, skip);
    assert |s + t| % 8 == skip;
    HeaderAtExtends(s[skip..], t, skip);
  }

  lemma BlockMoveExtends(s: seq<bit>, size: nat, combined: word, t: seq<bit>)
    requires BlockMove(s, size, combined) != Stuck(Truncated)
    ensures BlockMove(s + t, size, combined) == BlockMove(s, size, combined)
  {
    ReadBitsExtends(s, t, 48);
    DropAppend(s, t, 48);
    var magic := ReadBits(s, 48).value;
    if magic == BLOCK_MAGIC {
      ParseBlockExtends(s[48..], size, t);
    } else if magic == EOS_MAGIC {
      ReadBitsExtends(s[48..], t, 32);
    }
  }

  /** A move other than running out of input is the move on every extension. */
  lemma NextMoveExtends(s: seq<bit>, m: Machine, t: seq<bit>)
    requires WholeBytes(t) && NextMove(s, m) != Stuck(Truncated) && !NextMove(s, m).InputEnded?
    ensures NextMove(s + t, m) == NextMove(s, m)
  {
    match m.phase
    case StreamStart => HeaderMoveExtends(s, t);
    case InBlock => BlockMoveExtends(s, m.size, m.combined, t);
  }

  lemma HeaderAtSkip(t: seq<bit>, skip: nat)
    ensures match HeaderAt(t, skip)
      case HeaderRead(u, size) => u == skip + 32 && |t| >= 32 && HeaderAt(t, 0) == HeaderRead(32, size)
      case InputEnded(_) => HeaderAt(t, 0) == InputEnded(0)
      case Stuck(e) => HeaderAt(t, 0) == Stuck(e)
      case BlockRead(_, _) => false
      case StreamEnded(_) => false
  {
  }

  lemma AllSkipped(s: seq<bit>, t: seq<bit>)
    requires WholeBytes(t) && s[|s| % 8..] == []
    ensures |s| == |s| % 8 && |s + t| % 8 == |s| && (s + t)[|s|..] == t && |t| % 8 == 0 && t[0..] == t
  {
  }

  /** At a clean end, skipping to the byte boundary first changes nothing. */
  lemma EndExtends(s: seq<bit>, m: Machine, t: seq<bit>, u: nat)
    requires WholeBytes(t) && NextMove(s, m) == InputEnded(u)
    ensures u <= |s| && DecodeAll(s + t, m) == DecodeAll((s + t)[u..], m)
  {
    hide HeaderAt, BlockMove, Plain, Intact;
    EndIsEmpty(s, m, u);
    AllSkipped(s, t);
    HeaderAtSkip(t, u);
    if HeaderAt(t, u).HeaderRead? { DropSum(s + t, u, 32); }
  }

  lemma EndIsEmpty(s: seq<bit>, m: Machine, u: nat)
    requires NextMove(s, m) == InputEnded(u)
    ensures m.phase == StreamStart && u == |s| % 8 == |s| && s[u..] == []
  {
  }

  /** A block, or a hard error, on a prefix is also the answer on every extension; after running out of
      input, and at a clean end, decoding may go on from the committed position. */
  lemma {:induction false} NextBlockExtends(s: seq<bit>, m: Machine, t: seq<bit>)
    requires WholeBytes(t)
    ensures match NextBlock(s, m)
      case Produced(out, u, next) => DecodeAll(s + t, m) == Ahead(out, DecodeAll((s + t)[u..], next))
      case AtEnd(u, next) => DecodeAll(s + t, m) == DecodeAll((s + t)[u..], next)
      case Halted(e, u, next) =>
        DecodeAll(s + t, m) == DecodeAll((s + t)[u..], next) && (e != Truncated ==> DecodeAll(s + t, m) == Err(e))
    decreases |s|
  {
    hide NextMove, Intact, AfterMove, Plain;
    MoveInside(s, m);
    var v := NextMove(s, m);
    if v == Stuck(Truncated) {
      assert (s + t)[0..] == s + t;
    } else if v.InputEnded? {
      EndExtends(s, m, t, v.used);
    } else {
      NextMoveExtends(s, m, t);
      if v.HeaderRead? || v.StreamEnded? {
        DropAppend(s, t, v.used);
        NextBlockExtends(s[v.used..], AfterMove(m, v), t);
        DropSum(s + t, v.used, NextBlock(s[v.used..], AfterMove(m, v)).used);
      } else if v.Stuck? {
        assert (s + t)[0..] == s + t;
      } else if !Intact(v.block) {
        assert (s + t)[0..] == s + t;
      }
    }
  }
}
