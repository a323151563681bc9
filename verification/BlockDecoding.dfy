/** The block decoder: from a committed bit position, one block's plaintext at a time. */
module BlockDecoding {
  import opened Sequences
  import opened Bits
  import opened Results
  import opened Crc
  import opened BitReading
  import opened Walking
  import opened BlockFormat
  import opened BlockWritten
  import opened BlockReading
  import opened BlockPreparing
  import opened StreamFormat

  datatype Step = Block | Eof

  /** A prepared block's stored CRC and starting row, or the end of the input. */
  datatype PreparedStep = Ready(crc: word, origPtr: nat) | Exhausted

  // ----- moves through the cursor -----

  lemma BytesLeftIs(data: seq<byte>, bit: nat)
    requires bit <= 8 * |data|
    ensures var s := BytesToBits(data)[bit..];
      && (bit + 7) / 8 * 8 == bit + |s| % 8 <= 8 * |data|
      && |data| - ((bit + 7) / 8 * 8) / 8 == |s[|s| % 8..]| / 8 && |s[|s| % 8..]| % 8 == 0
  {
    hide BytesToBits;
    Alignment(|data|, bit);
  }

  lemma Alignment(n: nat, bit: nat)
    requires bit <= 8 * n
    ensures var left := 8 * n - bit; var up := (bit + 7) / 8;
      up * 8 == bit + left % 8 <= 8 * n && n - up == (left - left % 8) / 8 && (left - left % 8) % 8 == 0
  {
    var up := (bit + 7) / 8;
    assert 8 * n - bit == 8 * (n - up) + (8 * up - bit) && 0 <= 8 * up - bit < 8;
  }

  /** Read a stream header at the next byte boundary; `None` at a clean end of the input. */
  method ReadStreamStart(c: BitCursor) returns (r: Result<Option<nat>>)
    requires c.bit <= 8 * |c.data|
    modifies c
    ensures c.bit <= 8 * |c.data|
    ensures match HeaderMove(old(c.Rest()))
      case InputEnded(u) => r == Ok(None) && c.bit == old(c.bit) + u
      case HeaderRead(u, size) => r == Ok(Some(size)) && c.bit == old(c.bit) + u
      case Stuck(e) => r == Err(e)
      case BlockRead(_, _) => false
      case StreamEnded(_) => false
  {
    hide BytesToBits, Value;
    ghost var bits, s := BytesToBits(c.data), c.Rest();
    BytesLeftIs(c.data, c.bit);
    c.AlignToByte();
    ghost var start, t := c.bit, s[|s| % 8..];
    DropSum(bits, old(c.bit), |s| % 8);
    assert t == bits[start..];
    if c.BytesLeft() == 0 { return Ok(None); }
    if c.BytesLeft() < 4 { return Err(Truncated); }
    var b0 := c.Read(8);
    DropSum(bits, start, 8);
    var b1 := c.Read(8);
    DropSum(bits, start, 16);
    var b2 := c.Read(8);
    DropSum(bits, start, 24);
    var level := c.Read(8);
    if b0.value != 0x42 || b1.value != 0x5A || b2.value != 0x68 { return Err(InvalidMagic); }
    if !(0x31 <= level.value <= 0x39) { return Err(InvalidLevel); }
    r := Ok(Some((level.value - 0x30) * 100_000));
  }

  class BlockDecoder {
    var bit: nat
    var phase: Phase
    var blockSize: nat
    var combinedCrc: word
    /** The threaded vector: each cell is 256 times a row plus that row's byte. */
    var tt: seq<nat>
    /** The last column. */
    var bytes: seq<byte>

    function State(): Machine
      reads this
    {
      Machine(phase, blockSize, combinedCrc)
    }

    /** What is left of `input` from the committed position. */
    ghost function Left(input: seq<byte>): seq<Bits.bit>
      reads this
      requires bit <= 8 * |input|
    {
      BytesToBits(input)[bit..]
    }

    constructor ()
      ensures bit == 0 && State() == INITIAL
    {
      bit, phase, blockSize, combinedCrc, tt, bytes := 0, StreamStart, 0, 0, [], [];
    }

    /** Whole bytes the decoder is committed past. */
    function Consumed(): nat
      reads this
    {
      bit / 8
    }

    /** With the first `n` bytes gone, what is left to decode stays the same. */
    method Rebase(n: nat, ghost input: seq<byte>)
      requires n <= Consumed() && bit <= 8 * |input|
      modifies this`bit
      ensures bit <= 8 * |input[n..]| && Left(input[n..]) == old(Left(input))
    {
      bit := bit - n * 8;
      BytesToBitsSlice(input, n, |input|);
      assert input[n..|input|] == input[n..];
      DropSum(BytesToBits(input), 8 * n, bit);
    }

    /** Header, symbols, move-to-front and run lengths, threading; no output yet. */
    method PrepareBlock(c: BitCursor) returns (r: Result<(word, nat)>, ghost p: Prepared)
      requires c.bit <= 8 * |c.data|
      modifies c, this`tt, this`bytes
      ensures c.bit <= 8 * |c.data|
      ensures match ParseBlock(old(c.Rest()), blockSize)
        case Done(q, u) => r == Ok((q.crc, q.origPtr)) && p == q && Threaded(tt, p.last) && bytes == p.last
          && c.bit == old(c.bit) + u
        case Fail(e) => r == Err(e)
    {
      hide BytesToBits, ParseHeader, ParseSymbols, AllRepresent, TableLengths, Bwt.Cell;
      ghost var bits, start := BytesToBits(c.data), c.bit;
      p := Prepared(0, 0, []);
      var f, h := ReadHeader(c);
      if f.Err? { return Err(f.error), p; }
      DropSum(bits, start, c.bit - start);
      var cftab := new nat[257](_ => 0);
      assert Tally(cftab, []);
      var last, end := ReadSymbols(c.data, c.bit, f.value, blockSize, cftab, h);
      if last.Err? { return Err(last.error), p; }
      bytes := last.value;
      c.bit := end;
      if |bytes| == 0 || f.value.origPtr >= |bytes| { return Err(InvalidBlock), p; }
      p := Prepared(f.value.crc, f.value.origPtr, bytes);
      tt := Bwt.Thread(bytes, cftab);
      r := Ok((f.value.crc, f.value.origPtr));
    }

    /** One decoded block: prepare, walk, check the CRC, fold it in. */
    method DecodeBlock(c: BitCursor, out0: seq<byte>) returns (r: Result<()>, out: seq<byte>)
      requires c.bit <= 8 * |c.data|
      modifies c, this`tt, this`bytes, this`combinedCrc
      ensures c.bit <= 8 * |c.data|
      ensures match ParseBlock(old(c.Rest()), blockSize)
        case Done(p, u) =>
          if Intact(p) then
            r == Ok(()) && out == out0 + Plain(p) && c.bit == old(c.bit) + u
              && combinedCrc == Combine(old(combinedCrc), p.crc)
          else r == Err(CrcMismatch) && out0 <= out && combinedCrc == old(combinedCrc)
        case Fail(e) => r == Err(e) && out == out0 && combinedCrc == old(combinedCrc)
    {
      hide BytesToBits, ParseBlock, Threaded, Plain, Checksum, Combine;
      out := out0;
      var prepared, p := PrepareBlock(c);
      if prepared.Err? { return Err(prepared.error), out; }
      var crc;
      out, crc := Walk(tt, prepared.value.1, out0, p);
      if crc != prepared.value.0 { return Err(CrcMismatch), out; }
      combinedCrc := Combine(combinedCrc, prepared.value.0);
      r := Ok(());
    }

    /** What a call must have done, given what decoding one block from here means. */
    ghost predicate Carried(want: Stepped, r: Result<Step>, out0: seq<byte>, out: seq<byte>, moved: int)
      reads this
    {
      match want
      case Produced(o, u, m) => r == Ok(Block) && out == out0 + o && moved == u && State() == m
      case AtEnd(u, m) => r == Ok(Eof) && out == out0 && moved == u && State() == m
      case Halted(e, u, m) => r == Err(e) && out0 <= out && moved == u && State() == m
    }

    /** What one turn of the loop does for one move. */
    ghost predicate Turned(v: Move, m: Machine, r: Result<Option<Step>>, out0: seq<byte>, out: seq<byte>, moved: int)
      reads this
    {
      match v
      case Stuck(e) => r == Err(e) && out == out0 && moved == 0 && State() == m
      case InputEnded(u) => r == Ok(Some(Eof)) && out == out0 && moved == u && State() == m
      case HeaderRead(u, _) => r == Ok(None) && out == out0 && moved == u && State() == AfterMove(m, v)
      case StreamEnded(u) => r == Ok(None) && out == out0 && moved == u && State() == AfterMove(m, v)
      case BlockRead(u, p) =>
        Walkable(p) &&
        if Intact(p) then r == Ok(Some(Block)) && out == out0 + Plain(p) && moved == u && State() == AfterMove(m, v)
        else r == Err(CrcMismatch) && out0 <= out && moved == 0 && State() == m
    }

    method StartTurn(c: BitCursor, ghost out0: seq<byte>) returns (r: Result<Option<Step>>)
      requires bit == c.bit <= 8 * |c.data| && phase == StreamStart
      modifies c, this`bit, this`phase, this`blockSize, this`combinedCrc
      ensures bit <= 8 * |c.data| && (r.Ok? ==> bit == c.bit)
      ensures Turned(NextMove(old(c.Rest()), old(State())), old(State()), r, out0, out0, bit - old(bit))
    {
      hide BytesToBits, HeaderMove, BlockMove, Plain, Intact;
      var header := ReadStreamStart(c);
      if header.Err? { return Err(header.error); }
      if header.value == None {
        bit := c.bit;
        return Ok(Some(Eof));
      }
      blockSize := header.value.value;
      combinedCrc := 0;
      phase := InBlock;
      bit := c.bit;
      r := Ok(None);
    }

    /** Behind the end mark's magic: the stored combined CRC, which must be the one computed. */
    method EndMark(c: BitCursor) returns (r: Result<()>)
      requires c.bit <= 8 * |c.data| && phase == InBlock
      modifies c, this`bit, this`phase
      ensures match ReadBits(old(c.Rest()), 32)
        case Fail(e) => r == Err(e) && bit == old(bit) && phase == InBlock
        case Done(stored, _) =>
          if stored != combinedCrc then r == Err(CrcMismatch) && bit == old(bit) && phase == InBlock
          else r == Ok(()) && bit == c.bit == old(c.bit) + 32 <= 8 * |c.data| && phase == StreamStart
    {
      hide BytesToBits, Value;
      var stored := c.Read(32);
      if stored.Err? { return Err(stored.error); }
      if stored.value != combinedCrc { return Err(CrcMismatch); }
      phase := StreamStart;
      bit := c.bit;
      r := Ok(());
    }

    method BlockTurn(c: BitCursor, out0: seq<byte>) returns (r: Result<Option<Step>>, out: seq<byte>)
      requires bit == c.bit <= 8 * |c.data| && phase == InBlock
      modifies c, this
      ensures bit <= 8 * |c.data| && (r.Ok? ==> bit == c.bit)
      ensures Turned(NextMove(old(c.Rest()), old(State())), old(State()), r, out0, out, bit - old(bit))
    {
      hide BytesToBits, HeaderMove, NextMove, Plain, Intact, Combine, ParseBlock, Value;
      out := out0;
      MagicRead(BytesToBits(c.data), c.bit, State());
      var magic := c.ReadMagic();
      if magic.Err? { return Err(magic.error), out; }
      if magic.value == BLOCK_MAGIC {
        var block;
        block, out := DecodeBlock(c, out);
        if block.Err? { return Err(block.error), out; }
        bit := c.bit;
        return Ok(Some(Block)), out;
      } else if magic.value == EOS_MAGIC {
        var end := EndMark(c);
        return if end.Err? then Err(end.error) else Ok(None), out;
      } else {
        return Err(InvalidMagic), out;
      }
    }

    method Run(input: seq<byte>, out0: seq<byte>) returns (r: Result<Step>, out: seq<byte>)
      requires bit <= 8 * |input|
      modifies this
      ensures bit <= 8 * |input|
      ensures Carried(NextBlock(old(Left(input)), old(State())), r, out0, out, bit - old(bit))
    {
      hide BytesToBits, NextMove, NextBlock, Plain, Intact, AfterMove;
      out := out0;
      ghost var bits, start := BytesToBits(input), bit;
      ghost var want := NextBlock(bits[bit..], State());
      var c := new BitCursor(input, bit);
      FurtherNone(want);
      while true
        invariant c.data == input && start <= bit == c.bit <= 8 * |input| && out == out0
        invariant want == Further(bit - start, NextBlock(bits[bit..], State()))
        decreases 8 * |input| - bit
      {
        NextBlockMove(want, bits, start, bit, State());
        var turn;
        match phase {
          case StreamStart => turn := StartTurn(c, out);
          case InBlock => turn, out := BlockTurn(c, out);
        }
        if turn.Err? { return Err(turn.error), out; }
        if turn.value.Some? { return Ok(turn.value.value), out; }
      }
    }

    /** One call: at most one block's plaintext more, and none on an error. */
    method NextBlockInto(input: seq<byte>, out0: seq<byte>) returns (r: Result<Step>, out: seq<byte>)
      requires bit <= 8 * |input|
      modifies this
      ensures bit <= 8 * |input|
      ensures Carried(NextBlock(old(Left(input)), old(State())), r, out0, out, bit - old(bit))
      ensures r.Err? ==> out == out0
    {
      hide BytesToBits, NextBlock;
      r, out := Run(input, out0);
      if r.Err? {
        out := out[..|out0|];
      }
    }

    /** What preparing the next block must have done. */
    ghost predicate PreparedAs(want: PreparedMove, r: Result<PreparedStep>, p: Prepared, moved: int)
      reads this
    {
      match want
      case Got(q, u, m) => r == Ok(Ready(q.crc, q.origPtr)) && p == q && Threaded(tt, q.last) && moved == u
        && State() == m
      case NoMore(u, m) => r == Ok(Exhausted) && moved == u && State() == m
      case Refused(e) => r == Err(e)
    }

    /** What one turn of that must have done for one move: as `Turned`, but a block is only prepared. */
    ghost predicate TurnedOver(v: Move, m: Machine, r: Result<Option<PreparedStep>>, p: Prepared, moved: int)
      reads this
    {
      match v
      case Stuck(e) => r == Err(e)
      case InputEnded(u) => r == Ok(Some(Exhausted)) && moved == u && State() == m
      case HeaderRead(u, _) => r == Ok(None) && moved == u && State() == AfterMove(m, v)
      case StreamEnded(u) => r == Ok(None) && moved == u && State() == AfterMove(m, v)
      case BlockRead(u, q) =>
        r == Ok(Some(Ready(q.crc, q.origPtr))) && p == q && Threaded(tt, q.last) && moved == u && State() == m
    }

    method BlockTurnOver(c: BitCursor) returns (r: Result<Option<PreparedStep>>, ghost p: Prepared)
      requires bit == c.bit <= 8 * |c.data| && phase == InBlock
      modifies c, this
      ensures bit <= 8 * |c.data| && (r.Ok? ==> bit == c.bit)
      ensures TurnedOver(NextMove(old(c.Rest()), old(State())), old(State()), r, p, bit - old(bit))
    {
      hide BytesToBits, HeaderMove, NextMove, Plain, Intact, Combine, ParseBlock, Threaded, Value, Walkable, ReadBits;
      p := Prepared(0, 0, []);
      MagicRead(BytesToBits(c.data), c.bit, State());
      var magic := c.ReadMagic();
      if magic.Err? { return Err(magic.error), p; }
      if magic.value == BLOCK_MAGIC {
        var prepared;
        prepared, p := PrepareBlock(c);
        if prepared.Err? { return Err(prepared.error), p; }
        bit := c.bit;
        return Ok(Some(Ready(prepared.value.0, prepared.value.1))), p;
      } else if magic.value == EOS_MAGIC {
        var end := EndMark(c);
        return if end.Err? then Err(end.error) else Ok(None), p;
      } else {
        return Err(InvalidMagic), p;
      }
    }

    method StartTurnOver(c: BitCursor) returns (r: Result<Option<PreparedStep>>, ghost p: Prepared)
      requires bit == c.bit <= 8 * |c.data| && phase == StreamStart
      modifies c, this
      ensures bit <= 8 * |c.data| && (r.Ok? ==> bit == c.bit)
      ensures TurnedOver(NextMove(old(c.Rest()), old(State())), old(State()), r, p, bit - old(bit))
    {
      hide BytesToBits, HeaderMove, NextMove, Plain, Intact, Threaded;
      p := Prepared(0, 0, []);
      StartMoves(c.Rest(), State());
      var turn := StartTurn(c, []);
      r := match turn case Err(e) => Err(e) case Ok(None) => Ok(None) case Ok(Some(_)) => Ok(Some(Exhausted));
    }

    /** Headers and end marks are consumed as `Run` consumes them; the block is only prepared. */
    method PrepareNext(input: seq<byte>) returns (r: Result<PreparedStep>, ghost p: Prepared)
      requires bit <= 8 * |input|
      modifies this
      ensures bit <= 8 * |input|
      ensures PreparedAs(NextPrepared(old(Left(input)), old(State())), r, p, bit - old(bit))
    {
      hide BytesToBits, NextMove, NextPrepared, Onward, AfterMove, Threaded;
      p := Prepared(0, 0, []);
      ghost var bits, start := BytesToBits(input), bit;
      ghost var want := NextPrepared(bits[bit..], State());
      var c := new BitCursor(input, bit);
      OnwardNone(want);
      while true
        invariant c.data == input && start <= bit == c.bit <= 8 * |input|
        invariant want == Onward(bit - start, NextPrepared(bits[bit..], State()))
        decreases 8 * |input| - bit
      {
        NextPreparedMove(want, bits, start, bit, State());
        var turn;
        match phase {
          case StreamStart => turn, p := StartTurnOver(c);
          case InBlock => turn, p := BlockTurnOver(c);
        }
        if turn.Err? { return Err(turn.error), p; }
        if turn.value.Some? { return Ok(turn.value.value), p; }
      }
    }
  }

  // ----- preparing without walking -----

  datatype PreparedMove =
    | Got(block: Prepared, used: nat, next: Machine)
    | NoMore(used: nat, next: Machine)
    | Refused(error: Error)

  function Onward(u: nat, r: PreparedMove): PreparedMove {
    match r
    case Got(p, used, m) => Got(p, u + used, m)
    case NoMore(used, m) => NoMore(u + used, m)
    case Refused(e) => Refused(e)
  }

  /** The next block, parsed but neither walked nor checked nor folded into the combined CRC. */
  ghost function NextPrepared(s: seq<bit>, m: Machine): (r: PreparedMove)
    ensures r.Got? ==> Walkable(r.block) && 0 < r.used <= |s| && r.next.phase == InBlock
    decreases |s|
  {
    MoveInside(s, m);
    var v := NextMove(s, m);
    match v
    case Stuck(e) => Refused(e)
    case InputEnded(u) => NoMore(u, m)
    case HeaderRead(u, _) => Onward(u, NextPrepared(s[u..], AfterMove(m, v)))
    case StreamEnded(u) => Onward(u, NextPrepared(s[u..], AfterMove(m, v)))
    case BlockRead(u, p) => Got(p, u, m)
  }

  /** The state once a prepared block has been walked and found intact. */
  function Folded(m: Machine, p: Prepared): Machine {
    m.(combined := Combine(m.combined, p.crc))
  }

  /** Decoding everything is preparing one block, checking it, and decoding the rest. */
  lemma {:induction false} DecodeByPreparing(s: seq<bit>, m: Machine)
    ensures match NextPrepared(s, m)
      case Got(p, u, next) =>
        DecodeAll(s, m) == if Intact(p) then Ahead(Plain(p), DecodeAll(s[u..], Folded(next, p))) else Err(CrcMismatch)
      case NoMore(_, _) => DecodeAll(s, m) == Ok([])
      case Refused(e) => DecodeAll(s, m) == Err(e)
    decreases |s|
  {
    hide NextMove, Intact, Plain;
    MoveInside(s, m);
    var v := NextMove(s, m);
    if v.HeaderRead? || v.StreamEnded? {
      DecodeByPreparing(s[v.used..], AfterMove(m, v));
      var r := NextPrepared(s[v.used..], AfterMove(m, v));
      if r.Got? { DropSum(s, v.used, r.used); }
    }
  }

  lemma OnwardNone(want: PreparedMove)
    ensures Onward(0, want) == want
  {
  }

  lemma NextPreparedMove(want: PreparedMove, bits: seq<bit>, start: nat, at: nat, m: Machine)
    requires start <= at <= |bits| && want == Onward(at - start, NextPrepared(bits[at..], m))
    ensures var v := NextMove(bits[at..], m);
      match v
      case Stuck(e) => want == Refused(e)
      case InputEnded(u) => want == NoMore(at - start + u, m)
      case HeaderRead(u, _) =>
        0 < u && at + u <= |bits| && want == Onward(at + u - start, NextPrepared(bits[at + u..], AfterMove(m, v)))
      case StreamEnded(u) =>
        0 < u && at + u <= |bits| && want == Onward(at + u - start, NextPrepared(bits[at + u..], AfterMove(m, v)))
      case BlockRead(u, p) => want == Got(p, at - start + u, m)
  {
    hide NextMove;
    MoveInside(bits[at..], m);
    var v := NextMove(bits[at..], m);
    if v.HeaderRead? || v.StreamEnded? { DropSum(bits, at, v.used); }
  }

  lemma StartMoves(s: seq<bit>, m: Machine)
    requires m.phase == StreamStart
    ensures NextMove(s, m) == HeaderMove(s) && !NextMove(s, m).BlockRead? && !NextMove(s, m).StreamEnded?
  {
  }

  lemma FurtherNone(want: Stepped)
    ensures Further(0, want) == want
  {
  }

  /** One move onward, from the position `at`. */
  lemma NextBlockMove(want: Stepped, bits: seq<bit>, start: nat, at: nat, m: Machine)
    requires start <= at <= |bits| && want == Further(at - start, NextBlock(bits[at..], m))
    ensures var v := NextMove(bits[at..], m);
      match v
      case Stuck(e) => want == Halted(e, at - start, m)
      case InputEnded(u) => want == AtEnd(at - start + u, m)
      case HeaderRead(u, _) =>
        0 < u && at + u <= |bits| && want == Further(at + u - start, NextBlock(bits[at + u..], AfterMove(m, v)))
      case StreamEnded(u) =>
        0 < u && at + u <= |bits| && want == Further(at + u - start, NextBlock(bits[at + u..], AfterMove(m, v)))
      case BlockRead(u, p) =>
        Walkable(p) && at + u <= |bits| &&
        (if Intact(p) then want == Produced(Plain(p), at - start + u, AfterMove(m, v))
         else want == Halted(CrcMismatch, at - start, m))
  {
    MoveInside(bits[at..], m);
    var v := NextMove(bits[at..], m);
    if v.HeaderRead? || v.StreamEnded? { DropSum(bits, at, v.used); }
  }

  /** The in-block move, seen from the position `at` behind the magic. */
  lemma MagicRead(bits: seq<bit>, at: nat, m: Machine)
    requires at <= |bits| && m.phase == InBlock
    ensures var s := bits[at..];
      match ReadBits(s, 48)
      case Fail(e) => NextMove(s, m) == Stuck(e)
      case Done(magic, _) =>
        at + 48 <= |bits| && s[48..] == bits[at + 48..] &&
        NextMove(s, m) ==
          if magic == BLOCK_MAGIC then
            (match ParseBlock(s[48..], m.size)
             case Fail(e) => Stuck(e)
             case Done(p, u) => BlockRead(48 + u, p))
          else if magic == EOS_MAGIC then
            (match ReadBits(s[48..], 32)
             case Fail(e) => Stuck(e)
             case Done(stored, _) => if stored != m.combined then Stuck(CrcMismatch) else StreamEnded(80))
          else Stuck(InvalidMagic)
  {
    if ReadBits(bits[at..], 48).Done? { DropSum(bits, at, 48); }
  }
}
