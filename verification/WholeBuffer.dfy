/** Decoding a whole buffer: block at a time, and as software-pipelined pairs. Both compute `DecodeAll`. */
module WholeBuffer {
  import opened Sequences
  import opened Bits
  import opened Results
  import opened Crc
  import opened BitReading
  import Bwt
  import opened RunLength
  import opened Walking
  import opened BlockFormat
  import opened BlockWritten
  import opened StreamFormat
  import opened BlockDecoding

  lemma AheadTwice(a: seq<byte>, b: seq<byte>, r: Result<seq<byte>>)
    ensures Ahead(a, Ahead(b, r)) == Ahead(a + b, r)
  {
    match r
    case Ok(c) => assert a + (b + c) == a + b + c;
    case Err(_) =>
  }

  lemma AheadNone(r: Result<seq<byte>>)
    ensures Ahead([], r) == r
  {
    match r
    case Ok(c) => assert [] + c == c;
    case Err(_) =>
  }

  lemma AheadEnds(a: seq<byte>, e: Error)
    ensures Ahead(a, Ok([])) == Ok(a) && Ahead(a, Err(e)) == Err(e)
  {
    assert a + [] == a;
  }

  // ----- block at a time -----

  /** Plain serial decoding of everything behind a boundary. */
  method FinishSerially(input: seq<byte>, bit: nat, phase: Phase, blockSize: nat, combined: word, out0: seq<byte>)
    returns (r: Result<()>, out: seq<byte>)
    requires bit <= 8 * |input|
    ensures match Ahead(out0, DecodeAll(BytesToBits(input)[bit..], Machine(phase, blockSize, combined)))
      case Ok(all) => r == Ok(()) && out == all
      case Err(e) => r == Err(e)
  {
    hide BytesToBits, DecodeAll, NextBlock, Ahead;
    ghost var bits := BytesToBits(input);
    ghost var want := Ahead(out0, DecodeAll(bits[bit..], Machine(phase, blockSize, combined)));
    out := out0;
    var dec := new BlockDecoder();
    dec.bit := bit;
    dec.phase := phase;
    dec.blockSize := blockSize;
    dec.combinedCrc := combined;
    while true
      invariant dec.bit <= 8 * |input| && want == Ahead(out, DecodeAll(bits[dec.bit..], dec.State()))
      decreases 8 * |input| - dec.bit
    {
      ghost var at, s := dec.bit, bits[dec.bit..];
      SerialStep(want, out, s, dec.State());
      var step;
      step, out := dec.NextBlockInto(input, out);
      if step.Err? { return Err(step.error), out; }
      if step.value == Eof { return Ok(()), out; }
      DropSum(bits, at, dec.bit - at);
    }
  }

  lemma SerialStep(want: Result<seq<byte>>, out: seq<byte>, s: seq<bit>, m: Machine)
    requires want == Ahead(out, DecodeAll(s, m))
    ensures match NextBlock(s, m)
      case Produced(o, u, next) => want == Ahead(out + o, DecodeAll(s[u..], next))
      case AtEnd(_, _) => want == Ok(out)
      case Halted(e, _, _) => want == Err(e)
  {
    hide DecodeAll, NextBlock;
    DecodeByBlocks(s, m);
    match NextBlock(s, m)
    case Produced(o, u, next) => AheadTwice(out, o, DecodeAll(s[u..], next));
    case AtEnd(_, _) => AheadEnds(out, Truncated);
    case Halted(e, _, _) => AheadEnds(out, e);
  }

  // ----- pairs -----

  lemma PrepareStep(want: Result<seq<byte>>, out: seq<byte>, s: seq<bit>, m: Machine)
    requires want == Ahead(out, DecodeAll(s, m))
    ensures match NextPrepared(s, m)
      case Got(p, u, next) =>
        (Intact(p) ==> want == Ahead(out + Plain(p), DecodeAll(s[u..], Folded(next, p)))) &&
        (!Intact(p) ==> want == Err(CrcMismatch))
      case NoMore(_, _) => want == Ok(out)
      case Refused(e) => want == Err(e)
  {
    hide DecodeAll, NextPrepared, Intact, Plain;
    DecodeByPreparing(s, m);
    match NextPrepared(s, m)
    case Got(p, u, next) =>
      AheadTwice(out, Plain(p), DecodeAll(s[u..], Folded(next, p)));
      AheadEnds(out, CrcMismatch);
    case NoMore(_, _) => AheadEnds(out, Truncated);
    case Refused(e) => AheadEnds(out, e);
  }

  /** A block that follows at once, prepared ahead: if it is intact, its plaintext is next. */
  lemma FollowStep(want: Result<seq<byte>>, out: seq<byte>, s: seq<bit>, m: Machine, q: Prepared, u: nat)
    requires want == Ahead(out, DecodeAll(s, m)) && m.phase == InBlock
    requires ReadBits(s, 48) == Done(BLOCK_MAGIC, 48) && ParseBlock(s[48..], m.size) == Done(q, u)
    ensures Walkable(q) && 48 + u <= |s|
    ensures Intact(q) ==> want == Ahead(out + Plain(q), DecodeAll(s[48 + u..], Folded(m, q)))
  {
    hide NextMove, Intact, Plain, Ahead;
    FollowMove(s, m, q, u);
    MoveInside(s, m);
    AheadTwice(out, Plain(q), DecodeAll(s[48 + u..], Folded(m, q)));
  }

  lemma FollowMove(s: seq<bit>, m: Machine, q: Prepared, u: nat)
    requires m.phase == InBlock && ReadBits(s, 48) == Done(BLOCK_MAGIC, 48) && ParseBlock(s[48..], m.size) == Done(q, u)
    ensures NextMove(s, m) == BlockRead(48 + u, q) && AfterMove(m, BlockRead(48 + u, q)) == Folded(m, q)
  {
    hide ParseBlock, ReadBits;
  }

  /** Look for a block directly behind the one being walked and get it ready; nothing is committed by that. */
  method PrepareFollower(b: BlockDecoder, compressed: seq<byte>, bit: nat, blockSize: nat)
    returns (follow: Option<(word, nat, nat)>, ghost q: Prepared)
    requires bit <= 8 * |compressed|
    modifies b
    ensures follow.Some? ==>
      var s := BytesToBits(compressed)[bit..];
      && bit + 48 <= follow.value.2 <= 8 * |compressed| && ReadBits(s, 48) == Done(BLOCK_MAGIC, 48)
      && ParseBlock(s[48..], blockSize) == Done(q, follow.value.2 - bit - 48)
      && follow.value.0 == q.crc && follow.value.1 == q.origPtr && Threaded(b.tt, q.last)
  {
    hide BytesToBits, ParseBlock, Threaded, Value;
    q := Prepared(0, 0, []);
    b.bit := bit;
    b.phase := InBlock;
    b.blockSize := blockSize;
    var c := new BitCursor(compressed, bit);
    var magic := c.ReadMagic();
    if magic != Ok(BLOCK_MAGIC) { return None, q; }
    DropSum(BytesToBits(compressed), bit, 48);
    var prepared;
    prepared, q := b.PrepareBlock(c);
    if prepared.Err? { return None, q; }
    follow := Some((prepared.value.0, prepared.value.1, c.bit));
  }

  /** Decode a whole buffer, consecutive blocks as interleaved pairs. Preparing ahead, walking two blocks at
      once and dropping a mismatched partner change neither the output nor the error. */
  method DecompressToVecWith(a: BlockDecoder, b: BlockDecoder, compressed: seq<byte>) returns (r: Result<seq<byte>>)
    requires a != b
    modifies a, b
    ensures r == DecodeFile(compressed)
  {
    hide BytesToBits, DecodeAll, NextPrepared, Ahead, Intact, Plain, Threaded, Folded, ParseBlock, ReadBits;
    a.bit := 0;
    a.phase := StreamStart;
    a.combinedCrc := 0;
    var out: seq<byte> := [];
    ghost var bits, want := BytesToBits(compressed), DecodeFile(compressed);
    StartsAnySize(bits, a.blockSize);
    AheadNone(want);
    assert bits[0..] == bits;
    while true
      invariant a.bit <= 8 * |compressed| && want == Ahead(out, DecodeAll(bits[a.bit..], a.State()))
      decreases 8 * |compressed| - a.bit
    {
      ghost var start := a.bit;
      PrepareStep(want, out, bits[start..], a.State());
      var step, p := a.PrepareNext(compressed);
      if step.Err? { return Err(step.error); }
      if step.value.Exhausted? { return Ok(out); }
      DropSum(bits, start, a.bit - start);
      out, r := WalkOneOrTwo(a, b, compressed, step.value.crc, step.value.origPtr, out, want, p);
      if r.Err? { return; }
    }
  }

  /** The size a decoder starts with is never looked at before a header sets it. */
  lemma StartsAnySize(s: seq<bit>, size: nat)
    ensures DecodeAll(s, Machine(StreamStart, size, 0)) == DecodeAll(s, INITIAL)
  {
    hide BlockMove;
  }

  /** Walk the prepared block, and its follower beside it if there is one. */
  method WalkOneOrTwo(a: BlockDecoder, b: BlockDecoder, compressed: seq<byte>, crc: word, origPtr: nat, out0: seq<byte>,
                      ghost want: Result<seq<byte>>, ghost p: Prepared)
    returns (out: seq<byte>, r: Result<seq<byte>>)
    requires a != b && a.bit <= 8 * |compressed| && a.phase == InBlock
    requires Walkable(p) && Threaded(a.tt, p.last) && crc == p.crc && origPtr == p.origPtr
    requires Intact(p) ==> want == Ahead(out0 + Plain(p), DecodeAll(a.Left(compressed), Folded(a.State(), p)))
    requires !Intact(p) ==> want == Err(CrcMismatch)
    modifies a, b
    ensures r.Err? ==> r == want
    ensures r.Ok? ==>
      old(a.bit) <= a.bit <= 8 * |compressed| && want == Ahead(out, DecodeAll(a.Left(compressed), a.State()))
  {
    hide BytesToBits, DecodeAll, Ahead, Bwt.Cell, ParseBlock, ReadBits, Combine, Expand, Bwt.Unwind;
    var follow, q := PrepareFollower(b, compressed, a.bit, a.blockSize);
    match follow {
      case Some(next) =>
        FollowWalkable(compressed, a.bit, a.blockSize, q, next.2 - a.bit - 48);
        var wa := new WalkCursor(a.tt, origPtr, out0, p.last);
        var wb := new WalkCursor(b.tt, next.1, [], q.last);
        var ca, cb := WalkPair(wa, wb);
        assert [] + Plain(q) == Plain(q);
        assert ca == Checksum(Plain(p)) && cb == Checksum(Plain(q));
        if ca != crc { return out0, Err(CrcMismatch); }
        a.combinedCrc := Combine(a.combinedCrc, crc);
        out := wa.out;
        assert out == out0 + Plain(p);
        FollowStep(want, out, a.Left(compressed), a.State(), q, next.2 - a.bit - 48);
        if cb == next.0 {
          DropSum(BytesToBits(compressed), a.bit, next.2 - a.bit);
          out := out + wb.out;
          a.combinedCrc := Combine(a.combinedCrc, next.0);
          a.bit := next.2;
        }
        r := Ok([]);
      case None =>
        var checksum;
        out, checksum := Walk(a.tt, origPtr, out0, p);
        if checksum != crc { return out, Err(CrcMismatch); }
        a.combinedCrc := Combine(a.combinedCrc, crc);
        r := Ok([]);
    }
  }

  lemma FollowWalkable(compressed: seq<byte>, bit: nat, size: nat, q: Prepared, u: nat)
    requires bit <= 8 * |compressed|
    requires var s := BytesToBits(compressed)[bit..]; 48 <= |s| && ParseBlock(s[48..], size) == Done(q, u)
    ensures Walkable(q)
  {
  }
}
