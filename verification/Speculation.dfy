/** Parallel decoding: blocks decoded at guessed bit offsets, and the chain that accepts only what serial
    decoding would have produced. */
module Speculation {
  import opened Sequences
  import opened Bits
  import opened Results
  import opened Crc
  import opened BitReading
  import Bwt
  import opened RunLength
  import opened Walking
  import opened BlockFormat
  import opened BlockWritten
  import opened StreamFormat
  import opened BlockDecoding
  import opened WholeBuffer
  import Scanning

  /** No level declares a larger size. */
  const MAX_BLOCK_SIZE: nat := 900_000

  /** A candidate that decoded cleanly. */
  datatype Decoded = Decoded(endBit: nat, out: seq<byte>, crc: word, nblock: nat)

  datatype Guess = Nothing | Located(block: Prepared, used: nat)

  /** The block at the front of `s`, magic included, under the largest size. */
  ghost function BlockAt(s: seq<bit>): (r: Guess)
    ensures r.Located? ==> Walkable(r.block) && 48 + r.used <= |s|
  {
    if ReadBits(s, 48) != Done(BLOCK_MAGIC, 48) then Nothing
    else match ParseBlock(s[48..], MAX_BLOCK_SIZE)
      case Fail(_) => Nothing
      case Done(p, u) => Located(p, u)
  }

  /** What a speculative decode at `start` should come to. */
  ghost function Speculated(input: seq<byte>, start: nat): Option<Decoded>
    requires start <= 8 * |input|
  {
    Checked(BlockAt(BytesToBits(input)[start..]), start)
  }

  /** A located block counts if its plaintext has the stored CRC. */
  ghost function Checked(at: Guess, start: nat): Option<Decoded>
    requires at.Located? ==> Walkable(at.block)
  {
    if at.Located? && Intact(at.block) then
      Some(Decoded(start + 48 + at.used, Plain(at.block), at.block.crc, |at.block.last|))
    else None
  }

  // ----- speculative decoding -----

  ghost predicate PreparedAt(at: Guess, start: nat, prep: Option<(word, nat, nat)>, p: Prepared, dec: BlockDecoder)
    reads dec
  {
    match at
    case Nothing => prep == None
    case Located(q, u) => p == q && prep == Some((q.crc, q.origPtr, start + 48 + u)) && Threaded(dec.tt, q.last)
  }

  /** Magic, headers, symbols and threading of a guessed block; `None` for anything that is not one. */
  method PrepareSpeculative(dec: BlockDecoder, input: seq<byte>, start: nat)
    returns (prep: Option<(word, nat, nat)>, ghost p: Prepared)
    requires start <= 8 * |input|
    modifies dec
    ensures PreparedAt(BlockAt(BytesToBits(input)[start..]), start, prep, p, dec)
  {
    hide BytesToBits, ParseBlock, Threaded, Value;
    p := Prepared(0, 0, []);
    dec.bit := start;
    dec.phase := InBlock;
    dec.blockSize := MAX_BLOCK_SIZE;
    var c := new BitCursor(input, start);
    var magic := c.ReadMagic();
    if magic != Ok(BLOCK_MAGIC) { return None, p; }
    DropSum(BytesToBits(input), start, 48);
    var prepared;
    prepared, p := dec.PrepareBlock(c);
    if prepared.Err? { return None, p; }
    prep := Some((prepared.value.0, prepared.value.1, c.bit));
  }

  /** A walked block counts only if its data has the stored CRC. */
  function Accept(prep: Option<(word, nat, nat)>, crc: word, out: seq<byte>, nblock: nat): Option<Decoded> {
    if prep.None? || crc != prep.value.0 then None else Some(Decoded(prep.value.2, out, prep.value.0, nblock))
  }

  lemma AcceptIsChecked(at: Guess, start: nat, prep: Option<(word, nat, nat)>, crc: word, out: seq<byte>, nblock: nat)
    requires at.Located? && Walkable(at.block) && prep == Some((at.block.crc, at.block.origPtr, start + 48 + at.used))
    requires out == Plain(at.block) && crc == Checksum(out) && nblock == |at.block.last|
    ensures Accept(prep, crc, out, nblock) == Checked(at, start)
  {
    hide Plain, Checksum;
  }

  /** Decode up to two candidates with their walks interleaved. */
  method SpeculatePair(a: BlockDecoder, b: BlockDecoder, input: seq<byte>, s1: nat, s2: Option<nat>)
    returns (da: Option<Decoded>, db: Option<Decoded>)
    requires a != b && s1 <= 8 * |input| && (s2.Some? ==> s2.value <= 8 * |input|)
    modifies a, b
    ensures da == Speculated(input, s1)
    ensures db == if s2.Some? then Speculated(input, s2.value) else None
  {
    hide BytesToBits, BlockAt, Bwt.Cell, Expand, Bwt.Unwind, Fold;
    var prepA, p := PrepareSpeculative(a, input, s1);
    var prepB: Option<(word, nat, nat)> := None;
    ghost var q := Prepared(0, 0, []);
    if s2.Some? { prepB, q := PrepareSpeculative(b, input, s2.value); }
    var outA, outB: seq<byte> := [], [];
    var crcA: word, crcB: word := 0, 0;
    if prepA.Some? && prepB.Some? {
      var wa := new WalkCursor(a.tt, prepA.value.1, [], p.last);
      var wb := new WalkCursor(b.tt, prepB.value.1, [], q.last);
      crcA, crcB := WalkPair(wa, wb);
      outA, outB := wa.out, wb.out;
    } else if prepA.Some? {
      outA, crcA := Walk(a.tt, prepA.value.1, [], p);
    } else if prepB.Some? {
      outB, crcB := Walk(b.tt, prepB.value.1, [], q);
    }
    if prepA.Some? {
      assert [] + Plain(p) == Plain(p);
      AcceptIsChecked(BlockAt(BytesToBits(input)[s1..]), s1, prepA, crcA, outA, |a.tt|);
    }
    if prepB.Some? {
      assert [] + Plain(q) == Plain(q);
      AcceptIsChecked(BlockAt(BytesToBits(input)[s2.value..]), s2.value, prepB, crcB, outB, |b.tt|);
    }
    da := Accept(prepA, crcA, outA, |a.tt|);
    db := Accept(prepB, crcB, outB, |b.tt|);
  }

  /** Every entry is a genuine decode at its offset. Nothing says that an offset is a block boundary. */
  ghost predicate Genuine(input: seq<byte>, blocks: map<nat, Decoded>) {
    forall k <- blocks :: k <= 8 * |input| && Speculated(input, k) == Some(blocks[k])
  }

  /** Speculate at every candidate, one or two at a time: the map holds exactly those that decode. */
  method SpeculateAll(input: seq<byte>, starts: seq<nat>, paired: bool) returns (blocks: map<nat, Decoded>)
    requires forall i :: 0 <= i < |starts| ==> starts[i] <= 8 * |input|
    ensures Genuine(input, blocks)
    ensures forall k :: k in blocks <==> k in starts && k <= 8 * |input| && Speculated(input, k).Some?
  {
    hide Speculated;
    blocks := map[];
    var a := new BlockDecoder();
    var b := new BlockDecoder();
    var i := 0;
    while i < |starts|
      invariant 0 <= i && Genuine(input, blocks) && blocks.Keys <= set k <- starts
      invariant forall j :: 0 <= j < i && j < |starts| && Speculated(input, starts[j]).Some? ==> starts[j] in blocks
      decreases |starts| - i
    {
      var second := if paired && i + 1 < |starts| then Some(starts[i + 1]) else None;
      var da, db := SpeculatePair(a, b, input, starts[i], second);
      if da.Some? { blocks := blocks[starts[i] := da.value]; }
      if db.Some? { blocks := blocks[starts[i + 1] := db.value]; }
      i := i + if paired then 2 else 1;
    }
  }

  // ----- the chain -----

  /** The move at a block magic under the declared size, from the decode under the largest. */
  lemma GuessedMove(s: seq<bit>, start: nat, m: Machine)
    requires m.phase == InBlock && m.size <= MAX_BLOCK_SIZE && ReadBits(s, 48) == Done(BLOCK_MAGIC, 48)
    ensures var at, v := BlockAt(s), NextMove(s, m);
      var d := Checked(at, start);
      if d.Some? && d.value.nblock <= m.size then
        && v == BlockRead(48 + at.used, at.block) && Intact(at.block) && d.value.crc == at.block.crc
        && d.value.endBit == start + 48 + at.used && start + 48 + at.used <= start + |s|
      else v.Stuck? || (v.BlockRead? && Walkable(v.block) && !Intact(v.block))
  {
    hide ParseBlock, Intact, Plain, ReadBits, AfterMove;
    ParseBlockUnderSize(s[48..], m.size, MAX_BLOCK_SIZE);
    match ParseBlock(s[48..], m.size)
    case Fail(_) =>
    case Done(p, u) => FollowMove(s, m, p, u);
  }

  lemma StartsInBlock(s: seq<bit>, at: nat, m: Machine)
    requires NextMove(s, m).BlockRead? || NextMove(s, m).Stuck?
    ensures match NextMove(s, m)
      case BlockRead(u, p) =>
        && 0 < u <= |s| && Walkable(p)
        && BlockStarts(s, at, m) ==
             if Intact(p) then [at] + BlockStarts(s[u..], at + u, m.(combined := Combine(m.combined, p.crc))) else []
      case _ => BlockStarts(s, at, m) == []
  {
    hide NextMove, Intact;
    MoveInside(s, m);
  }

  /** At a block magic: a block that decodes and fits is the next one handed out; after any other there is none. */
  lemma StartsBlock(input: seq<byte>, bit: nat, m: Machine)
    requires bit <= 8 * |input| && m.phase == InBlock && m.size <= MAX_BLOCK_SIZE
    requires ReadBits(BytesToBits(input)[bit..], 48) == Done(BLOCK_MAGIC, 48)
    ensures var starts, d := BlockStarts(BytesToBits(input)[bit..], bit, m), Speculated(input, bit);
      if d.Some? && d.value.nblock <= m.size then
        && bit < d.value.endBit <= 8 * |input|
        && starts == [bit] + BlockStarts(BytesToBits(input)[d.value.endBit..], d.value.endBit,
                                         m.(combined := Combine(m.combined, d.value.crc)))
      else starts == []
  {
    hide BytesToBits, NextMove, BlockAt, Intact, Checked, ReadBits, BlockStarts, Plain, Combine;
    var s := BytesToBits(input)[bit..];
    GuessedMove(s, bit, m);
    StartsInBlock(s, bit, m);
    if NextMove(s, m).BlockRead? { DropSum(BytesToBits(input), bit, NextMove(s, m).used); }
  }

  /** Neither at a block magic nor at an intact end mark nothing more is handed out. */
  lemma StartsNothing(s: seq<bit>, at: nat, m: Machine)
    requires m.phase == InBlock && ReadBits(s, 48) != Done(BLOCK_MAGIC, 48)
    requires ReadBits(s, 48) == Done(EOS_MAGIC, 48) ==> ReadBits(s[48..], 32) != Done(m.combined, 32)
    ensures BlockStarts(s, at, m) == []
  {
    hide ParseBlock, Intact, Value;
  }

  lemma StartsEnd(bits: seq<bit>, bit: nat, m: Machine)
    requires bit + 80 <= |bits| && m.phase == InBlock
    requires ReadBits(bits[bit..], 48) == Done(EOS_MAGIC, 48) && ReadBits(bits[bit + 48..], 32) == Done(m.combined, 32)
    ensures BlockStarts(bits[bit..], bit, m) == BlockStarts(bits[bit + 80..], bit + 80, m.(phase := StreamStart))
  {
    hide ParseBlock, ReadBits, Intact;
    DropSum(bits, bit, 48);
    DropSum(bits, bit, 80);
  }

  lemma StartsHeader(s: seq<bit>, at: nat, m: Machine)
    requires m.phase == StreamStart
    ensures var v := HeaderMove(s);
      if v.HeaderRead? then
        && v.used <= |s|
        && BlockStarts(s, at, m) == BlockStarts(s[v.used..], at + v.used, Machine(InBlock, v.size, 0))
      else BlockStarts(s, at, m) == []
  {
    hide BlockMove, Intact, HeaderAt, Value, FramingAhead;
    HeaderFraming(s, m);
    MoveInside(s, m);
  }

  /** Every block that is handed out is a candidate that decodes. */
  lemma {:induction false} StartsDecode(input: seq<byte>, bit: nat, m: Machine, k: nat)
    requires bit <= 8 * |input| && m.size <= MAX_BLOCK_SIZE && k in BlockStarts(BytesToBits(input)[bit..], bit, m)
    ensures k <= 8 * |input| && Speculated(input, k).Some?
      && ReadBits(BytesToBits(input)[k..], 48) == Done(BLOCK_MAGIC, 48)
    decreases 8 * |input| - bit
  {
    hide BytesToBits, ReadBits, Speculated, HeaderMove, BlockStarts;
    var bits := BytesToBits(input);
    var s := bits[bit..];
    if m.phase == StreamStart {
      StartsHeader(s, bit, m);
      MoveInside(s, m);
      var v := HeaderMove(s);
      DropSum(bits, bit, v.used);
      StartsDecode(input, bit + v.used, Machine(InBlock, v.size, 0), k);
    } else if ReadBits(s, 48) == Done(BLOCK_MAGIC, 48) {
      StartsBlock(input, bit, m);
      var d := Speculated(input, bit).value;
      if k != bit { StartsDecode(input, d.endBit, m.(combined := Combine(m.combined, d.crc)), k); }
    } else if ReadBits(s, 48) == Done(EOS_MAGIC, 48) && ReadBits(s[48..], 32) == Done(m.combined, 32) {
      EndInside(bits, bit, m);
      StartsEnd(bits, bit, m);
      StartsDecode(input, bit + 80, m.(phase := StreamStart), k);
    } else {
      StartsNothing(s, bit, m);
    }
  }

  lemma EndInside(bits: seq<bit>, bit: nat, m: Machine)
    requires bit <= |bits| && ReadBits(bits[bit..], 48).Done? && ReadBits(bits[bit..][48..], 32) == Done(m.combined, 32)
    ensures bit + 80 <= |bits| && ReadBits(bits[bit + 48..], 32) == Done(m.combined, 32)
  {
    hide Value;
    DropSum(bits, bit, 48);
  }

  /** Of the blocks that begin at `starts`, the chain takes the first `n`: all of those before the first that is
      missing from the map. */
  ghost predicate Taken(starts: seq<nat>, blocks: map<nat, Decoded>, n: nat) {
    && n <= |starts| && (forall i :: 0 <= i < n ==> starts[i] in blocks)
    && (n < |starts| ==> starts[n] !in blocks)
  }

  datatype Segment = Fast(block: Decoded) | Serial(bytes: seq<byte>)

  function SegmentBytes(s: Segment): seq<byte> {
    match s
    case Fast(d) => d.out
    case Serial(v) => v
  }

  function Stitched(segments: seq<Segment>): seq<byte> {
    if segments == [] then [] else Stitched(segments[..|segments| - 1]) + SegmentBytes(segments[|segments| - 1])
  }

  lemma StitchedMore(segments: seq<Segment>, s: Segment)
    ensures Stitched(segments + [s]) == Stitched(segments) + SegmentBytes(s)
  {
    assert (segments + [s])[..|segments|] == segments;
  }

  method Stitch(segments: seq<Segment>) returns (out: seq<byte>)
    ensures out == Stitched(segments)
  {
    out := [];
    var i := 0;
    while i < |segments|
      invariant 0 <= i <= |segments| && out == Stitched(segments[..i])
    {
      assert segments[..i + 1][..i] == segments[..i];
      out := out + SegmentBytes(segments[i]);
      i := i + 1;
    }
    assert segments[..i] == segments;
  }

  /** A block that fits a declared size parses the same under it. */
  lemma FittingParses(s: seq<bit>, size: nat)
    requires BlockAt(s).Located? && |BlockAt(s).block.last| <= size <= MAX_BLOCK_SIZE
    ensures ReadBits(s, 48) == Done(BLOCK_MAGIC, 48)
    ensures ParseBlock(s[48..], size) == Done(BlockAt(s).block, BlockAt(s).used)
  {
    hide ParseBlock, ReadBits;
    ParseBlockUnderSize(s[48..], size, MAX_BLOCK_SIZE);
  }

  /** Accepting a genuine decode whose length fits the declared size is what serial decoding does there. */
  lemma AcceptStep(want: Result<seq<byte>>, segments: seq<Segment>, input: seq<byte>, bit: nat, m: Machine, d: Decoded)
    requires bit <= 8 * |input| && want == Ahead(Stitched(segments), DecodeAll(BytesToBits(input)[bit..], m))
    requires m.phase == InBlock && m.size <= MAX_BLOCK_SIZE && d.nblock <= m.size && Speculated(input, bit) == Some(d)
    ensures bit < d.endBit <= 8 * |input|
    ensures want == Ahead(Stitched(segments + [Fast(d)]),
                          DecodeAll(BytesToBits(input)[d.endBit..], m.(combined := Combine(m.combined, d.crc))))
  {
    hide BytesToBits, ParseBlock, Intact, Plain, ReadBits, Stitched, DecodeAll, Ahead, Combine;
    var s := BytesToBits(input)[bit..];
    var p, u := BlockAt(s).block, BlockAt(s).used;
    FittingParses(s, m.size);
    FollowStep(want, Stitched(segments), s, m, p, u);
    DropSum(BytesToBits(input), bit, 48 + u);
    StitchedMore(segments, Fast(d));
  }

  /** An end mark with the right combined CRC moves on to the next stream. */
  lemma EndStep(want: Result<seq<byte>>, out: seq<byte>, bits: seq<bit>, bit: nat, m: Machine)
    requires bit + 80 <= |bits| && m.phase == InBlock && want == Ahead(out, DecodeAll(bits[bit..], m))
    requires ReadBits(bits[bit..], 48) == Done(EOS_MAGIC, 48) && ReadBits(bits[bit + 48..], 32) == Done(m.combined, 32)
    ensures want == Ahead(out, DecodeAll(bits[bit + 80..], m.(phase := StreamStart)))
  {
    hide ParseBlock, ReadBits, Intact, Plain, Ahead;
    DropSum(bits, bit, 48);
    DropSum(bits, bit, 80);
  }

  /** A header moves on to its first block; what was carried before it is forgotten. */
  lemma HeaderStep(want: Result<seq<byte>>, out: seq<byte>, s: seq<bit>, m: Machine)
    requires m.phase == StreamStart && want == Ahead(out, DecodeAll(s, m))
    ensures var v := HeaderMove(s);
      && (v.HeaderRead? ==>
          0 < v.used <= |s| && v.size <= MAX_BLOCK_SIZE
            && want == Ahead(out, DecodeAll(s[v.used..], Machine(InBlock, v.size, 0))))
      && (v.InputEnded? ==> want == Ok(out))
      && (v.Stuck? ==> want == Ahead(out, DecodeAll(s, INITIAL)))
  {
    hide BlockMove, Intact, Plain;
    MoveInside(s, m);
    AheadEnds(out, Truncated);
  }

  /** The chain has taken the first `n` of `starts`, `rest` is still to come, and the map has lost nothing at or
      behind `bit`. */
  ghost predicate Chained(starts: seq<nat>, blocks0: map<nat, Decoded>, blocks: map<nat, Decoded>, n: nat, bit: nat,
                          rest: seq<nat>)
  {
    && n <= |starts| && starts[n..] == rest && (forall i :: 0 <= i < n ==> starts[i] in blocks0)
    && (forall k :: k >= bit ==> (k in blocks <==> k in blocks0))
  }

  lemma ChainStarts(starts: seq<nat>, blocks: map<nat, Decoded>)
    ensures Chained(starts, blocks, blocks, 0, 0, starts)
  {
  }

  lemma ChainMoves(starts: seq<nat>, blocks0: map<nat, Decoded>, blocks: map<nat, Decoded>, n: nat, bit: nat,
                   rest: seq<nat>, end: nat)
    requires Chained(starts, blocks0, blocks, n, bit, rest) && end >= bit
    ensures Chained(starts, blocks0, blocks, n, end, rest)
  {
  }

  lemma ChainTakes(starts: seq<nat>, blocks0: map<nat, Decoded>, blocks: map<nat, Decoded>, n: nat, bit: nat,
                   rest: seq<nat>, end: nat)
    requires Chained(starts, blocks0, blocks, n, bit, [bit] + rest) && bit in blocks && end > bit
    ensures Chained(starts, blocks0, blocks - {bit}, n + 1, end, rest)
  {
    assert starts[n..][0] == bit && starts[n..][1..] == rest;
  }

  /** Where the chain stops, nothing is left to take, or the next block is not in the map. */
  lemma ChainStops(starts: seq<nat>, blocks0: map<nat, Decoded>, blocks: map<nat, Decoded>, n: nat, bit: nat,
                   rest: seq<nat>)
    requires Chained(starts, blocks0, blocks, n, bit, rest)
    requires rest == [] || (rest[0] == bit && bit !in blocks)
    ensures Taken(starts, blocks0, n)
  {
    if rest != [] { assert starts[n..][0] == bit; }
  }

  /** Decode serially from here to the end: always the last segment. */
  method FallBack(input: seq<byte>, segments: seq<Segment>, bit: nat, phase: Phase, blockSize: nat, combined: word,
                  ghost want: Result<seq<byte>>)
    returns (r: Result<seq<byte>>)
    requires bit <= 8 * |input|
    requires want ==
      Ahead(Stitched(segments), DecodeAll(BytesToBits(input)[bit..], Machine(phase, blockSize, combined)))
    ensures r == want
  {
    hide BytesToBits, DecodeAll, Stitched;
    ghost var rest := DecodeAll(BytesToBits(input)[bit..], Machine(phase, blockSize, combined));
    AheadNone(rest);
    var done, tail := FinishSerially(input, bit, phase, blockSize, combined, []);
    if done.Err? { return Err(done.error); }
    StitchedMore(segments, Serial(tail));
    var out := Stitch(segments + [Serial(tail)]);
    r := Ok(out);
  }

  /** Walk the stream structure, splicing in decoded blocks where the chain reaches them and decoding serially
      otherwise. Whatever genuine decodes `blocks` holds, the bytes and the error are those of serial decoding, and
      the chain takes every block up to the first that is missing. */
  method Assemble(input: seq<byte>, blocks0: map<nat, Decoded>) returns (r: Result<seq<byte>>, accepted: nat)
    requires Genuine(input, blocks0)
    ensures r == DecodeFile(input)
    ensures Taken(BlockStarts(BytesToBits(input), 0, INITIAL), blocks0, accepted)
  {
    hide BytesToBits, DecodeAll, Stitched, Speculated, HeaderMove, Ahead, ReadBits, Combine, BlockStarts, Value,
         Chained, Taken;
    accepted := 0;
    var blocks := blocks0;
    var segments: seq<Segment> := [];
    var bit, blockSize := 0, 0;
    var combined: word := 0;
    var phase := StreamStart;
    ghost var bits, want := BytesToBits(input), DecodeFile(input);
    ghost var starts := BlockStarts(bits, 0, INITIAL);
    StitchedNone();
    AheadNone(want);
    ChainStarts(starts, blocks0);
    assert bits[0..] == bits;
    while true
      invariant bit <= 8 * |input| && blockSize <= MAX_BLOCK_SIZE && Genuine(input, blocks)
      invariant want == Ahead(Stitched(segments), DecodeAll(bits[bit..], Machine(phase, blockSize, combined)))
      invariant Chained(starts, blocks0, blocks, accepted, bit,
                        BlockStarts(bits[bit..], bit, Machine(phase, blockSize, combined)))
      decreases 8 * |input| - bit
    {
      var c := new BitCursor(input, bit);
      ghost var m, s := Machine(phase, blockSize, combined), bits[bit..];
      ghost var rest := BlockStarts(s, bit, m);
      if phase == StreamStart {
        HeaderStep(want, Stitched(segments), s, m);
        StartsHeader(s, bit, m);
        var header := ReadStreamStart(c);
        match header {
          case Err(_) =>
            ChainStops(starts, blocks0, blocks, accepted, bit, rest);
            r := FallBack(input, segments, bit, StreamStart, 0, 0, want);
            return;
          case Ok(None) =>
            ChainStops(starts, blocks0, blocks, accepted, bit, rest);
            var out := Stitch(segments);
            return Ok(out), accepted;
          case Ok(Some(size)) =>
            DropSum(bits, bit, c.bit - bit);
            ChainMoves(starts, blocks0, blocks, accepted, bit, rest, c.bit);
            blockSize, combined, phase, bit := size, 0, InBlock, c.bit;
        }
      } else {
        var magic := c.ReadMagic();
        if magic == Ok(BLOCK_MAGIC) && bit in blocks && blocks[bit].nblock <= blockSize {
          var d := blocks[bit];
          StartsBlock(input, bit, m);
          AcceptStep(want, segments, input, bit, m, d);
          ChainTakes(starts, blocks0, blocks, accepted, bit, rest[1..], d.endBit);
          blocks := blocks - {bit};
          combined := Combine(combined, d.crc);
          bit := d.endBit;
          accepted := accepted + 1;
          segments := segments + [Fast(d)];
        } else if magic == Ok(EOS_MAGIC) {
          var stored := c.Read(32);
          if stored != Ok(combined) {
            StartsNothing(s, bit, m);
            ChainStops(starts, blocks0, blocks, accepted, bit, rest);
            r := FallBack(input, segments, bit, InBlock, blockSize, combined, want);
            return;
          }
          EndStep(want, Stitched(segments), bits, bit, m);
          StartsEnd(bits, bit, m);
          ChainMoves(starts, blocks0, blocks, accepted, bit, rest, c.bit);
          phase := StreamStart;
          bit := c.bit;
        } else {
          if magic == Ok(BLOCK_MAGIC) { StartsBlock(input, bit, m); } else { StartsNothing(s, bit, m); }
          ChainStops(starts, blocks0, blocks, accepted, bit, rest);
          r := FallBack(input, segments, bit, InBlock, blockSize, combined, want);
          return;
        }
      }
    }
  }

  lemma StitchedNone()
    ensures Stitched([]) == []
  {
  }

  /** Neither too few candidates nor implausibly many. */
  ghost predicate Plausible(input: seq<byte>, minCandidates: nat) {
    var n := |Scanning.Matches(BytesToBits(input), 0, 8 * |input|)|;
    n > 0 && minCandidates <= n <= |input| / 16 + 64
  }

  lemma MagicIsCandidate(bits: seq<bit>, k: nat)
    requires k <= |bits| && ReadBits(bits[k..], 48) == Done(BLOCK_MAGIC, 48)
    ensures k in Scanning.Matches(bits, 0, |bits|)
  {
    hide Value;
    assert bits[k..][..48] == bits[k..k + 48];
    Scanning.MatchesAre(bits, 0, |bits|, k);
  }

  /** Scan, speculate and chain; or decode in pairs when there are too few candidates, or implausibly many.
      How many are enough, the pairing and the scanner's chunks do not matter to the result. When it speculates,
      not one block that serial decoding hands out is left to the fallback. */
  method DecodeParallel(input: seq<byte>, minCandidates: nat, paired: bool, scanChunk: nat)
    returns (r: Result<seq<byte>>, accepted: nat)
    requires scanChunk > 0
    ensures r == DecodeFile(input)
    ensures accepted == if Plausible(input, minCandidates) then |BlockStarts(BytesToBits(input), 0, INITIAL)| else 0
  {
    hide BytesToBits, DecodeAll, BlockStarts, Speculated, ReadBits, Scanning.Matches;
    accepted := 0;
    ghost var bits := BytesToBits(input);
    var candidates := Scanning.ScanCandidates(input, scanChunk);
    if |candidates| == 0 || |candidates| < minCandidates || |candidates| > |input| / 16 + 64 {
      var a := new BlockDecoder();
      var b := new BlockDecoder();
      r := DecompressToVecWith(a, b, input);
      return;
    }
    forall i | 0 <= i < |candidates| ensures candidates[i] <= 8 * |input| {
      Scanning.MatchesAre(bits, 0, 8 * |input|, candidates[i]);
    }
    var blocks := SpeculateAll(input, candidates, paired);
    ghost var starts := BlockStarts(bits, 0, INITIAL);
    assert bits[0..] == bits;
    forall k | k in starts ensures k in blocks {
      StartsDecode(input, 0, INITIAL, k);
      MagicIsCandidate(bits, k);
    }
    r, accepted := Assemble(input, blocks);
  }
}
