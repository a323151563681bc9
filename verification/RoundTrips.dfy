/** Decoding what the encoder writes gives back the plaintext. */
module RoundTrips {
  import opened Sequences
  import opened Bits
  import opened Results
  import opened Crc
  import opened BitReading
  import opened RunLength
  import opened Walking
  import opened BlockFormat
  import opened BlockWritten
  import opened StreamFormat
  import opened WholeBuffer
  import opened Packing

  lemma MagicParses(magic: nat, t: seq<bit>)
    requires magic < 0x1_0000_0000_0000
    ensures var s := ToBits(magic, 48) + t; ReadBits(s, 48) == Done(magic, 48) && s[48..] == t
  {
    hide ToBits;
    var n := 48;
    Pow2Words(n);
    ReadBitsWritten(magic, n, t);
    DropHead(ToBits(magic, n), t);
  }

  lemma WordParses(v: word, t: seq<bit>)
    ensures var s := ToBits(v, 32) + t; ReadBits(s, 32) == Done(v, 32) && s[32..] == t
  {
    hide ToBits;
    var n := 32;
    Pow2Words(n);
    ReadBitsWritten(v, n, t);
    DropHead(ToBits(v, n), t);
  }

  // ----- one block -----

  /** The move over a written block is that block, whole and intact. */
  lemma BlockMoves(b: seq<Group>, limit: nat, size: nat, combined: word, t: seq<bit>)
    requires Fine(b, limit) && limit <= size <= 900_000
    ensures Blockable(CodedAllOf(b, limit))
    ensures BlockMove(OneBlockBits(b, limit) + t, size, combined)
      == BlockRead(|OneBlockBits(b, limit)|, PreparedOf(CodedAllOf(b, limit), Checksum(RawAll(b))))
  {
    hide ToBits, BodyBits, ParseBlock, PreparedOf, Checksum, ReadBits;
    FineCoded(b, limit);
    var block, crc := CodedAll(b), Checksum(RawAll(b));
    var m, body := ToBits(BLOCK_MAGIC, 48), BodyBits(block, crc);
    Associate(m, body, t);
    MagicParses(BLOCK_MAGIC, body + t);
    BlockParses(block, crc, size, t);
  }

  function CodedAllOf(b: seq<Group>, limit: nat): seq<byte>
    requires Fine(b, limit) && limit <= 900_000
  {
    FineCoded(b, limit);
    CodedAll(b)
  }

  lemma PlainOfGroups(b: seq<Group>, limit: nat)
    requires Fine(b, limit) && limit <= 900_000 && Blockable(CodedAllOf(b, limit))
    ensures var p := PreparedOf(CodedAllOf(b, limit), Checksum(RawAll(b)));
      Plain(p) == RawAll(b) && Intact(p) && p.crc == Checksum(RawAll(b))
  {
    hide Checksum, Plain;
    GroupsExpand(b);
    PlainOfBlock(CodedAllOf(b, limit), Checksum(RawAll(b)));
  }

  lemma OneBlockDecodes(b: seq<Group>, limit: nat, size: nat, combined: word, t: seq<bit>)
    requires Fine(b, limit) && limit <= size <= 900_000
    ensures DecodeAll(OneBlockBits(b, limit) + t, Machine(InBlock, size, combined))
      == Ahead(RawAll(b), DecodeAll(t, Machine(InBlock, size, Combine(combined, Checksum(RawAll(b))))))
  {
    hide OneBlockBits, PreparedOf, Checksum, Plain, Intact, BlockMove, CodedAllOf, Combine;
    var a := OneBlockBits(b, limit);
    BlockMoves(b, limit, size, combined, t);
    PlainOfGroups(b, limit);
    DropHead(a, t);
  }

  /** All the blocks of a stream, one after the other. */
  lemma {:induction false} BlocksDecode(bs: seq<seq<Group>>, limit: nat, size: nat, t: seq<bit>)
    requires limit <= size <= 900_000 && forall i :: 0 <= i < |bs| ==> Fine(bs[i], limit)
    ensures DecodeAll(BlocksBits(bs, limit) + t, Machine(InBlock, size, 0))
      == Ahead(RawAll(Flat(bs)), DecodeAll(t, Machine(InBlock, size, CombinedCrc(bs))))
    decreases |bs|
  {
    hide OneBlockBits, DecodeAll, Ahead, Combine, Checksum;
    if bs == [] {
      assert [] + t == t;
      AheadNone(DecodeAll(t, Machine(InBlock, size, 0)));
    } else {
      var n := |bs| - 1;
      var rest, b := bs[..n], bs[n];
      Associate(BlocksBits(rest, limit), OneBlockBits(b, limit), t);
      BlocksDecode(rest, limit, size, OneBlockBits(b, limit) + t);
      OneBlockDecodes(b, limit, size, CombinedCrc(rest), t);
      AheadTwice(RawAll(Flat(rest)), RawAll(b), DecodeAll(t, Machine(InBlock, size, CombinedCrc(bs))));
      RawAppend(Flat(rest), b);
    }
  }

  // ----- framing -----

  lemma ByteParses(b: byte, t: seq<bit>)
    ensures var s := ToBits(b, 8) + t; Value(s[..8]) == b && s[8..] == t
  {
    hide ToBits;
    ByteValue(b);
    DropHead(ToBits(b, 8), t);
  }

  lemma HeaderMoves(level: nat, t: seq<bit>)
    requires Level(level) && WholeBytes(t)
    ensures HeaderMove(HeaderBits(level) + t) == HeaderRead(32, level * 100_000)
  {
    hide ToBits, Value;
    var d := ToBits(0x30 + level, 8) + t;
    var c := ToBits(0x68, 8) + d;
    var b := ToBits(0x5A, 8) + c;
    var s := HeaderBits(level) + t;
    assert s == ToBits(0x42, 8) + b;
    ByteParses(0x42, b);
    ByteParses(0x5A, c);
    ByteParses(0x68, d);
    ByteParses(0x30 + level, t);
    DropSum(s, 8, 8);
    DropSum(s, 16, 8);
    assert s[|s| % 8..] == s;
  }

  /** With only a header at hand, decoding halts as truncated, but committed behind the header. */
  lemma HeaderAlone(level: nat)
    requires Level(level)
    ensures NextBlock(HeaderBits(level), INITIAL) == Halted(Truncated, 32, Machine(InBlock, level * 100_000, 0))
  {
    hide HeaderMove, ToBits, ParseBlock, Intact, Plain;
    var s := HeaderBits(level);
    assert s + [] == s && |s| == 32;
    HeaderMoves(level, []);
    assert s[32..] == [];
    assert NextMove([], Machine(InBlock, level * 100_000, 0)) == Stuck(Truncated);
  }

  lemma EndDecodes(combined: word, size: nat, pad: nat)
    requires pad < 8
    ensures DecodeAll(EndBits(combined) + Zeros(pad), Machine(InBlock, size, combined)) == Ok([])
  {
    hide ToBits, ReadBits, ParseBlock, Intact, Plain, HeaderMove, BlockMove;
    EndMoves(combined, size, pad);
    DropHead(EndBits(combined), Zeros(pad));
  }

  lemma EndMoves(combined: word, size: nat, pad: nat)
    requires pad < 8
    ensures BlockMove(EndBits(combined) + Zeros(pad), size, combined) == StreamEnded(80)
    ensures HeaderMove(Zeros(pad)) == InputEnded(pad)
  {
    hide ToBits, ReadBits, ParseBlock;
    var m, w, z := ToBits(EOS_MAGIC, 48), ToBits(combined, 32), Zeros(pad);
    Associate(m, w, z);
    MagicParses(EOS_MAGIC, w + z);
    WordParses(combined, z);
    assert z[pad..] == [];
  }

  lemma FileLength(data: seq<byte>, level: nat, pad: nat, file: seq<byte>, rest: seq<bit>)
    requires Level(level) && BytesToBits(file) == HeaderBits(level) + rest
    ensures WholeBytes(rest)
  {
    hide BytesToBits, ToBits;
  }

  /** The whole round trip: for every byte string and every level, decoding its compressed form succeeds and
      returns exactly that byte string. */
  lemma FileDecodes(file: seq<byte>, data: seq<byte>, level: nat)
    requires Level(level) && Compressed(file, data, level)
    ensures DecodeFile(file) == Ok(data)
  {
    hide BytesToBits, DecodeAll, BlocksBits, EndBits, HeaderBits, CombinedCrc, BlocksOf, Flat;
    var pad: nat :| pad < 8 && BytesToBits(file) == FileBits(data, level) + Zeros(pad);
    var limit, size := BlockLimit(level), level * 100_000;
    BlocksFine(data, limit);
    var bs := BlocksOf(data, limit);
    var h, a, e, z := HeaderBits(level), BlocksBits(bs, limit), EndBits(CombinedCrc(bs)), Zeros(pad);
    var rest := a + (e + z);
    assert h + (a + e) + z == h + rest;
    FileLength(data, level, pad, file, rest);
    HeaderMoves(level, rest);
    AfterHeader(h, rest, level);
    BlocksDecode(bs, limit, size, e + z);
    EndDecodes(CombinedCrc(bs), size, pad);
    AheadEnds(data, Truncated);
  }

  lemma AfterHeader(h: seq<bit>, rest: seq<bit>, level: nat)
    requires Level(level) && h == HeaderBits(level) && HeaderMove(h + rest) == HeaderRead(32, level * 100_000)
    ensures DecodeAll(h + rest, INITIAL) == DecodeAll(rest, Machine(InBlock, level * 100_000, 0))
  {
    hide ToBits, HeaderMove, BlockMove;
    DropHead(h, rest);
  }

  // ----- the blocks of a compressed file -----

  lemma OneBlockStarts(b: seq<Group>, limit: nat, size: nat, combined: word, t: seq<bit>, at: nat)
    requires Fine(b, limit) && limit <= size <= 900_000
    ensures var a := OneBlockBits(b, limit);
      BlockStarts(a + t, at, Machine(InBlock, size, combined))
        == [at] + BlockStarts(t, at + |a|, Machine(InBlock, size, Combine(combined, Checksum(RawAll(b)))))
  {
    hide OneBlockBits, PreparedOf, Checksum, Plain, Intact, BlockMove, CodedAllOf, Combine;
    var a := OneBlockBits(b, limit);
    BlockMoves(b, limit, size, combined, t);
    PlainOfGroups(b, limit);
    DropHead(a, t);
  }

  lemma {:induction false} BlocksStart(bs: seq<seq<Group>>, limit: nat, size: nat, t: seq<bit>, at: nat)
    requires limit <= size <= 900_000 && forall i :: 0 <= i < |bs| ==> Fine(bs[i], limit)
    ensures var a := BlocksBits(bs, limit);
      |BlockStarts(a + t, at, Machine(InBlock, size, 0))|
        == |bs| + |BlockStarts(t, at + |a|, Machine(InBlock, size, CombinedCrc(bs)))|
    decreases |bs|
  {
    hide OneBlockBits, BlockStarts, Combine, Checksum;
    if bs == [] {
      assert [] + t == t;
    } else {
      var n := |bs| - 1;
      var rest, b := bs[..n], bs[n];
      Associate(BlocksBits(rest, limit), OneBlockBits(b, limit), t);
      BlocksStart(rest, limit, size, OneBlockBits(b, limit) + t, at);
      OneBlockStarts(b, limit, size, CombinedCrc(rest), t, at + |BlocksBits(rest, limit)|);
    }
  }

  lemma EndStarts(combined: word, size: nat, pad: nat, at: nat)
    requires pad < 8
    ensures BlockStarts(EndBits(combined) + Zeros(pad), at, Machine(InBlock, size, combined)) == []
  {
    hide ToBits, ReadBits, ParseBlock, Intact, Plain, HeaderMove, BlockMove;
    EndMoves(combined, size, pad);
    DropHead(EndBits(combined), Zeros(pad));
  }

  lemma HeaderStarts(h: seq<bit>, rest: seq<bit>, level: nat)
    requires Level(level) && h == HeaderBits(level) && HeaderMove(h + rest) == HeaderRead(32, level * 100_000)
    ensures BlockStarts(h + rest, 0, INITIAL) == BlockStarts(rest, 32, Machine(InBlock, level * 100_000, 0))
  {
    hide ToBits, HeaderMove, BlockMove;
    DropHead(h, rest);
  }

  /** Decoding a compressed file hands out as many blocks as the encoder made of the plaintext. */
  lemma FileBlocks(file: seq<byte>, data: seq<byte>, level: nat)
    requires Level(level) && Compressed(file, data, level)
    ensures |BlockStarts(BytesToBits(file), 0, INITIAL)| == |BlocksOf(data, BlockLimit(level))|
  {
    hide BytesToBits, BlockStarts, BlocksBits, EndBits, HeaderBits, CombinedCrc, BlocksOf, Flat;
    var pad: nat :| pad < 8 && BytesToBits(file) == FileBits(data, level) + Zeros(pad);
    var limit, size := BlockLimit(level), level * 100_000;
    BlocksFine(data, limit);
    var bs := BlocksOf(data, limit);
    var h, a, e, z := HeaderBits(level), BlocksBits(bs, limit), EndBits(CombinedCrc(bs)), Zeros(pad);
    var rest := a + (e + z);
    assert h + (a + e) + z == h + rest;
    FileLength(data, level, pad, file, rest);
    HeaderMoves(level, rest);
    HeaderStarts(h, rest, level);
    BlocksStart(bs, limit, size, e + z, 32);
    EndStarts(CombinedCrc(bs), size, pad, 32 + |a|);
  }

  // ----- an input cut off behind a block's header -----

  lemma {:induction false} BlocksFirst(bs: seq<seq<Group>>, limit: nat)
    requires bs != [] && limit <= 900_000 && forall i :: 0 <= i < |bs| ==> Fine(bs[i], limit)
    ensures BlocksBits(bs, limit) == OneBlockBits(bs[0], limit) + BlocksBits(bs[1..], limit)
    decreases |bs|
  {
    hide OneBlockBits;
    var n := |bs| - 1;
    if n == 0 {
      assert bs[..0] == [] && bs[1..] == [];
      assert [] + OneBlockBits(bs[0], limit) == OneBlockBits(bs[0], limit) + [];
    } else {
      BlocksFirst(bs[..n], limit);
      assert bs[..n][1..] == bs[1..][..n - 1];
      Associate(OneBlockBits(bs[0], limit), BlocksBits(bs[1..][..n - 1], limit), OneBlockBits(bs[n], limit));
    }
  }

  lemma BlockBegins(b: seq<Group>, limit: nat) returns (h: Header, symbols: seq<bit>)
    requires Fine(b, limit) && limit <= 900_000
    ensures Writable(h) && OneBlockBits(b, limit) == ToBits(BLOCK_MAGIC, 48) + (HeadBits(h) + symbols)
  {
    hide ToBits, HeadBits, SymbolBits, CodedAll, Checksum;
    FineCoded(b, limit);
    var block, crc := CodedAll(b), Checksum(RawAll(b));
    h := BlockHeader(block, crc);
    BlockWritable(block, crc);
    symbols := SymbolBits(MoveToFront.Encoded(Bwt.LastColumn(block)), h.tables, h.selectors, 0);
  }

  lemma Regroup(a: seq<bit>, m: seq<bit>, b: seq<bit>, c: seq<bit>, d: seq<bit>, e: seq<bit>, z: seq<bit>)
    ensures (a + (((m + (b + c)) + d) + e)) + z == a + (m + (b + (c + (d + (e + z)))))
  {
    assert (a + (((m + (b + c)) + d) + e)) + z == a + ((((m + (b + c)) + d) + e) + z);
    assert (((m + (b + c)) + d) + e) + z == (m + (b + c)) + (d + (e + z));
    Associate(m, b + c, d + (e + z));
    Associate(b, c, d + (e + z));
  }

  /** A compressed file begins with the stream header, the block magic and a block's header. */
  lemma FileBegins(file: seq<byte>, data: seq<byte>, level: nat) returns (h: Header, rest: seq<bit>)
    requires Level(level) && Compressed(file, data, level) && data != []
    ensures Writable(h)
    ensures BytesToBits(file) == HeaderBits(level) + (ToBits(BLOCK_MAGIC, 48) + (HeadBits(h) + rest))
  {
    hide BytesToBits, ToBits, HeaderBits, HeadBits, OneBlockBits, BlocksBits, EndBits, CombinedCrc, BlocksOf, Flat,
         Fine, SoundHeader;
    var pad: nat :| pad < 8 && BytesToBits(file) == FileBits(data, level) + Zeros(pad);
    var limit := BlockLimit(level);
    BlocksFine(data, limit);
    var bs := BlocksOf(data, limit);
    SomeBlock(data, limit);
    BlocksFirst(bs, limit);
    var c;
    h, c := BlockBegins(bs[0], limit);
    var d, e, z := BlocksBits(bs[1..], limit), EndBits(CombinedCrc(bs)), Zeros(pad);
    rest := c + (d + (e + z));
    Regroup(HeaderBits(level), ToBits(BLOCK_MAGIC, 48), HeadBits(h), c, d, e, z);
  }

  lemma SomeBlock(data: seq<byte>, limit: nat)
    requires limit >= 5 && data != []
    ensures BlocksOf(data, limit) != []
  {
    BlocksFine(data, limit);
  }

  /** Every compressed file, cut off at the end of its first block's header, takes the decoder to the first symbol,
      with fewer than eight bytes left there: a reservoir opened on it is padded from the start. */
  lemma CutBehindHeader(file: seq<byte>, data: seq<byte>, level: nat) returns (cut: seq<byte>, bit: nat, h: Header)
    requires Level(level) && Compressed(file, data, level) && data != []
    ensures cut <= file && 80 <= bit <= 8 * |cut|
    ensures HeaderMove(BytesToBits(cut)) == HeaderRead(32, level * 100_000)
    ensures ReadBits(BytesToBits(cut)[32..], 48) == Done(BLOCK_MAGIC, 48)
    ensures ParseHeader(BytesToBits(cut)[80..]) == Done(h, bit - 80)
    ensures !(bit / 8 + 8 <= |cut|)
  {
    hide BytesToBits, ToBits, HeaderBits, HeadBits, ParseHeader, HeaderMove, ReadBits, SoundHeader, Compressed;
    var rest;
    h, rest := FileBegins(file, data, level);
    var a, m, b := HeaderBits(level), ToBits(BLOCK_MAGIC, 48), HeadBits(h);
    HeaderLength(level);
    bit := 80 + |b|;
    var n := (bit + 7) / 8;
    cut := file[..n];
    BytesToBitsSlice(file, 0, n);
    assert file[0..n] == cut && BytesToBits(file)[0..8 * n] == BytesToBits(file)[..8 * n];
    CutInside(a, m, b, rest, 8 * n);
    FrontParses(BytesToBits(cut), level, h, rest[..8 * n - bit]);
  }

  lemma FrontParses(s: seq<bit>, level: nat, h: Header, t: seq<bit>)
    requires Level(level) && Writable(h) && WholeBytes(s)
    requires s == HeaderBits(level) + (ToBits(BLOCK_MAGIC, 48) + (HeadBits(h) + t))
    ensures |s| >= 80 && HeaderMove(s) == HeaderRead(32, level * 100_000)
    ensures ReadBits(s[32..], 48) == Done(BLOCK_MAGIC, 48) && ParseHeader(s[80..]) == Done(h, |HeadBits(h)|)
  {
    hide ToBits, HeaderBits, HeadBits, ParseHeader, HeaderMove, ReadBits, SoundHeader;
    var a, m, b := HeaderBits(level), ToBits(BLOCK_MAGIC, 48), HeadBits(h);
    HeaderLength(level);
    HeaderMoves(level, m + (b + t));
    DropHead(a, m + (b + t));
    MagicParses(BLOCK_MAGIC, b + t);
    DropSum(s, 32, 48);
    HeadParses(h, t);
  }

  lemma CutInside(a: seq<bit>, m: seq<bit>, b: seq<bit>, rest: seq<bit>, k: nat)
    requires |a| + |m| + |b| <= k <= |a| + |m| + |b| + |rest|
    ensures (a + (m + (b + rest)))[..k] == a + (m + (b + rest[..k - |a| - |m| - |b|]))
  {
  }

  lemma HeaderLength(level: nat)
    requires Level(level)
    ensures |HeaderBits(level)| == 32
  {
  }
}
