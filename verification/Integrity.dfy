/** The stored CRCs are checked: what a wrong one does to decoding, for one block and for a stream. */
module Integrity {
  import opened Sequences
  import opened Bits
  import opened Results
  import opened Crc
  import opened BitReading
  import opened RunLength
  import opened Walking
  import opened BlockFormat
  import opened BlockWritten
  import opened StreamFormat
  import opened WholeBuffer
  import opened Packing
  import opened RoundTrips

  /** At a block that parses, decoding goes on exactly when the CRC of the plaintext is the one stored with it. */
  lemma BlockChecked(s: seq<bit>, m: Machine, p: Prepared, u: nat)
    requires m.phase == InBlock && ReadBits(s, 48) == Done(BLOCK_MAGIC, 48) && ParseBlock(s[48..], m.size) == Done(p, u)
    ensures Walkable(p) && 48 + u <= |s|
    ensures DecodeAll(s, m) ==
      if Checksum(Plain(p)) != p.crc then Err(CrcMismatch)
      else Ahead(Plain(p), DecodeAll(s[48 + u..], m.(combined := Combine(m.combined, p.crc))))
  {
    hide ParseBlock, ReadBits, Plain, Checksum, Combine;
    FollowMove(s, m, p, u);
    MoveInside(s, m);
  }

  /** At an end mark, decoding goes on exactly when the combined CRC is the one stored there. */
  lemma EndChecked(s: seq<bit>, m: Machine, stored: word)
    requires m.phase == InBlock && ReadBits(s, 48) == Done(EOS_MAGIC, 48) && ReadBits(s[48..], 32) == Done(stored, 32)
    ensures |s| >= 80
    ensures DecodeAll(s, m) ==
      if stored != m.combined then Err(CrcMismatch) else DecodeAll(s[80..], m.(phase := StreamStart))
  {
    hide ParseBlock, Value, Plain;
  }

  /** A written block with any other CRC than that of its plaintext is reported, whatever follows it. */
  lemma WrongBlockCrc(block: seq<byte>, crc: word, size: nat, combined: word, t: seq<bit>)
    requires Blockable(block) && |block| <= size <= 900_000 && crc != Checksum(Expand(START, block))
    ensures DecodeAll(ToBits(BLOCK_MAGIC, 48) + BodyBits(block, crc) + t, Machine(InBlock, size, combined))
      == Err(CrcMismatch)
  {
    hide ToBits, BodyBits, ParseBlock, Checksum, ReadBits, Plain, DecodeAll, Expand;
    var m, b := ToBits(BLOCK_MAGIC, 48), BodyBits(block, crc);
    Associate(m, b, t);
    MagicParses(BLOCK_MAGIC, b + t);
    BlockParses(block, crc, size, t);
    PlainOfBlock(block, crc);
    BlockChecked(m + b + t, Machine(InBlock, size, combined), PreparedOf(block, crc), |b|);
  }

  /** The same stream with any other combined CRC in its end mark is reported, whatever follows it. */
  lemma WrongCombinedCrc(bs: seq<seq<Group>>, limit: nat, size: nat, stored: word, t: seq<bit>)
    requires limit <= size <= 900_000 && (forall i :: 0 <= i < |bs| ==> Fine(bs[i], limit)) && stored != CombinedCrc(bs)
    ensures DecodeAll(BlocksBits(bs, limit) + (EndBits(stored) + t), Machine(InBlock, size, 0)) == Err(CrcMismatch)
  {
    hide ToBits, ReadBits, DecodeAll, BlocksBits, CombinedCrc, Flat;
    BlocksDecode(bs, limit, size, EndBits(stored) + t);
    var m, w := ToBits(EOS_MAGIC, 48), ToBits(stored, 32);
    Associate(m, w, t);
    MagicParses(EOS_MAGIC, w + t);
    WordParses(stored, t);
    EndChecked(EndBits(stored) + t, Machine(InBlock, size, CombinedCrc(bs)), stored);
    AheadEnds(RawAll(Flat(bs)), CrcMismatch);
  }
}
