/** Placing RLE1 groups into blocks, and the bits of a whole compressed stream. */
module Packing {
  import opened Bits
  import opened Results
  import opened Crc
  import opened RunLength
  import opened BlockWritten

  // ----- placing groups -----

  /** Finished blocks, and the groups of the block being built. */
  datatype Placed = Placed(full: seq<seq<Group>>, open: seq<Group>)

  function CodedLen(gs: seq<Group>): nat {
    if gs == [] then 0 else CodedLen(gs[..|gs| - 1]) + EncodedLen(gs[|gs| - 1])
  }

  /** The finished blocks once the block being built is flushed, unless it is empty. */
  function Flushed(p: Placed): seq<seq<Group>> {
    if p.open == [] then p.full else p.full + [p.open]
  }

  /** One more group, in a new block if it would not fit. */
  function Place(p: Placed, g: Group, limit: nat): Placed {
    if CodedLen(p.open) + EncodedLen(g) > limit then Placed(Flushed(p), [g]) else Placed(p.full, p.open + [g])
  }

  function Pack(gs: seq<Group>, limit: nat): Placed {
    if gs == [] then Placed([], []) else Place(Pack(gs[..|gs| - 1], limit), gs[|gs| - 1], limit)
  }

  /** The blocks of a plaintext. */
  function BlocksOf(data: seq<byte>, limit: nat): seq<seq<Group>> {
    Flushed(Pack(Groups(data), limit))
  }

  function Flat(bs: seq<seq<Group>>): seq<Group> {
    if bs == [] then [] else Flat(bs[..|bs| - 1]) + bs[|bs| - 1]
  }

  lemma FlatMore(bs: seq<seq<Group>>, b: seq<Group>)
    ensures Flat(bs + [b]) == Flat(bs) + b
  {
    assert (bs + [b])[..|bs|] == bs;
  }

  /** A block the encoder may write: not empty, within the limit, and decodable on its own. */
  ghost predicate Fine(b: seq<Group>, limit: nat) {
    b != [] && Separated(b) && CodedLen(b) <= limit
  }

  lemma CodedLenIs(gs: seq<Group>)
    requires forall i :: 0 <= i < |gs| ==> Legal(gs[i])
    ensures |CodedAll(gs)| == CodedLen(gs)
  {
    if gs != [] { CodedLenIs(gs[..|gs| - 1]); }
  }

  lemma SeparatedMore(gs: seq<Group>, b: seq<Group>)
    requires gs != [] && Separated(gs) && b != [] && b[|b| - 1] == gs[|gs| - 1] && Separated(b[..|b| - 1])
    requires |b| > 1 ==> |gs| > 1 && b[|b| - 2] == gs[|gs| - 2]
    ensures Separated(b)
  {
    var n := |b| - 1;
    assert Apart(gs, |gs| - 1);
    forall i | 0 <= i < |b| ensures Apart(b, i) {
      if i < n { assert Apart(b[..n], i); }
    }
  }

  /** No group is split or lost, and every block fits. */
  lemma {:induction false} PackFine(gs: seq<Group>, limit: nat)
    requires Separated(gs) && limit >= 5
    ensures var p := Pack(gs, limit);
      && Flat(p.full) + p.open == gs && (gs != [] ==> p.open != [])
      && (forall i :: 0 <= i < |p.full| ==> Fine(p.full[i], limit))
      && (p.open != [] ==> Fine(p.open, limit))
  {
    if gs != [] {
      var n := |gs| - 1;
      SeparatedPrefix(gs, n);
      PackFine(gs[..n], limit);
      PlaceFine(gs, Pack(gs[..n], limit), limit);
    }
  }

  lemma CodedLenMore(gs: seq<Group>, g: Group)
    ensures CodedLen(gs + [g]) == CodedLen(gs) + EncodedLen(g) && CodedLen([]) == 0
  {
    assert (gs + [g])[..|gs|] == gs;
  }

  /** A block of the last group alone. */
  lemma StartBlock(gs: seq<Group>, g: Group, limit: nat)
    requires gs != [] && Separated(gs) && g == gs[|gs| - 1] && limit >= 5
    ensures Fine([g], limit)
  {
    CodedLenMore([], g);
    assert [] + [g] == [g];
    assert [g][..0] == [];
    SeparatedMore(gs, [g]);
  }

  /** The last group added to the block it fits in. */
  lemma GrowBlock(gs: seq<Group>, open: seq<Group>, g: Group, limit: nat)
    requires |gs| > 1 && Separated(gs) && g == gs[|gs| - 1] && open != [] && open[|open| - 1] == gs[|gs| - 2]
    requires Fine(open, limit) && CodedLen(open) + EncodedLen(g) <= limit
    ensures Fine(open + [g], limit)
  {
    CodedLenMore(open, g);
    assert (open + [g])[..|open|] == open;
    SeparatedMore(gs, open + [g]);
  }

  lemma LastOfOpen<T>(gs: seq<T>, flat: seq<T>, open: seq<T>)
    requires gs != [] && flat + open == gs[..|gs| - 1]
    ensures flat + open + [gs[|gs| - 1]] == gs && flat + (open + [gs[|gs| - 1]]) == gs
    ensures open != [] ==> |gs| > 1 && open[|open| - 1] == gs[|gs| - 2]
  {
    if open != [] { assert (flat + open)[|gs| - 2] == open[|open| - 1]; }
  }

  lemma PlaceFine(gs: seq<Group>, p: Placed, limit: nat)
    requires Separated(gs) && limit >= 5 && gs != [] && Flat(p.full) + p.open == gs[..|gs| - 1]
    requires forall i :: 0 <= i < |p.full| ==> Fine(p.full[i], limit)
    requires (p.open != [] ==> Fine(p.open, limit)) && (|gs| > 1 ==> p.open != [])
    ensures var q := Place(p, gs[|gs| - 1], limit);
      && Flat(q.full) + q.open == gs && q.open != []
      && (forall i :: 0 <= i < |q.full| ==> Fine(q.full[i], limit)) && Fine(q.open, limit)
  {
    hide Fine, Separated, CodedLen, Flat, EncodedLen;
    var g := gs[|gs| - 1];
    LastOfOpen(gs, Flat(p.full), p.open);
    FlatMore(p.full, p.open);
    StartBlock(gs, g, limit);
    assert [] + [g] == [g];
    if p.open != [] && CodedLen(p.open) + EncodedLen(g) <= limit { GrowBlock(gs, p.open, g, limit); }
    if p.open == [] { assert Flat(p.full) + [] == Flat(p.full); }
  }

  /** The blocks of a plaintext spell it out, and each may be written at this limit. */
  lemma BlocksFine(data: seq<byte>, limit: nat)
    requires limit >= 5
    ensures RawAll(Flat(BlocksOf(data, limit))) == data
    ensures forall i :: 0 <= i < |BlocksOf(data, limit)| ==> Fine(BlocksOf(data, limit)[i], limit)
  {
    FeedGroups(None, data);
    assert RawAll(AsGroups(None)) + data == data;
    PackFine(Groups(data), limit);
    var p := Pack(Groups(data), limit);
    FlatMore(p.full, p.open);
    if p.open == [] { assert Flat(p.full) + [] == Flat(p.full); }
  }

  // ----- the bits of a stream -----

  lemma FineCoded(b: seq<Group>, limit: nat)
    requires Fine(b, limit) && limit <= 900_000
    ensures (forall i :: 0 <= i < |b| ==> Legal(b[i])) && Blockable(CodedAll(b)) && |CodedAll(b)| <= limit
  {
    GroupsExpand(b);
    CodedLenIs(b);
    assert Apart(b, |b| - 1);
    assert |RunLength.Coded(b[|b| - 1])| > 0;
  }

  /** One block as written: its magic, then its body with the CRC of its plaintext. */
  ghost function OneBlockBits(b: seq<Group>, limit: nat): seq<bit>
    requires Fine(b, limit) && limit <= 900_000
  {
    FineCoded(b, limit);
    ToBits(BLOCK_MAGIC, 48) + BodyBits(CodedAll(b), Checksum(RawAll(b)))
  }

  ghost function BlocksBits(bs: seq<seq<Group>>, limit: nat): seq<bit>
    requires limit <= 900_000 && forall i :: 0 <= i < |bs| ==> Fine(bs[i], limit)
  {
    if bs == [] then [] else BlocksBits(bs[..|bs| - 1], limit) + OneBlockBits(bs[|bs| - 1], limit)
  }

  function CombinedCrc(bs: seq<seq<Group>>): word {
    if bs == [] then 0 else Combine(CombinedCrc(bs[..|bs| - 1]), Checksum(RawAll(bs[|bs| - 1])))
  }

  predicate Level(level: nat) {
    1 <= level <= 9
  }

  function BlockLimit(level: nat): (limit: nat)
    requires Level(level)
    ensures 5 <= limit < level * 100_000 <= 900_000
  {
    level * 100_000 - 19
  }

  function HeaderBits(level: nat): seq<bit>
    requires Level(level)
  {
    ToBits(0x42, 8) + (ToBits(0x5A, 8) + (ToBits(0x68, 8) + ToBits(0x30 + level, 8)))
  }

  function EndBits(combined: word): seq<bit> {
    ToBits(EOS_MAGIC, 48) + ToBits(combined, 32)
  }

  /** A compressed file before its last byte is padded. */
  ghost function FileBits(data: seq<byte>, level: nat): seq<bit>
    requires Level(level)
  {
    BlocksFine(data, BlockLimit(level));
    var bs := BlocksOf(data, BlockLimit(level));
    HeaderBits(level) + (BlocksBits(bs, BlockLimit(level)) + EndBits(CombinedCrc(bs)))
  }

  /** `file` is the compressed form of `data`, and there is only one such sequence of bytes. */
  ghost predicate Compressed(file: seq<byte>, data: seq<byte>, level: nat)
    requires Level(level)
  {
    exists pad: nat :: pad < 8 && BytesToBits(file) == FileBits(data, level) + Zeros(pad)
  }

  lemma CompressedUnique(a: seq<byte>, b: seq<byte>, data: seq<byte>, level: nat)
    requires Level(level) && Compressed(a, data, level) && Compressed(b, data, level)
    ensures a == b
  {
    hide FileBits, BytesToBits;
    var p: nat :| p < 8 && BytesToBits(a) == FileBits(data, level) + Zeros(p);
    var q: nat :| q < 8 && BytesToBits(b) == FileBits(data, level) + Zeros(q);
    assert p == q;
    BytesToBitsInjective(a, b);
  }
}
