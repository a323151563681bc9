/** The incremental encoder. However the plaintext is cut into pushes, and whenever output is drained, the bytes
    that come out are those of the whole plaintext. */
module Encoding {
  import opened Sequences
  import opened Bits
  import opened Results
  import opened Crc
  import opened BitWriting
  import opened RunLength
  import opened Walking
  import opened BlockWritten
  import opened BlockWriting
  import opened StreamFormat
  import opened Packing
  import opened RoundTrips

  /** Everything placed so far may be written. */
  ghost predicate AllFine(p: Placed, limit: nat) {
    (forall i :: 0 <= i < |p.full| ==> Fine(p.full[i], limit)) && (p.open != [] ==> Fine(p.open, limit))
  }

  /** The placement of the groups that `given` has closed. */
  function PlacedFrom(given: seq<byte>, limit: nat): Placed {
    Pack(Feed(None, given).closed, limit)
  }

  lemma ClosedSeparated(given: seq<byte>)
    ensures Separated(Feed(None, given).closed)
    ensures Feed(None, given).open.Some? ==> Legal(Feed(None, given).open.value)
  {
    FeedGroups(None, given);
    FeedAppend(None, given, []);
    var s := Feed(None, given);
    assert (s.closed + AsGroups(s.open))[..|s.closed|] == s.closed;
    SeparatedPrefix(s.closed + AsGroups(s.open), |s.closed|);
  }

  lemma PlacedFine(given: seq<byte>, limit: nat)
    requires limit >= 5
    ensures AllFine(PlacedFrom(given, limit), limit)
  {
    ClosedSeparated(given);
    PackFine(Feed(None, given).closed, limit);
  }

  /** One more byte closes at most one group. */
  lemma OneByte(given: seq<byte>, b: byte, done: Option<Group>, open: Option<Group>, limit: nat)
    requires limit >= 5
    requires Feed(None, given).open.Some? ==> Legal(Feed(None, given).open.value)
    requires Feed(Feed(None, given).open, [b]) == Split(AsGroups(done), open)
    ensures Feed(None, given + [b]).open == open
    ensures PlacedFrom(given + [b], limit) ==
      if done.Some? then Place(PlacedFrom(given, limit), done.value, limit) else PlacedFrom(given, limit)
  {
    hide Feed, Place;
    FeedAppend(None, given, [b]);
    var closed := Feed(None, given).closed;
    if done.Some? {
      assert (closed + [done.value])[..|closed|] == closed;
    } else {
      assert closed + [] == closed;
    }
  }

  lemma HeaderInParts(level: nat)
    requires Level(level)
    ensures [] + ToBits(0x42, 8) + ToBits(0x5A, 8) + ToBits(0x68, 8) + ToBits(0x30 + level, 8) == HeaderBits(level)
  {
    hide ToBits;
  }

  lemma BytesToBitsOfNone()
    ensures BytesToBits([]) == []
  {
  }

  lemma EmptyBlock()
    ensures CodedAll([]) == [] && RawAll([]) == [] && CodedLen([]) == 0 && Fold(INIT, []) == INIT
  {
  }

  lemma NothingYet(limit: nat)
    ensures Feed(None, []) == Split([], None) && PlacedFrom([], limit) == Placed([], [])
    ensures CombinedCrc([]) == 0 && (limit <= 900_000 ==> BlocksBits([], limit) == [])
    ensures CodedAll([]) == [] && RawAll([]) == [] && CodedLen([]) == 0 && Fold(INIT, []) == INIT
  {
  }

  /** The block being built is empty exactly when it has no groups. */
  lemma OpenBlock(p: Placed, limit: nat)
    requires AllFine(p, limit) && limit <= 900_000 && (forall i :: 0 <= i < |p.open| ==> Legal(p.open[i]))
    ensures CodedAll(p.open) == [] <==> p.open == []
    ensures p.open == [] ==> Placed(Flushed(p), []) == p
    ensures p.open != [] ==> Fine(p.open, limit) && Blockable(CodedAll(p.open)) && Flushed(p) == p.full + [p.open]
  {
    if p.open != [] { FineCoded(p.open, limit); }
  }

  /** Writing the open block adds its bits and its CRC. */
  lemma FlushBits(p: Placed, limit: nat, header: seq<bit>, head: seq<bit>, before: seq<bit>, crc: word)
    requires AllFine(p, limit) && limit <= 900_000 && p.open != []
      && (forall i :: 0 <= i < |p.open| ==> Legal(p.open[i]))
    requires head + before == header + BlocksBits(p.full, limit)
    requires Blockable(CodedAll(p.open)) && crc == Checksum(RawAll(p.open))
    ensures AllFine(Placed(Flushed(p), []), limit)
    ensures head + (before + (ToBits(BLOCK_MAGIC, 48) + BodyBits(CodedAll(p.open), crc)))
      == header + BlocksBits(Flushed(p), limit)
    ensures CombinedCrc(Flushed(p)) == Combine(CombinedCrc(p.full), crc)
  {
    hide ToBits, BodyBits, Checksum, Combine, Fine, CodedAll, RawAll;
    var full := p.full + [p.open];
    assert full[..|full| - 1] == p.full;
    var b := OneBlockBits(p.open, limit);
    Associate(head, before, b);
    Associate(header, BlocksBits(p.full, limit), b);
  }

  lemma OneMoreGroup(gs: seq<Group>, g: Group, crc: word)
    requires (forall i :: 0 <= i < |gs| ==> Legal(gs[i])) && Legal(g) && crc == Fold(INIT, RawAll(gs))
    ensures CodedAll(gs + [g]) == CodedAll(gs) + RunLength.Coded(g)
      && CodedLen(gs + [g]) == CodedLen(gs) + EncodedLen(g)
    ensures Fold(crc, Raw(g)) == Fold(INIT, RawAll(gs + [g]))
  {
    hide Fold, RunLength.Coded, Raw;
    assert (gs + [g])[..|gs|] == gs;
    FoldAppend(INIT, RawAll(gs), Raw(g));
  }

  lemma DoneLegal(given: seq<byte>, b: byte, g: Group, open: Option<Group>)
    requires Feed(None, given).open.Some? ==> Legal(Feed(None, given).open.value)
    requires Feed(Feed(None, given).open, [b]) == Split([g], open)
    ensures Legal(g)
  {
    var s := Feed(None, given);
    FeedAppend(None, given, [b]);
    ClosedSeparated(given + [b]);
    var closed := Feed(None, given + [b]).closed;
    assert closed == s.closed + [g];
    assert Apart(closed, |s.closed|);
  }

  /** Closing the open group completes the groups of the plaintext. */
  lemma AllPlaced(given: seq<byte>, limit: nat)
    requires limit >= 5
    ensures var open := Feed(None, given).open;
      && (open.Some? ==> Legal(open.value) && AllFine(Place(PlacedFrom(given, limit), open.value, limit), limit))
      && BlocksOf(given, limit) ==
        Flushed(if open.Some? then Place(PlacedFrom(given, limit), open.value, limit) else PlacedFrom(given, limit))
  {
    hide Feed, Place, Fine;
    ClosedSeparated(given);
    FeedGroups(None, given);
    PackFine(Groups(given), limit);
    var s := Feed(None, given);
    if s.open.Some? {
      assert (s.closed + [s.open.value])[..|s.closed|] == s.closed;
    } else {
      assert s.closed + [] == s.closed;
    }
  }

  lemma FileInParts(given: seq<byte>, level: nat, head: seq<bit>, out: seq<bit>, last: seq<bit>, pad: nat)
    requires Level(level) && AllFine(Placed(BlocksOf(given, BlockLimit(level)), []), BlockLimit(level))
    requires var bs := BlocksOf(given, BlockLimit(level));
      head + out == HeaderBits(level) + BlocksBits(bs, BlockLimit(level))
      && last == out + ToBits(EOS_MAGIC, 48) + ToBits(CombinedCrc(bs), 32) + Zeros(pad)
    ensures head + last == FileBits(given, level) + Zeros(pad)
  {
    hide ToBits, BlocksBits, HeaderBits, CombinedCrc, BlocksOf;
    var bs := BlocksOf(given, BlockLimit(level));
    var h, a, m, c, z := HeaderBits(level), BlocksBits(bs, BlockLimit(level)), ToBits(EOS_MAGIC, 48),
      ToBits(CombinedCrc(bs), 32), Zeros(pad);
    assert head + (out + m + c + z) == (head + out) + (m + c) + z;
    assert (h + a) + (m + c) + z == h + (a + (m + c)) + z;
  }

  class Encoder {
    const limit: nat
    ghost const level: nat
    const out: BitWriter
    const runs: Splitter
    var combinedCrc: word
    /** RLE1 output of the block being built, and the CRC state of its plaintext. */
    var block: seq<byte>
    var blockCrc: word
    /** Everything pushed, and everything drained. */
    ghost var given: seq<byte>
    ghost var drained: seq<byte>

    /** The encoder has written the finished blocks of `p` and holds its open one. */
    ghost predicate Holds(p: Placed)
      reads this, out
    {
      && Level(level) && limit == BlockLimit(level) && out.Valid() && AllFine(p, limit)
      && (forall i :: 0 <= i < |p.open| ==> Legal(p.open[i]))
      && block == CodedAll(p.open) && |block| == CodedLen(p.open)
      && blockCrc == Fold(INIT, RawAll(p.open)) && combinedCrc == CombinedCrc(p.full)
      && BytesToBits(drained) + out.Contents() == HeaderBits(level) + BlocksBits(p.full, limit)
    }

    ghost predicate Valid()
      reads this, out, runs
    {
      runs.Valid() && runs.Open() == Feed(None, given).open && Holds(PlacedFrom(given, limit))
    }

    /** Start a stream, writing its header. */
    constructor (level: nat)
      requires Level(level)
      ensures Valid() && this.level == level && given == [] && drained == [] && fresh(out) && fresh(runs)
    {
      hide ToBits, HeaderBits, BytesToBits, Feed, Pack, PlacedFrom, BlocksBits, CodedAll, RawAll, CodedLen, Fold,
           Fine, CombinedCrc;
      this.limit := BlockLimit(level);
      this.level := level;
      var w := new BitWriter();
      w.WriteBits(8, 0x42);
      w.WriteBits(8, 0x5A);
      w.WriteBits(8, 0x68);
      w.WriteBits(8, 0x30 + level);
      HeaderInParts(level);
      this.out := w;
      this.runs := new Splitter();
      combinedCrc, block, blockCrc := 0, [], INIT;
      given, drained := [], [];
      new;
      NothingYet(this.limit);
      BytesToBitsOfNone();
      assert [] + out.Contents() == out.Contents();
      assert HeaderBits(level) + [] == HeaderBits(level);
    }

    /** Close the open block, if it holds anything: its bits go to the writer, its CRC into the combined one. */
    method FlushBlock(ghost p: Placed)
      requires Holds(p)
      modifies out, this`combinedCrc, this`block, this`blockCrc
      ensures Holds(Placed(Flushed(p), []))
    {
      hide BytesToBits, HeaderBits, BlocksBits, OneBlockBits, BodyBits, Fold, Combine, ToBits, Fine, CodedAll, RawAll,
           CombinedCrc;
      EmptyBlock();
      OpenBlock(p, limit);
      if |block| == 0 { return; }
      ghost var before, head := out.Contents(), BytesToBits(drained);
      var crc := Invert(blockCrc);
      FlushBits(p, limit, HeaderBits(level), head, before, crc);
      WriteBlock(out, block, crc);
      combinedCrc := Combine(combinedCrc, crc);
      block := [];
      blockCrc := INIT;
    }

    /** The group goes into the open block while its encoded form fits, and otherwise begins the next. */
    method Commit(g: Group, ghost p: Placed)
      requires Holds(p) && Legal(g) && AllFine(Place(p, g, limit), limit)
      modifies out, this`combinedCrc, this`block, this`blockCrc
      ensures Holds(Place(p, g, limit))
    {
      hide BytesToBits, HeaderBits, BlocksBits, Fold, Fine, CombinedCrc, RunLength.Coded, CodedAll, RawAll, CodedLen,
           Flushed, AllFine;
      ghost var q := p;
      if |block| + EncodedLen(g) > limit {
        FlushBlock(p);
        q := Placed(Flushed(p), []);
      }
      OneMoreGroup(q.open, g, blockCrc);
      block := WriteInto(g, block);
      blockCrc := FoldRepeat(blockCrc, g.b, g.rawLen);
      assert [] + [g] == [g];
    }

    /** Feed plaintext. */
    method Push(data: seq<byte>)
      requires Valid()
      modifies this, out, runs
      ensures Valid() && given == old(given) + data && drained == old(drained)
    {
      hide Feed, Pack, Place, Fine, CodedAll, RawAll, Fold, BlocksBits, HeaderBits, BytesToBits;
      var i := 0;
      while i < |data|
        invariant 0 <= i <= |data| && Valid() && given == old(given) + data[..i] && drained == old(drained)
      {
        ghost var p := PlacedFrom(given, limit);
        ClosedSeparated(given);
        var done := runs.Push(data[i]);
        OneByte(given, data[i], done, runs.Open(), limit);
        PlacedFine(given + [data[i]], limit);
        if done.Some? {
          DoneLegal(given, data[i], done.value, runs.Open());
          Commit(done.value, p);
        }
        assert data[..i + 1] == data[..i] + [data[i]];
        given := given + [data[i]];
        i := i + 1;
      }
      assert data[..i] == data;
    }

    /** Hand over the whole bytes written; the stream goes on as if they were still here. */
    method Drain() returns (taken: seq<byte>)
      requires Valid()
      modifies this`drained, out
      ensures Valid() && given == old(given) && drained == old(drained) + taken && |out.Contents()| < 8
    {
      hide BytesToBits, Fine, Fold, BlocksBits, HeaderBits, CodedAll, RawAll;
      ghost var before := out.Contents();
      taken := out.Drain();
      BytesToBitsAppend(drained, taken);
      assert BytesToBits(drained) + BytesToBits(taken) + out.Contents()
        == BytesToBits(drained) + (BytesToBits(taken) + out.Contents());
      drained := drained + taken;
    }

    /** Close the stream; with what was drained before, the bytes are the compressed form of everything pushed. */
    method Finish() returns (last: seq<byte>)
      requires Valid()
      modifies this, out, runs
      ensures drained == old(drained) && Compressed(drained + last, old(given), level)
    {
      hide BytesToBits, Fine, Fold, BlocksBits, HeaderBits, CodedAll, RawAll, Feed, Pack, Place, ToBits, CombinedCrc;
      ghost var p := PlacedFrom(given, limit);
      ClosedSeparated(given);
      AllPlaced(given, limit);
      var open := runs.Take();
      if open.Some? {
        Commit(open.value, p);
        p := Place(p, open.value, limit);
      }
      FlushBlock(p);
      ghost var written := out.Contents();
      out.WriteMagic(EOS_MAGIC);
      out.WriteBits(32, combinedCrc);
      last := out.Finish();
      BytesToBitsAppend(drained, last);
      ghost var pad: nat :|
        pad < 8 && BytesToBits(last) == written + ToBits(EOS_MAGIC, 48) + ToBits(combinedCrc, 32) + Zeros(pad);
      FileInParts(given, level, BytesToBits(drained), written, BytesToBits(last), pad);
    }
  }

  /** Compress a whole buffer. */
  method Compress(data: seq<byte>, level: nat) returns (file: seq<byte>)
    requires Level(level)
    ensures Compressed(file, data, level) && DecodeFile(file) == Ok(data)
  {
    hide Compressed, DecodeFile;
    var e := new Encoder(level);
    e.Push(data);
    assert [] + data == data;
    file := e.Finish();
    assert [] + file == file;
    FileDecodes(file, data, level);
  }

  datatype Call = PushCall(data: seq<byte>) | DrainCall

  /** All the plaintext that some calls push. */
  function Pushed(calls: seq<Call>): seq<byte> {
    if calls == [] then []
    else Pushed(calls[..|calls| - 1]) + match calls[|calls| - 1] case PushCall(data) => data case DrainCall => []
  }

  /** Any pushes and drains in any order, then `Finish`: the drained pieces and the last one together are exactly
      what one push of the whole plaintext compresses to. */
  method CompressInCalls(calls: seq<Call>, level: nat) returns (file: seq<byte>)
    requires Level(level)
    ensures Compressed(file, Pushed(calls), level)
  {
    hide Compressed, BytesToBits;
    var e := new Encoder(level);
    file := [];
    var i := 0;
    while i < |calls|
      invariant 0 <= i <= |calls| && e.Valid() && e.level == level && e.given == Pushed(calls[..i]) && e.drained == file
      invariant fresh(e) && fresh(e.out) && fresh(e.runs)
    {
      assert calls[..i + 1][..i] == calls[..i];
      match calls[i] {
        case PushCall(data) => e.Push(data);
        case DrainCall =>
          var taken := e.Drain();
          file := file + taken;
          assert e.given + [] == e.given;
      }
      i := i + 1;
    }
    assert calls[..i] == calls;
    var last := e.Finish();
    file := file + last;
  }
}
