/** The push decoder: compressed bytes arrive in any pieces, plaintext leaves block by block. */
module Streaming {
  import opened Sequences
  import opened Bits
  import opened Results
  import opened BlockFormat
  import opened StreamFormat
  import opened Prefixes
  import opened Walking
  import opened BlockDecoding
  import opened WholeBuffer

  const RETRY_STEP: nat := 65536
  const BLOCK_SLACK: nat := 4096

  datatype Failure = Malformed(error: Error) | PushAfterFinish | AlreadyFailed

  datatype Reply = Plaintext(out: seq<byte>) | Failed(why: Failure)

  // ----- what the decoder knows about input still to come -----

  /** If `more` were the rest of the input, the whole would decode to what was produced and then what is left. */
  ghost predicate InStep(given: seq<byte>, produced: seq<byte>, s: seq<bit>, m: Machine, more: seq<byte>) {
    DecodeFile(given + more) == Ahead(produced, DecodeAll(s + BytesToBits(more), m))
  }

  /** In step whatever comes. */
  ghost predicate Tracking(given: seq<byte>, produced: seq<byte>, s: seq<bit>, m: Machine) {
    forall more: seq<byte> :: InStep(given, produced, s, m, more)
  }

  /** The same error whatever comes. */
  ghost predicate Doomed(given: seq<byte>, e: Error) {
    forall more: seq<byte> :: DecodeFile(given + more) == Err(e)
  }

  lemma TrackStart()
    ensures Tracking([], [], [], INITIAL)
  {
    forall more: seq<byte> ensures InStep([], [], [], INITIAL, more) {
      assert [] + more == more && [] + BytesToBits(more) == BytesToBits(more);
      AheadNone(DecodeFile(more));
    }
  }

  lemma TrackPush(given: seq<byte>, produced: seq<byte>, s: seq<bit>, m: Machine, chunk: seq<byte>)
    requires Tracking(given, produced, s, m)
    ensures Tracking(given + chunk, produced, s + BytesToBits(chunk), m)
  {
    hide DecodeAll, DecodeFile, Ahead, BytesToBits;
    forall more: seq<byte> ensures InStep(given + chunk, produced, s + BytesToBits(chunk), m, more) {
      assert InStep(given, produced, s, m, chunk + more);
      BytesToBitsAppend(chunk, more);
      assert given + (chunk + more) == given + chunk + more;
      assert s + (BytesToBits(chunk) + BytesToBits(more)) == s + BytesToBits(chunk) + BytesToBits(more);
    }
  }

  lemma StepsExtend(given: seq<byte>, produced: seq<byte>, s: seq<bit>, m: Machine, more: seq<byte>)
    requires InStep(given, produced, s, m, more)
    ensures match NextBlock(s, m)
      case Produced(out, u, next) => InStep(given, produced + out, s[u..], next, more)
      case AtEnd(u, next) => InStep(given, produced, s[u..], next, more)
      case Halted(e, u, next) =>
        InStep(given, produced, s[u..], next, more) && (e != Truncated ==> DecodeFile(given + more) == Err(e))
  {
    hide DecodeAll, DecodeFile, Ahead, BytesToBits, NextBlock;
    var t := BytesToBits(more);
    NextBlockExtends(s, m, t);
    var step := NextBlock(s, m);
    DropAppend(s, t, step.used);
    match step
    case Produced(out, u, next) => AheadTwice(produced, out, DecodeAll(s[u..] + t, next));
    case AtEnd(_, _) =>
    case Halted(e, _, _) => AheadEnds(produced, e);
  }

  /** After a step the decoder is in step again; a hard error is final. */
  lemma TrackStep(given: seq<byte>, produced: seq<byte>, s: seq<bit>, m: Machine)
    requires Tracking(given, produced, s, m)
    ensures match NextBlock(s, m)
      case Produced(out, u, next) => Tracking(given, produced + out, s[u..], next)
      case AtEnd(u, next) => Tracking(given, produced, s[u..], next)
      case Halted(e, u, next) => Tracking(given, produced, s[u..], next) && (e != Truncated ==> Doomed(given, e))
  {
    hide DecodeAll, DecodeFile, Ahead, BytesToBits, NextBlock, InStep;
    var step := NextBlock(s, m);
    forall more: seq<byte>
      ensures step.Produced? ==> InStep(given, produced + step.out, s[step.used..], step.next, more)
      ensures !step.Produced? ==> InStep(given, produced, s[step.used..], step.next, more)
      ensures step.Halted? && step.error != Truncated ==> DecodeFile(given + more) == Err(step.error)
    {
      assert InStep(given, produced, s, m, more);
      StepsExtend(given, produced, s, m, more);
    }
  }

  /** When nothing more comes, what is left decides. */
  lemma TrackEnd(given: seq<byte>, produced: seq<byte>, s: seq<bit>, m: Machine)
    requires Tracking(given, produced, s, m)
    ensures match NextBlock(s, m)
      case Produced(_, _, _) => true
      case AtEnd(_, _) => DecodeFile(given) == Ok(produced)
      case Halted(e, _, _) => DecodeFile(given) == Err(e)
  {
    hide DecodeAll, Ahead, NextBlock;
    assert InStep(given, produced, s, m, []);
    assert given + [] == given && s + BytesToBits([]) == s;
    DecodeByBlocks(s, m);
    match NextBlock(s, m)
    case Produced(_, _, _) =>
    case AtEnd(_, _) => AheadEnds(produced, Truncated);
    case Halted(e, _, _) => AheadEnds(produced, e);
  }

  // ----- what a truncated attempt tells of the next one -----

  /** Where a move ran out of input, the move on more of it takes bits that were not there. */
  lemma MoveNeedsMore(s: seq<bit>, m: Machine, t: seq<bit>)
    requires WholeBytes(t) && NextMove(s, m) == Stuck(Truncated)
    ensures match NextMove(s + t, m)
      case HeaderRead(u, _) => u > |s|
      case BlockRead(u, _) => u > |s|
      case StreamEnded(u) => u > |s|
      case InputEnded(_) => false
      case Stuck(_) => true
  {
    hide Value, ParseBlock;
    match m.phase
    case StreamStart =>
      DropAppend(s, t, |s| % 8);
      assert |s + t| % 8 == |s| % 8;
    case InBlock =>
      if |s| >= 48 {
        DropAppend(s, t, 48);
        BlockIsThere(s[48..], m.size, t);
      }
  }

  /** Where a call ran out of input, a block found with more of it ends in bits that were not there. */
  lemma {:induction false} BlockNeedsMore(s: seq<bit>, m: Machine, t: seq<bit>)
    requires WholeBytes(t) && NextBlock(s, m).Halted? && NextBlock(s, m).error == Truncated
    ensures NextBlock(s + t, m).Produced? ==> NextBlock(s + t, m).used > |s|
    decreases |s|
  {
    hide NextMove, Intact, AfterMove, Plain;
    MoveInside(s, m);
    MoveInside(s + t, m);
    var v := NextMove(s, m);
    if v == Stuck(Truncated) {
      MoveNeedsMore(s, m, t);
    } else {
      NextMoveExtends(s, m, t);
      DropAppend(s, t, v.used);
      BlockNeedsMore(s[v.used..], AfterMove(m, v), t);
    }
  }

  /** A call that halted would halt again where it left the decoder, without moving it. */
  lemma {:induction false} HaltedStays(s: seq<bit>, m: Machine)
    requires NextBlock(s, m).Halted?
    ensures var r := NextBlock(s, m); NextBlock(s[r.used..], r.next) == Halted(r.error, 0, r.next)
    decreases |s|
  {
    hide NextMove, Intact, AfterMove, Plain;
    MoveInside(s, m);
    var v := NextMove(s, m);
    if v.HeaderRead? || v.StreamEnded? {
      HaltedStays(s[v.used..], AfterMove(m, v));
      DropSum(s, v.used, NextBlock(s[v.used..], AfterMove(m, v)).used);
    } else {
      assert s[0..] == s;
    }
  }

  /** A block found where an attempt on the first `seen` bytes ran out of input takes up all of those bytes. */
  lemma BlockTakesSeen(buf: seq<byte>, seen: nat, at: nat, m: Machine)
    requires seen <= |buf| && at <= 8 * seen && Stalled(BytesToBits(buf[..seen])[at..], m)
    ensures at <= 8 * |buf|
    ensures var r := NextBlock(BytesToBits(buf)[at..], m); r.Produced? ==> (at + r.used) / 8 >= seen
  {
    hide BytesToBits, NextBlock;
    assert buf == buf[..seen] + buf[seen..];
    BytesToBitsAppend(buf[..seen], buf[seen..]);
    DropAppend(BytesToBits(buf[..seen]), BytesToBits(buf[seen..]), at);
    BlockNeedsMore(BytesToBits(buf[..seen])[at..], m, BytesToBits(buf[seen..]));
  }

  /** A call here hands out a block, which takes up `used` bits. */
  ghost predicate HandsOut(s: seq<bit>, m: Machine, out0: seq<byte>, out: seq<byte>, used: int) {
    var r := NextBlock(s, m);
    r.Produced? && out == out0 + r.out && used == r.used
  }

  /** A call here, at bit `at` of the buffer, hands out a block, and the whole bytes consumed by then are its size. */
  ghost predicate OneMoreSize(s: seq<bit>, m: Machine, at: nat, out0: seq<byte>, out: seq<byte>, sizes0: seq<nat>,
                              sizes: seq<nat>)
  {
    var r := NextBlock(s, m);
    HandsOut(s, m, out0, out, r.used) && sizes == sizes0 + [(at + r.used) / 8]
  }

  ghost predicate RunsOut(s: seq<bit>, m: Machine) {
    NextBlock(s, m).Halted? && NextBlock(s, m).error == Truncated
  }

  /** A call here runs out of input without moving. */
  ghost predicate Stalled(s: seq<bit>, m: Machine) {
    NextBlock(s, m) == Halted(Truncated, 0, m)
  }

  /** Where an attempt on the whole buffer ran out of input, it has stalled. */
  lemma StallsThere(buf: seq<byte>, at: nat, m: Machine)
    requires at <= 8 * |buf|
    requires var r := NextBlock(BytesToBits(buf)[at..], m); r.Halted? && r.error == Truncated
    ensures var r := NextBlock(BytesToBits(buf)[at..], m);
      at + r.used <= 8 * |buf| && Stalled(BytesToBits(buf[..|buf|])[at + r.used..], r.next)
  {
    hide BytesToBits, NextBlock;
    assert buf[..|buf|] == buf;
    HaltedStays(BytesToBits(buf)[at..], m);
    DropSum(BytesToBits(buf), at, NextBlock(BytesToBits(buf)[at..], m).used);
  }

  // ----- committed bytes in the buffer -----

  /** The bits from `base` on in the first `seen` bytes. */
  ghost function SeenBits(buf: seq<byte>, seen: nat, base: nat): seq<bit>
    requires seen <= |buf|
  {
    if base <= 8 * seen then BytesToBits(buf[..seen])[base..] else []
  }

  /** Truncated attempts from `base` in state `origin`, which have seen the bits `s`, leave the decoder past whole
      framing, or else where it was. */
  ghost predicate CommittedAfter(s: seq<bit>, base: nat, origin: Machine, at: nat, m: Machine) {
    && base < 8 && base <= at
    && (if FramingAhead(s, origin) then at >= 32 else at == base && m == origin)
  }

  lemma NothingSeen(buf: seq<byte>, base: nat, origin: Machine)
    requires base < 8
    ensures CommittedAfter(SeenBits(buf, 0, base), base, origin, base, origin)
  {
  }

  /** One more truncated attempt, on all that is in the buffer now. */
  lemma TruncatedAgain(buf: seq<byte>, seen: nat, base: nat, origin: Machine, at: nat, m: Machine)
    requires seen <= |buf| && at <= 8 * |buf| && CommittedAfter(SeenBits(buf, seen, base), base, origin, at, m)
    requires NextBlock(BytesToBits(buf)[at..], m).Halted?
    ensures var r := NextBlock(BytesToBits(buf)[at..], m);
      CommittedAfter(SeenBits(buf, |buf|, base), base, origin, at + r.used, r.next)
  {
    hide BytesToBits, FramingAhead, NextBlock;
    assert buf[..|buf|] == buf;
    if FramingAhead(SeenBits(buf, seen, base), origin) {
      MoreSeen(buf, seen, base, origin);
    } else {
      HaltedCommits(BytesToBits(buf)[at..], m);
    }
  }

  lemma MoreSeen(buf: seq<byte>, seen: nat, base: nat, origin: Machine)
    requires seen <= |buf| && FramingAhead(SeenBits(buf, seen, base), origin)
    ensures FramingAhead(SeenBits(buf, |buf|, base), origin)
  {
    hide BytesToBits, Value;
    assert buf[..|buf|] == buf == buf[..seen] + buf[seen..];
    BytesToBitsAppend(buf[..seen], buf[seen..]);
    DropAppend(BytesToBits(buf[..seen]), BytesToBits(buf[seen..]), base);
    FramingExtends(SeenBits(buf, seen, base), origin, BytesToBits(buf[seen..]));
  }

  lemma EverythingRead(buf: seq<byte>, base: nat, origin: Machine)
    requires base < 8 && base <= 8 * |buf| && BytesToBits(buf)[base..] == []
    ensures CommittedAfter(SeenBits(buf, |buf|, base), base, origin, base, origin)
  {
    assert buf[..|buf|] == buf;
  }

  // ----- when to try again -----

  /** The buffer length to wait for after a truncated attempt on `n` bytes: the size of the last block handed out and
      some slack, 64 KiB when there has been none; past that, at least as much again as there is. */
  function Threshold(n: nat, size: nat): (t: nat)
    ensures t > n
  {
    var estimate := if size > 0 then size + BLOCK_SLACK else RETRY_STEP;
    if n < estimate then estimate else if n > RETRY_STEP then 2 * n else n + RETRY_STEP
  }

  /** The compressed size of the last block, 0 when there is none. */
  function LastSize(sizes: seq<nat>): nat {
    if sizes == [] then 0 else sizes[|sizes| - 1]
  }

  lemma ProducedIsLong(s: seq<bit>, m: Machine)
    requires NextBlock(s, m).Produced?
    ensures NextBlock(s, m).used >= 48
    decreases |s|
  {
    hide ParseBlock, Intact, Plain, Value;
    MoveInside(s, m);
    var v := NextMove(s, m);
    if v.HeaderRead? || v.StreamEnded? { ProducedIsLong(s[v.used..], AfterMove(m, v)); }
  }

  lemma NothingLeft(m: Machine)
    requires m.phase == StreamStart
    ensures NextBlock([], m) == AtEnd(0, m)
  {
  }

  class Bz2Decoder {
    var dec: BlockDecoder
    /** Compressed bytes not committed past yet. */
    var inbuf: seq<byte>
    /** Buffer length at which the next attempt becomes worthwhile. */
    var nextTry: nat
    var lastBlockBytes: nat
    var bytesIn: nat
    var bytesOut: nat
    var poisoned: bool
    var finished: bool
    /** How the last compaction left the decoder, and how much input the attempts since then have seen. */
    ghost var base: nat
    ghost var origin: Machine
    ghost var seen: nat
    /** Bytes compacted away, and the bytes that truncated attempts have gone over: since then, and in all. */
    ghost var dropped: nat
    ghost var spent: nat
    ghost var wasted: nat
    /** The compressed sizes of the blocks handed out, in whole bytes consumed from the buffer. */
    ghost var sizes: seq<nat>
    /** Everything pushed, and everything handed out. */
    ghost var given: seq<byte>
    ghost var produced: seq<byte>

    /** Where the decoder stands agrees with what the attempts since the last compaction have seen. */
    ghost predicate Kept()
      reads this`dec, this`inbuf, this`seen, this`base, this`origin, dec
    {
      seen <= |inbuf| && CommittedAfter(SeenBits(inbuf, seen, base), base, origin, dec.bit, dec.State())
      && (seen > 0 ==> dec.bit <= 8 * seen && Stalled(BytesToBits(inbuf[..seen])[dec.bit..], dec.State()))
    }

    function Estimate(): nat
      reads this`lastBlockBytes
    {
      if lastBlockBytes > 0 then lastBlockBytes + BLOCK_SLACK else RETRY_STEP
    }

    /** What the truncated attempts have cost: at most twice the last one since the last compaction, at most what the
        buffer has to reach for the next, and before that at most twice what was compacted away. */
    ghost predicate Economical()
      reads this`given, this`inbuf, this`nextTry, this`lastBlockBytes, this`seen, this`dropped, this`spent,
        this`wasted
    {
      && |given| == dropped + |inbuf| && seen <= |inbuf|
      && wasted <= 2 * dropped + spent && spent <= 2 * seen && spent <= nextTry
      && (nextTry > 0 ==> nextTry >= Estimate())
    }

    lemma NeverMuchWasted()
      requires Economical()
      ensures wasted <= 2 * |given|
    {
    }

    lemma KeptExactly()
      requires Kept()
      ensures seen <= |inbuf| && (dec.Consumed() > 0 <==> FramingAhead(SeenBits(inbuf, seen, base), origin))
    {
      hide SeenBits, FramingAhead;
    }

    /** The size recorded is that of the last block handed out, and 0 exactly when there has been none. */
    ghost predicate Recorded()
      reads this`lastBlockBytes, this`sizes
    {
      lastBlockBytes == LastSize(sizes) && forall i :: 0 <= i < |sizes| ==> sizes[i] > 0
    }

    /** No further block is in the buffer: it ends where a stream may, or in the middle of something, and then the
        threshold for the next attempt stands. */
    ghost predicate AtRest()
      reads this`dec, this`inbuf, this`nextTry, this`sizes, dec
    {
      dec.bit <= 8 * |inbuf| &&
      var s, m := dec.Left(inbuf), dec.State();
      if NextBlock(s, m) == AtEnd(0, m) then nextTry == 0
      else RunsOut(s, m) && nextTry == Threshold(|inbuf|, LastSize(sizes))
    }

    ghost predicate Live()
      reads this, dec
    {
      && Recorded()
      && !poisoned && !finished && dec.bit <= 8 * |inbuf| && Kept() && Economical()
      && Tracking(given, produced, dec.Left(inbuf), dec.State())
    }

    ghost predicate Valid()
      reads this, dec
    {
      bytesIn == |given| && bytesOut == |produced| && wasted <= 2 * bytesIn && (!poisoned && !finished ==> Live())
    }

    constructor ()
      ensures Valid() && Live() && given == [] && produced == [] && fresh(dec)
    {
      dec := new BlockDecoder();
      inbuf, nextTry, lastBlockBytes, bytesIn, bytesOut, poisoned, finished := [], 0, 0, 0, 0, false, false;
      given, produced := [], [];
      base, origin, seen, dropped, spent, wasted, sizes := 0, INITIAL, 0, 0, 0, 0, [];
      new;
      TrackStart();
      NothingSeen([], 0, INITIAL);
      assert dec.Left([]) == [];
    }

    /** Forget the input that is no longer needed. */
    method Compact()
      requires dec.bit <= 8 * |inbuf|
      requires seen <= dec.Consumed() && |given| == dropped + |inbuf|
      requires wasted <= 2 * dropped + spent && spent <= 2 * seen
      modifies this`inbuf, this`base, this`origin, this`seen, this`dropped, this`spent, dec`bit
      ensures |given| == dropped + |inbuf| && wasted <= 2 * dropped && spent == 0 && seen == 0
      ensures dec.bit <= 8 * |inbuf| && dec.bit < 8 && dec.State() == old(dec.State()) && Kept()
      ensures dec.Left(inbuf) == old(dec.Left(inbuf)) && 8 * |inbuf| - dec.bit == old(8 * |inbuf| - dec.bit)
      ensures base == dec.bit && origin == dec.State()
    {
      hide BytesToBits, FramingAhead;
      var n := dec.Consumed();
      if n > 0 {
        dec.Rebase(n, inbuf);
        inbuf := inbuf[n..];
        dropped := dropped + n;
      }
      base, origin, seen, spent := dec.bit, dec.State(), 0, 0;
      NothingSeen(inbuf, base, origin);
    }

    /** With nothing left to read, everything has been seen. */
    ghost method AllSeen()
      requires base < 8 && base == dec.bit <= 8 * |inbuf| && origin == dec.State() && dec.Left(inbuf) == []
      modifies this`seen
      ensures Kept() && seen == |inbuf|
    {
      hide BytesToBits, SeenBits, FramingAhead, CommittedAfter;
      EverythingRead(inbuf, base, origin);
      seen := |inbuf|;
    }

    /** When to try again: at the previous block's length and some slack, or else after at least as much again. */
    method ArmRetry()
      modifies this`nextTry
      ensures nextTry > |inbuf| && nextTry == Threshold(|inbuf|, lastBlockBytes)
      ensures lastBlockBytes > 0 && |inbuf| < lastBlockBytes + BLOCK_SLACK ==> nextTry == lastBlockBytes + BLOCK_SLACK
      ensures lastBlockBytes == 0 && |inbuf| < RETRY_STEP ==> nextTry == RETRY_STEP
      ensures lastBlockBytes > 0 && lastBlockBytes + BLOCK_SLACK <= |inbuf| < RETRY_STEP ==>
        nextTry == |inbuf| + RETRY_STEP
      ensures |inbuf| >= RETRY_STEP && |inbuf| >= lastBlockBytes + BLOCK_SLACK ==> nextTry == 2 * |inbuf|
    {
      var n := |inbuf|;
      var estimate := Estimate();
      nextTry := if n < estimate then estimate else n + if n > RETRY_STEP then n else RETRY_STEP;
    }

    /** One attempt at the next block. */
    method Attempt(out0: seq<byte>) returns (r: Result<Step>, out: seq<byte>)
      requires dec.bit <= 8 * |inbuf| && Kept()
      requires Tracking(given, produced + out0, dec.Left(inbuf), dec.State())
      modifies dec, this`seen
      ensures dec.bit <= 8 * |inbuf| && Tracking(given, produced + out, dec.Left(inbuf), dec.State())
      ensures dec.bit >= old(dec.bit) && (r == Ok(Block) ==> dec.bit > old(dec.bit))
      ensures r == Ok(Block) ==>
        dec.Consumed() > 0 && HandsOut(old(dec.Left(inbuf)), old(dec.State()), out0, out, dec.bit - old(dec.bit))
      ensures r == Ok(Eof) ==> DecodeFile(given) == Ok(produced + out) && out == out0 && dec.Left(inbuf) == []
      ensures r == Ok(Eof) ==> dec.State().phase == StreamStart
      ensures r == Err(Truncated) ==> RunsOut(dec.Left(inbuf), dec.State())
      ensures r.Err? ==> out == out0 && DecodeFile(given) == Err(r.error)
      ensures r.Err? && r.error != Truncated ==> Doomed(given, r.error)
      ensures r == Err(Truncated) <==> RunsOut(old(dec.Left(inbuf)), old(dec.State()))
      ensures r == Err(Truncated) ==> Kept() && seen == |inbuf|
      ensures r != Err(Truncated) ==> seen == old(seen) && (r.Ok? ==> seen <= dec.Consumed())
    {
      hide DecodeAll, DecodeFile, NextBlock, Tracking, Doomed, BytesToBits, FramingAhead, SeenBits, CommittedAfter,
           Stalled;
      ghost var s, m, at := dec.Left(inbuf), dec.State(), dec.bit;
      TrackStep(given, produced + out0, s, m);
      TrackEnd(given, produced + out0, s, m);
      ghost var want := NextBlock(s, m);
      if want.AtEnd? { EndLeavesNothing(s, m); }
      if want.Produced? { ProducedIsLong(s, m); }
      if want.Halted? { HaltedStays(s, m); }
      if want.Halted? {
        TruncatedAgain(inbuf, seen, base, origin, at, m);
        if want.error == Truncated { StallsThere(inbuf, at, m); }
      }
      if seen > 0 { BlockTakesSeen(inbuf, seen, at, m); }
      r, out := dec.NextBlockInto(inbuf, out0);
      DropSum(BytesToBits(inbuf), at, dec.bit - at);
      if r == Err(Truncated) { seen := |inbuf|; }
      if want.Produced? { assert produced + (out0 + want.out) == produced + out0 + want.out; }
    }

    /** A truncated attempt went over the whole buffer; the next has to wait. */
    method Await()
      requires dec.bit <= 8 * |inbuf| && RunsOut(dec.Left(inbuf), dec.State()) && Recorded()
      requires Economical() && seen == |inbuf| && |inbuf| >= nextTry
      modifies this`nextTry, this`spent, this`wasted
      ensures AtRest() && Recorded()
      ensures Economical() && spent == old(spent) + |inbuf| && wasted == old(wasted) + |inbuf|
    {
      hide NextBlock, BytesToBits;
      wasted, spent := wasted + |inbuf|, spent + |inbuf|;
      ArmRetry();
    }

    /** Behind a block: record its size and go on with what is left of the buffer. */
    method Next()
      requires dec.bit <= 8 * |inbuf| && dec.Consumed() > 0 && Recorded()
      requires seen <= dec.Consumed() && |given| == dropped + |inbuf|
      requires wasted <= 2 * dropped + spent && spent <= 2 * seen
      modifies this`inbuf, this`nextTry, this`lastBlockBytes, this`base, this`origin, this`seen, this`dropped,
        this`spent, this`sizes, dec`bit
      ensures dec.bit <= 8 * |inbuf| && dec.State() == old(dec.State()) && Kept() && Economical() && Recorded()
      ensures dec.Left(inbuf) == old(dec.Left(inbuf)) && 8 * |inbuf| - dec.bit == old(8 * |inbuf| - dec.bit)
      ensures nextTry == 0 && sizes == old(sizes) + [old(dec.Consumed())]
    {
      hide BytesToBits, FramingAhead, SeenBits, CommittedAfter, Stalled;
      lastBlockBytes := dec.Consumed();
      sizes := sizes + [lastBlockBytes];
      Compact();
      nextTry := 0;
    }

    /** At a clean end: nothing is left, and whatever comes may be tried at once. */
    method Rest()
      requires dec.bit <= 8 * |inbuf| && dec.Left(inbuf) == [] && dec.State().phase == StreamStart && Recorded()
      requires seen <= dec.Consumed() && |given| == dropped + |inbuf|
      requires wasted <= 2 * dropped + spent && spent <= 2 * seen
      modifies this`inbuf, this`nextTry, this`base, this`origin, this`seen, this`dropped, this`spent, dec`bit
      ensures dec.bit <= 8 * |inbuf| && dec.State() == old(dec.State()) && Kept() && Economical() && Recorded()
      ensures dec.Left(inbuf) == [] && seen == |inbuf| && AtRest()
      ensures 8 * |inbuf| - dec.bit == old(8 * |inbuf| - dec.bit)
    {
      hide BytesToBits, FramingAhead, SeenBits, CommittedAfter, Stalled, NextBlock;
      Compact();
      AllSeen();
      NothingLeft(dec.State());
      nextTry := 0;
    }

    /** One attempt and what follows from it: go on, wait for more input or stop at the end, or fail. */
    method Turn(last: bool, out0: seq<byte>) returns (out: seq<byte>, going: bool, failure: Option<Error>)
      requires dec.bit <= 8 * |inbuf| && Kept() && Economical() && Recorded() && (last || |inbuf| >= nextTry)
      requires Tracking(given, produced + out0, dec.Left(inbuf), dec.State())
      modifies this`inbuf, this`nextTry, this`lastBlockBytes, this`base, this`origin, this`seen, this`dropped,
        this`spent, this`wasted, this`sizes, dec
      ensures failure == None ==> dec.bit <= 8 * |inbuf| && Kept() && Economical() && Recorded()
      ensures failure == None && going ==>
        OneMoreSize(old(dec.Left(inbuf)), old(dec.State()), old(dec.bit), out0, out, old(sizes), sizes)
      ensures !going ==> out == out0 && sizes == old(sizes)
      ensures failure == None && !going ==> AtRest()
      ensures wasted == old(wasted) +
        if !last && RunsOut(old(dec.Left(inbuf)), old(dec.State())) then old(|inbuf|) else 0
      ensures wasted == old(wasted) || (!going && failure == None && inbuf == old(inbuf))
      ensures failure == None ==> Tracking(given, produced + out, dec.Left(inbuf), dec.State())
      ensures failure == None && going ==> nextTry == 0 && 8 * |inbuf| - dec.bit < old(8 * |inbuf| - dec.bit)
      ensures failure == None && !going ==> seen == |inbuf| && (last ==> DecodeFile(given) == Ok(produced + out))
      ensures failure.Some? ==>
        if last then DecodeFile(given) == Err(failure.value) else Doomed(given, failure.value)
    {
      hide DecodeAll, DecodeFile, NextBlock, Tracking, Doomed, BytesToBits, FramingAhead, SeenBits, CommittedAfter,
           Stalled, RunsOut, Threshold, LastSize;
      var step;
      step, out := Attempt(out0);
      going, failure := false, None;
      match step {
        case Ok(Block) =>
          Next();
          going := true;
        case Ok(Eof) =>
          Rest();
        case Err(e) =>
          if e == Truncated && !last {
            Await();
          } else {
            failure := Some(e);
          }
      }
    }

    /** Decode block after block until the input at hand gives no more; with `last` there is no more to come. */
    method Pump(last: bool) returns (r: Reply)
      requires Live() && bytesOut == |produced|
      modifies this`inbuf, this`nextTry, this`lastBlockBytes, this`bytesOut, this`poisoned, this`produced,
        this`base, this`origin, this`seen, this`dropped, this`spent, this`wasted, this`sizes, dec
      ensures r.Plaintext? && (last || old(|inbuf|) >= old(nextTry)) ==> AtRest()
      ensures !last && old(|inbuf|) < old(nextTry) ==>
        r == Plaintext([]) && inbuf == old(inbuf) && nextTry == old(nextTry) && sizes == old(sizes)
      ensures bytesOut == |produced| && wasted <= 2 * |given|
      ensures wasted == old(wasted) || (r.Plaintext? && wasted == old(wasted) + |inbuf|)
      ensures match r
        case Plaintext(out) => produced == old(produced) + out && Live() && (last ==> DecodeFile(given) == Ok(produced))
        case Failed(why) =>
          produced == old(produced) && poisoned && why.Malformed?
          && (if last then DecodeFile(given) == Err(why.error) else Doomed(given, why.error))
      ensures r.Plaintext? && (last || old(|inbuf|) >= old(nextTry)) ==>
        seen == |inbuf| && (dec.Consumed() > 0 <==> FramingAhead(SeenBits(inbuf, |inbuf|, base), origin))
    {
      hide DecodeAll, DecodeFile, NextBlock, Tracking, Doomed, BytesToBits, FramingAhead, SeenBits, CommittedAfter,
           Threshold, LastSize, RunsOut, Recorded, AtRest, Stalled, Kept, Economical;
      var out: seq<byte> := [];
      assert produced + [] == produced;
      var going := true;
      while going
        invariant !poisoned && !finished && dec.bit <= 8 * |inbuf| && produced == old(produced)
        invariant bytesOut == |produced| && Economical() && Recorded()
        invariant !going && (last || old(|inbuf|) >= old(nextTry)) ==> AtRest()
        invariant !last && old(|inbuf|) < old(nextTry) ==>
          going && out == [] && inbuf == old(inbuf) && nextTry == old(nextTry) && sizes == old(sizes)
        invariant wasted == old(wasted) || (!going && wasted == old(wasted) + |inbuf|)
        invariant Tracking(given, produced + out, dec.Left(inbuf), dec.State()) && Kept()
        invariant going ==> nextTry == 0 || (inbuf == old(inbuf) && nextTry == old(nextTry))
        invariant !going && (last || old(|inbuf|) >= old(nextTry)) ==> seen == |inbuf|
        invariant !going && last ==> DecodeFile(given) == Ok(produced + out)
        decreases going, 8 * |inbuf| - dec.bit
      {
        if !last && |inbuf| < nextTry { break; }
        NeverMuchWasted();
        var failure;
        out, going, failure := Turn(last, out);
        if failure.Some? {
          poisoned := true;
          return Failed(Malformed(failure.value));
        }
      }
      KeptExactly();
      NeverMuchWasted();
      bytesOut := bytesOut + |out|;
      produced := produced + out;
      r := Plaintext(out);
    }

    /** Take one more piece of the input and return what it completes. An input is reported as
        malformed here only when every continuation of it decodes to that same error. */
    method Push(chunk: seq<byte>) returns (r: Reply)
      requires Valid()
      modifies this, dec
      ensures Valid() && dec == old(dec) && wasted <= 2 * |given|
      ensures old(finished) ==> r == Failed(PushAfterFinish) && finished && given == old(given)
      ensures !old(finished) && old(poisoned) ==> r == Failed(AlreadyFailed) && poisoned && given == old(given)
      ensures !old(finished) && !old(poisoned) ==>
        given == old(given) + chunk && !finished
        && match r
           case Plaintext(out) =>
             && Live() && produced == old(produced) + out
             && (if old(|inbuf|) + |chunk| >= old(nextTry) then AtRest() else out == [] && nextTry == old(nextTry))
           case Failed(why) => poisoned && why.Malformed? && Doomed(given, why.error) && produced == old(produced)
    {
      hide DecodeAll, DecodeFile, NextBlock, Tracking, Doomed, BytesToBits, FramingAhead;
      if finished { return Failed(PushAfterFinish); }
      if poisoned { return Failed(AlreadyFailed); }
      assert (inbuf + chunk)[..seen] == inbuf[..seen];
      TrackPush(given, produced, dec.Left(inbuf), dec.State(), chunk);
      BytesToBitsAppend(inbuf, chunk);
      DropAppend(BytesToBits(inbuf), BytesToBits(chunk), dec.bit);
      inbuf := inbuf + chunk;
      bytesIn := bytesIn + |chunk|;
      given := given + chunk;
      r := Pump(false);
    }

    /** End of input: the rest of the plaintext, or the error that decoding the whole input gives. */
    method Finish() returns (r: Reply)
      requires Valid()
      modifies this, dec
      ensures Valid() && given == old(given)
      ensures old(finished) ==> r == Plaintext([]) && finished
      ensures !old(finished) && old(poisoned) ==> r == Failed(AlreadyFailed) && poisoned
      ensures !old(finished) && !old(poisoned) ==>
        match r
        case Plaintext(out) => finished && produced == old(produced) + out && DecodeFile(given) == Ok(produced)
        case Failed(why) => poisoned && why.Malformed? && DecodeFile(given) == Err(why.error)
    {
      hide DecodeAll, DecodeFile, NextBlock, Tracking, Doomed, BytesToBits, FramingAhead;
      if finished { return Plaintext([]); }
      if poisoned { return Failed(AlreadyFailed); }
      r := Pump(true);
      if r.Plaintext? {
        finished := true;
        inbuf := [];
        dec := new BlockDecoder();
      }
    }
  }

  function Joined(chunks: seq<seq<byte>>): seq<byte> {
    if chunks == [] then [] else Joined(chunks[..|chunks| - 1]) + chunks[|chunks| - 1]
  }

  lemma {:induction false} JoinedSplit(chunks: seq<seq<byte>>, i: nat)
    requires i <= |chunks|
    ensures exists rest: seq<byte> :: Joined(chunks) == Joined(chunks[..i]) + rest
    decreases |chunks| - i
  {
    if i == |chunks| {
      assert chunks[..i] == chunks;
      assert Joined(chunks) == Joined(chunks[..i]) + [];
    } else {
      JoinedSplit(chunks, i + 1);
      var rest :| Joined(chunks) == Joined(chunks[..i + 1]) + rest;
      assert chunks[..i + 1][..i] == chunks[..i];
      assert Joined(chunks) == Joined(chunks[..i]) + (chunks[i] + rest);
    }
  }

  /** Push every chunk, then finish: whatever the chunks, the outcome is that of decoding their concatenation. */
  method DecodeInChunks(chunks: seq<seq<byte>>) returns (r: Result<seq<byte>>)
    ensures r == DecodeFile(Joined(chunks))
  {
    hide DecodeAll, DecodeFile, Tracking, BytesToBits;
    var d := new Bz2Decoder();
    var out: seq<byte> := [];
    var i := 0;
    while i < |chunks|
      invariant 0 <= i <= |chunks| && d.Valid() && d.Live() && d.given == Joined(chunks[..i]) && d.produced == out
      invariant fresh(d) && fresh(d.dec)
    {
      assert chunks[..i + 1][..i] == chunks[..i];
      var reply := d.Push(chunks[i]);
      if reply.Failed? {
        JoinedSplit(chunks, i + 1);
        var e := reply.why.error;
        assert DecodeFile(Joined(chunks)) == Err(e) by {
          var rest :| Joined(chunks) == Joined(chunks[..i + 1]) + rest;
          assert Doomed(d.given, e);
        }
        return Err(e);
      }
      out := out + reply.out;
      i := i + 1;
    }
    assert chunks[..i] == chunks;
    var reply := d.Finish();
    if reply.Failed? { return Err(reply.why.error); }
    r := Ok(out + reply.out);
  }
}
