/** The inverse permutation walk over a prepared block, expanding RLE1 and folding the CRC as it goes. */
module Walking {
  import opened Bits
  import opened MoveToFront
  import opened RunLength
  import opened Crc
  import opened Bwt

  /** A prepared block: the stored CRC, the starting row, and the last column of the transform. */
  datatype Prepared = Prepared(crc: word, origPtr: nat, last: seq<byte>)

  ghost predicate Walkable(p: Prepared) {
    p.origPtr < |p.last|
  }

  /** The plaintext of a prepared block. */
  ghost function Plain(p: Prepared): seq<byte>
    requires Walkable(p)
  {
    Expand(START, Inverse(p.last, p.origPtr))
  }

  /** A cell's two halves fit a 32-bit word, since source rows fit 24 bits. */
  lemma CellFits(last: seq<byte>, j: nat)
    requires j < |last| <= 900_000
    ensures Cell(last, j) < U32 && Cell(last, j) / 256 == Psi(last, j) < 0x100_0000
      && Cell(last, j) % 256 == last[Psi(last, j)]
  {
  }

  /** Output is bounded by the number of cells. */
  lemma PlainBound(p: Prepared)
    requires Walkable(p)
    ensures 5 * |Plain(p)| <= 259 * |p.last|
    ensures |Plain(p)| <= |p.last| + 254 * (|p.last| / 5)
  {
    ExpandBound(Inverse(p.last, p.origPtr));
    ExpandCells(START, Inverse(p.last, p.origPtr));
  }

  method FoldRepeat(crc0: word, v: byte, n: nat) returns (crc: word)
    ensures crc == Fold(crc0, Repeat(v, n))
  {
    crc := crc0;
    var k := 0;
    while k < n
      invariant 0 <= k <= n && crc == Fold(crc0, Repeat(v, k))
    {
      assert Repeat(v, k + 1) == Repeat(v, k) + [v];
      FoldAppend(crc0, Repeat(v, k), [v]);
      FoldOne(crc, v);
      crc := Update(crc, v);
      k := k + 1;
    }
  }

  /** Every cell leads on as `Cell` says. */
  ghost predicate Threaded(tt: seq<nat>, last: seq<byte>) {
    |tt| == |last| && forall j :: 0 <= j < |tt| ==> tt[j] == Cell(last, j)
  }

  class WalkCursor {
    const tt: seq<nat>
    ghost const last: seq<byte>
    var tPos: nat
    var prev: int
    var count: nat
    var crc: word
    var rem: nat
    var out: seq<byte>
    ghost var at: nat

    ghost predicate Valid()
      reads this
    {
      Threaded(tt, last) && at < |last| && tPos == Cell(last, at) && Possible(Run(prev, count))
    }

    /** The plaintext still to come. */
    ghost function ToCome(): seq<byte>
      reads this
      requires Valid()
    {
      Expand(Run(prev, count), Unwind(last, at, rem))
    }

    constructor (tt: seq<nat>, origPtr: nat, out: seq<byte>, ghost last: seq<byte>)
      requires Threaded(tt, last) && origPtr < |tt|
      ensures Valid() && this.out == out && crc == INIT && rem == |tt|
      ensures ToCome() == Expand(START, Inverse(last, origPtr))
    {
      this.tt := tt;
      this.last := last;
      this.out := out;
      tPos := tt[origPtr];
      prev, count, crc, rem := -1, 0, INIT, |tt|;
      at := origPtr;
    }

    /** One cell: its byte goes through RLE1 to the output and the CRC. */
    method Step()
      requires Valid() && rem > 0
      modifies this
      ensures Valid() && rem == old(rem) - 1
      ensures out + ToCome() == old(out + ToCome())
      ensures Fold(crc, ToCome()) == old(Fold(crc, ToCome()))
    {
      hide Fold, Update, Lf;
      ghost var come := Unwind(last, at, rem);
      ghost var i := Psi(last, at);
      assert come == [last[i]] + Unwind(last, i, rem - 1);
      ghost var r, out0, crc0, coming := Run(prev, count), out, crc, ToCome();
      var b := tPos % 256;
      assert b == last[i] && tPos / 256 == i;
      tPos := tt[tPos / 256];
      at := i;
      ghost var emitted := Emits(r, b);
      ghost var rest := Expand(Next(r, b), Unwind(last, i, rem - 1));
      assert coming == emitted + rest by {
        assert come[0] == b && come[1..] == Unwind(last, i, rem - 1);
      }
      FoldAppend(crc0, emitted, rest);
      if count == 4 {
        var v := prev;
        out := out + Repeat(v, b);
        crc := FoldRepeat(crc, v, b);
        count := 0;
        prev := -1;
      } else {
        out := out + [b];
        FoldOne(crc, b);
        crc := Update(crc, b);
        if b == prev {
          count := count + 1;
        } else {
          prev := b;
          count := 1;
        }
      }
      rem := rem - 1;
      assert Run(prev, count) == Next(r, b) && out == out0 + emitted && crc == Fold(crc0, emitted);
      assert out0 + (emitted + rest) == out0 + emitted + rest;
    }

    /** Run the remaining steps; the block's CRC. */
    method Finish() returns (checksum: word)
      requires Valid()
      modifies this
      ensures out == old(out + ToCome()) && checksum == Invert(old(Fold(crc, ToCome())))
    {
      while rem > 0
        invariant Valid() && out + ToCome() == old(out + ToCome())
        invariant Fold(crc, ToCome()) == old(Fold(crc, ToCome()))
        decreases rem
      {
        Step();
      }
      assert ToCome() == [];
      assert out + [] == out;
      checksum := Invert(crc);
    }
  }

  lemma FoldOne(crc: word, b: byte)
    ensures Fold(crc, [b]) == Update(crc, b)
  {
    assert [b][1..] == [];
    assert Fold(Update(crc, b), []) == Update(crc, b);
  }

  /** Two walks with their steps interleaved end as each would alone. */
  method WalkPair(a: WalkCursor, b: WalkCursor) returns (ca: word, cb: word)
    requires a != b && a.Valid() && b.Valid()
    modifies a, b
    ensures a.out == old(a.out + a.ToCome()) && ca == Invert(old(Fold(a.crc, a.ToCome())))
    ensures b.out == old(b.out + b.ToCome()) && cb == Invert(old(Fold(b.crc, b.ToCome())))
  {
    while a.rem > 0 && b.rem > 0
      invariant a.Valid() && b.Valid()
      invariant a.out + a.ToCome() == old(a.out + a.ToCome()) && Fold(a.crc, a.ToCome()) == old(Fold(a.crc, a.ToCome()))
      invariant b.out + b.ToCome() == old(b.out + b.ToCome()) && Fold(b.crc, b.ToCome()) == old(Fold(b.crc, b.ToCome()))
      decreases a.rem
    {
      a.Step();
      b.Step();
    }
    ca := a.Finish();
    cb := b.Finish();
  }

  /** Walk one prepared block after `out0`. */
  method Walk(tt: seq<nat>, origPtr: nat, out0: seq<byte>, ghost p: Prepared) returns (out: seq<byte>, checksum: word)
    requires Walkable(p) && Threaded(tt, p.last) && origPtr == p.origPtr
    ensures out == out0 + Plain(p) && checksum == Checksum(Plain(p))
  {
    var w := new WalkCursor(tt, origPtr, out0, p.last);
    checksum := w.Finish();
    out := w.out;
  }
}
