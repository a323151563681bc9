/** The most-significant-bit-first bit writer. */
module BitWriting {
  import opened Sequences
  import opened Bits

  /** Pushing out the top byte of what is pending moves eight bits from one side to the other. */
  lemma TopByte(v: nat, total: nat, n: nat, n': nat)
    requires n' == n + 8 <= total
    ensures ToBits(Shr(v, n), total - n) == ToBits(Shr(v, n'), total - n') + ToBits(Shr(v, n) % 256, 8)
  {
    ToBitsSplit(Shr(v, n), total - n, 8);
    DivDiv(v, n, 8);
    Pow2Small();
    ToBitsMod(Shr(v, n), 8);
  }

  lemma AppendBits(acc: nat, k: nat, val: nat, n: nat)
    requires acc < Pow2(k) && val < Pow2(n)
    ensures acc * Pow2(n) + val < Pow2(k + n)
    ensures ToBits(acc * Pow2(n) + val, k + n) == ToBits(acc, k) + ToBits(val, n)
  {
    var v := acc * Pow2(n) + val;
    Pow2Add(k, n);
    MulMono(acc, Pow2(k) - 1, Pow2(n));
    assert (Pow2(k) - 1) * Pow2(n) == Pow2(k) * Pow2(n) - Pow2(n);
    DivModUnique(v, Pow2(n), acc, val);
    ToBitsSplit(v, k + n, n);
    ToBitsMod(v, n);
  }

  /** The bits of `acc` above the low `n` have gone out, after those of `base`. */
  ghost predicate Emitted(out: seq<byte>, base: seq<bit>, acc: nat, total: nat, n: nat)
    requires n <= total
  {
    BytesToBits(out) == base + ToBits(Shr(acc, n), total - n)
  }

  lemma EmitNothing(out: seq<byte>, acc: nat, total: nat)
    requires acc < Pow2(total)
    ensures Emitted(out, BytesToBits(out), acc, total, total)
  {
  }

  lemma EmitStep(out: seq<byte>, base: seq<bit>, acc: nat, total: nat, n: nat, n': nat, top: byte)
    requires n' == n + 8 <= total && Emitted(out, base, acc, total, n') && top == Shr(acc, n) % 256
    ensures Emitted(out + [top], base, acc, total, n)
  {
    TopByte(acc, total, n, n');
    Associate(base, ToBits(Shr(acc, n'), total - n'), ToBits(top, 8));
    BytesToBitsAppend(out, [top]);
    BytesToBitsOne(top);
  }

  lemma EmitRest(out: seq<byte>, base: seq<bit>, acc: nat, total: nat, n: nat)
    requires n <= total && Emitted(out, base, acc, total, n)
    ensures BytesToBits(out) + ToBits(acc % Pow2(n), n) == base + ToBits(acc, total)
  {
    ToBitsSplit(acc, total, n);
    ToBitsMod(acc, n);
  }

  class BitWriter {
    var out: seq<byte>
    var acc: nat
    var nbits: nat

    ghost predicate Valid()
      reads this
    {
      nbits < 8 && acc < Pow2(nbits)
    }

    /** Everything written since the last drain. */
    ghost function Contents(): seq<bit>
      reads this
    {
      BytesToBits(out) + ToBits(acc, nbits)
    }

    constructor ()
      ensures Valid() && Contents() == []
    {
      out, acc, nbits := [], 0, 0;
    }

    /** Append the low `n` bits of `val`. */
    method WriteBits(n: nat, val: nat)
      requires Valid() && n <= 32
      modifies this
      ensures Valid() && Contents() == old(Contents()) + ToBits(val, n)
    {
      hide ToBits, BytesToBits, Emitted, Pow2;
      ghost var base, pending := BytesToBits(out), ToBits(acc, nbits);
      var masked := val % Pow2(n);
      ToBitsMod(val, n);
      AppendBits(acc, nbits, masked, n);
      acc := acc * Pow2(n) + masked;
      nbits := nbits + n;
      EmitNothing(out, acc, nbits);
      ghost var total, all := nbits, acc;
      while nbits >= 8
        invariant nbits <= total && acc == all
        invariant Emitted(out, base, all, total, nbits)
      {
        ghost var n' := nbits;
        nbits := nbits - 8;
        var top := Shr(acc, nbits) % 256;
        EmitStep(out, base, all, total, nbits, n', top);
        out := out + [top];
      }
      EmitRest(out, base, all, total, nbits);
      Associate(base, pending, ToBits(val, n));
      acc := acc % Pow2(nbits);
    }

    method WriteBit(b: nat)
      requires Valid() && b < 2
      modifies this
      ensures Valid() && Contents() == old(Contents()) + [b as bit]
    {
      WriteBits(1, b);
      assert ToBits(b, 1) == ToBits(b / 2, 0) + [b % 2];
    }

    /** Either magic number, as two words of 24 bits. */
    method WriteMagic(magic: nat)
      requires Valid() && magic < 0x1_0000_0000_0000
      modifies this
      ensures Valid() && Contents() == old(Contents()) + ToBits(magic, 48)
    {
      hide ToBits, Pow2, BytesToBits;
      var half := 24;
      Pow2Words(half);
      ToBitsSplit(magic, 48, half);
      ToBitsMod(magic, half);
      WriteBits(half, Shr(magic, half));
      WriteBits(half, magic % 0x100_0000);
    }

    /** Take the whole bytes written so far; a partial byte stays. */
    method Drain() returns (taken: seq<byte>)
      requires Valid()
      modifies this
      ensures Valid() && BytesToBits(taken) + Contents() == old(Contents())
      ensures nbits == old(nbits) && |Contents()| == nbits
    {
      taken := out;
      out := [];
    }

    /** Pad the last byte with zero bits and take everything. */
    method Finish() returns (taken: seq<byte>)
      requires Valid()
      modifies this
      ensures exists pad: nat :: pad < 8 && BytesToBits(taken) == old(Contents()) + Zeros(pad)
    {
      ghost var bits := Contents();
      var pad := if nbits > 0 then 8 - nbits else 0;
      ToBitsZero(pad);
      if nbits > 0 {
        WriteBits(pad, 0);
        assert |Contents()| == 8 * |out| + nbits;
      }
      assert ToBits(acc, 0) == [];
      assert Contents() == bits + Zeros(pad);
      taken := out;
    }
  }

  lemma {:induction false} ToBitsZero(n: nat)
    ensures ToBits(0, n) == Zeros(n)
  {
    if n > 0 {
      ToBitsZero(n - 1);
      assert Zeros(n) == Zeros(n - 1) + [0];
    }
  }
}
