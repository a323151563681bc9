/** CRC-32/BZIP2, the same left fold on the encoder's and the decoder's side. */
module Crc {
  import opened Bits

  type word = x: int | 0 <= x < U32

  function Xor(a: nat, b: nat): nat
    decreases a + b
  {
    if a == 0 then b else if b == 0 then a else 2 * Xor(a / 2, b / 2) + (a % 2 + b % 2) % 2
  }

  lemma {:induction false} XorBound(a: nat, b: nat, n: nat)
    requires a < Pow2(n) && b < Pow2(n)
    ensures Xor(a, b) < Pow2(n)
    decreases n
  {
    if a != 0 && b != 0 { XorBound(a / 2, b / 2, n - 1); }
  }

  function XorWords(a: word, b: word): word {
    var n := 32;
    Pow2Words(n);
    XorBound(a, b, n);
    Xor(a, b)
  }

  /** One entry of the 256-entry table, from its top byte through `k` more shifts. */
  function TableStep(c: word, k: nat): word
    decreases k, c
  {
    if k == 0 then c
    else TableStep(if c >= 0x8000_0000 then XorWords((c * 2) % U32, 0x04C1_1DB7) else (c * 2) % U32, k - 1)
  }

  function TableEntry(n: byte): word {
    TableStep(n * 0x100_0000, 8)
  }

  function Update(crc: word, b: byte): word {
    XorWords((crc * 256) % U32, TableEntry(Xor(crc / 0x100_0000, b) % 256))
  }

  /** The state after `data`. */
  function Fold(crc: word, data: seq<byte>): word
    decreases |data|
  {
    if data == [] then crc else Fold(Update(crc, data[0]), data[1..])
  }

  const INIT: word := 0xFFFF_FFFF

  /** `!state` */
  function Invert(crc: word): word {
    0xFFFF_FFFF - crc
  }

  function Checksum(data: seq<byte>): word {
    Invert(Fold(INIT, data))
  }

  lemma {:induction false} FoldAppend(crc: word, a: seq<byte>, b: seq<byte>)
    ensures Fold(crc, a + b) == Fold(Fold(crc, a), b)
    decreases |a|
  {
    hide Update;
    if a == [] {
      assert a + b == b;
    } else {
      FoldAppend(Update(crc, a[0]), a[1..], b);
      assert (a + b)[1..] == a[1..] + b;
    }
  }

  /** Fold a block's CRC into the stream's: rotate left by one, then xor. */
  function Combine(combined: word, block: word): word {
    XorWords((combined * 2) % U32 + combined / 0x8000_0000, block)
  }
}
