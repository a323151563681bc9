/** The scanner: at which bit offsets a block may begin. */
module Scanning {
  import opened Bits
  import opened BitReading
  import opened BlockWritten

  /** The magic stands at bit `pos`, wholly inside the input. */
  predicate Occurs(bits: seq<bit>, pos: nat) {
    pos + 48 <= |bits| && Value(bits[pos..pos + 48]) == BLOCK_MAGIC
  }

  /** All the offsets in a range at which it occurs, ascending. */
  function Matches(bits: seq<bit>, lo: nat, hi: nat): seq<nat>
    decreases hi
  {
    if hi <= lo then [] else Matches(bits, lo, hi - 1) + if Occurs(bits, hi - 1) then [hi - 1] else []
  }

  lemma {:induction false} MatchesAre(bits: seq<bit>, lo: nat, hi: nat, x: nat)
    ensures x in Matches(bits, lo, hi) <==> lo <= x < hi && Occurs(bits, x)
    decreases hi
  {
    if hi > lo { MatchesAre(bits, lo, hi - 1, x); }
  }

  lemma {:induction false} MatchesAscend(bits: seq<bit>, lo: nat, hi: nat, i: nat, j: nat)
    requires i < j < |Matches(bits, lo, hi)|
    ensures Matches(bits, lo, hi)[i] < Matches(bits, lo, hi)[j]
    decreases hi
  {
    var head := Matches(bits, lo, hi - 1);
    if j < |head| {
      MatchesAscend(bits, lo, hi - 1, i, j);
    } else {
      assert head[i] in head;
      MatchesAre(bits, lo, hi - 1, head[i]);
    }
  }

  /** Splitting a range splits its list. */
  lemma {:induction false} MatchesSplit(bits: seq<bit>, lo: nat, mid: nat, hi: nat)
    requires lo <= mid <= hi
    ensures Matches(bits, lo, hi) == Matches(bits, lo, mid) + Matches(bits, mid, hi)
    decreases hi
  {
    if mid < hi { MatchesSplit(bits, lo, mid, hi - 1); }
  }

  // ----- the prefix table -----

  /** The low `8 - k` bits of `b` are the top `8 - k` bits of the magic. */
  predicate PrefixHit(b: byte, k: nat)
    requires k < 8
  {
    b % Pow2(8 - k) == BLOCK_MAGIC / Pow2(40 + k)
  }

  predicate BitSet(mask: bv8, k: nat)
    requires k < 8
  {
    (mask >> k) & 1 == 1
  }

  ghost predicate HitsBelow(mask: bv8, b: byte, k: nat) {
    forall j: nat :: j < 8 ==> (BitSet(mask, j) <==> j < k && PrefixHit(b, j))
  }

  lemma OneMoreHit(mask: bv8, b: byte, k: nat)
    requires k < 8 && HitsBelow(mask, b, k)
    ensures PrefixHit(b, k) ==> HitsBelow(mask | (1 << k), b, k + 1)
    ensures !PrefixHit(b, k) ==> HitsBelow(mask, b, k + 1)
  {
    hide PrefixHit, BitSet;
    forall j: nat | j < 8 ensures BitSet(mask | (1 << k), j) <==> BitSet(mask, j) || j == k { SetBit(mask, k, j); }
  }

  /** Entry of the table: bit `k` says that the byte can begin a magic at its bit `k`. */
  method PrefixEntry(b: byte) returns (mask: bv8)
    ensures HitsBelow(mask, b, 8)
  {
    hide BitSet;
    mask := 0;
    var k: nat := 0;
    forall j: nat | j < 8 ensures !BitSet(0, j) { NoBits(j); }
    while k < 8
      invariant k <= 8 && HitsBelow(mask, b, k)
    {
      OneMoreHit(mask, b, k);
      var want := BLOCK_MAGIC / Pow2(40 + k);
      if b % Pow2(8 - k) == want {
        mask := mask | (1 << k);
      }
      k := k + 1;
    }
  }

  lemma SetBit(mask: bv8, k: nat, j: nat)
    requires k < 8 && j < 8
    ensures BitSet(mask | (1 << k), j) <==> BitSet(mask, j) || j == k
  {
    assert (mask | (1 << k)) >> j == (mask >> j) | ((1 << k) >> j);
  }

  lemma TopBits(w: seq<bit>, j: nat)
    requires |w| == 48 && Value(w) == BLOCK_MAGIC && j <= 48
    ensures Value(w[..j]) == BLOCK_MAGIC / Pow2(48 - j)
  {
    ValueSplit(w, j);
  }

  /** The filter loses no magic: where one begins at bit `k` of a byte, the byte is a hit. */
  lemma PrefixFindsAll(bits: seq<bit>, at: nat, k: nat)
    requires k < 8 && Value(Window(bits, at + k, 48)) == BLOCK_MAGIC
    ensures PrefixHit(Value(Window(bits, at, 8)), k)
  {
    hide ToBits;
    Pow2Small();
    var b, w := Window(bits, at, 8), Window(bits, at + k, 48);
    ValueSplit(b, k);
    TopBits(w, 8 - k);
    assert b[k..] == w[..8 - k];
  }

  // ----- the rolling window -----

  method ByteAt(input: seq<byte>, i: nat) returns (b: byte)
    ensures b == Value(Window(BytesToBits(input), 8 * i, 8))
  {
    ghost var bits := BytesToBits(input);
    if i < |input| {
      BytesToBitsAt(input, i);
      WindowInside(bits, 8 * i, 8);
      ByteValue(input[i]);
      b := input[i];
    } else {
      ValueZeros(8);
      assert Window(bits, 8 * i, 8) == Zeros(8);
      b := 0;
    }
  }

  lemma WindowGrows(bits: seq<bit>, pos: nat, n: nat)
    ensures Value(Window(bits, pos, n + 8)) == Value(Window(bits, pos, n)) * 256 + Value(Window(bits, pos + n, 8))
  {
    WindowPrefix(bits, pos, n + 8, n);
    assert Window(bits, pos, n + 8) == Window(bits, pos, n) + Window(bits, pos + n, 8);
    ValueByte(Window(bits, pos, n), Window(bits, pos + n, 8));
  }

  /** Shifting one more byte into the 64-bit register drops the oldest byte. */
  lemma Roll(bits: seq<bit>, pos: nat, w: nat, b: byte, grown: nat)
    requires w % Pow2(56) == Value(Window(bits, pos, 56)) && b == Value(Window(bits, pos + 56, 8))
      && grown == w * 256 + b
    ensures grown % U64 == Value(Window(bits, pos, 64))
    ensures Value(Window(bits, pos, 64)) % Pow2(56) == Value(Window(bits, pos + 8, 56))
  {
    hide ToBits;
    var n := 56;
    WindowGrows(bits, pos, n);
    Pow2Byte(n);
    var word := 64;
    Pow2Words(word);
    LowBits(w, Pow2(n), Pow2(word), Value(Window(bits, pos, n)), b);
    WindowPrefix(bits, pos, word, 8);
    ValueSplit(Window(bits, pos, word), 8);
  }

  /** The 48 bits that begin at bit `k` of the register's first byte. */
  lemma MagicField(bits: seq<bit>, pos: nat, k: nat)
    requires k < 8
    ensures Shr(Value(Window(bits, pos, 64)), 16 - k) % Pow2(48) == Value(Window(bits, pos + k, 48))
    ensures Shr(Value(Window(bits, pos, 64)), 56) == Value(Window(bits, pos, 8)) < 256
  {
    hide ToBits;
    Pow2Small();
    hide Pow2;
    var w := Window(bits, pos, 64);
    var a, m, c := w[..k], w[k..k + 48], w[k + 48..];
    assert w == a + m + c;
    TailField(a, m, c);
    assert m == Window(bits, pos + k, 48);
    ValueSplit(w, 8);
    WindowPrefix(bits, pos, 64, 8);
  }

  lemma OccursByWindow(bits: seq<bit>, pos: nat)
    ensures Occurs(bits, pos) <==> pos + 48 <= |bits| && Value(Window(bits, pos, 48)) == BLOCK_MAGIC
  {
    if pos + 48 <= |bits| { WindowInside(bits, pos, 48); }
  }

  // ----- scanning -----

  function TrailingZeros(mask: bv8, k: nat): (r: nat)
    requires mask != 0 && k < 8 && mask >> k != 0
    ensures k <= r < 8 && BitSet(mask, r) && forall j :: k <= j < r ==> !BitSet(mask, j)
    decreases 8 - k
  {
    if (mask >> k) & 1 == 1 then k else
      assert k < 7 && mask >> (k + 1) != 0;
      TrailingZeros(mask, k + 1)
  }

  lemma NoBits(j: nat)
    requires j < 8
    ensures !BitSet(0, j)
  {
  }

  lemma ClearLowestAt(mask: bv8, r: nat, j: nat)
    requires r < 8 && j < 8 && BitSet(mask, r) && mask << (8 - r) == 0
    ensures BitSet(mask & (mask - 1), j) <==> BitSet(mask, j) && j != r
  {
    if r < 4 {
      if r == 0 { assert mask & 1 == 1; }
      else if r == 1 { assert mask & 3 == 2; }
      else if r == 2 { assert mask & 7 == 4; }
      else { assert mask & 15 == 8; }
    } else {
      if r == 4 { assert mask & 31 == 16; }
      else if r == 5 { assert mask & 63 == 32; }
      else if r == 6 { assert mask & 127 == 64; }
      else { assert mask == 128; }
    }
  }

  /** No magic begins at the bits that the filter passes over. */
  lemma {:induction false} SkipMisses(bits: seq<bit>, at: nat, b: byte, j: nat, k: nat)
    requires j <= k <= 8 && b == Value(Window(bits, at, 8))
    requires forall i :: j <= i < k ==> !PrefixHit(b, i)
    ensures Matches(bits, at, at + k) == Matches(bits, at, at + j)
    decreases k
  {
    if j < k {
      SkipMisses(bits, at, b, j, k - 1);
      OccursByWindow(bits, at + k - 1);
      if Occurs(bits, at + k - 1) { PrefixFindsAll(bits, at, k - 1); }
    }
  }

  ghost predicate HitsFrom(mask: bv8, b: byte, next: nat) {
    forall j: nat :: j < 8 ==> (BitSet(mask, j) <==> next <= j && PrefixHit(b, j))
  }

  /** The prefix table for all bytes. */
  method BuildPrefix() returns (table: seq<bv8>)
    ensures |table| == 256 && forall b: byte :: HitsFrom(table[b], b, 0)
  {
    table := [];
    while |table| < 256
      invariant |table| <= 256 && forall b: byte :: b < |table| ==> HitsFrom(table[b], b, 0)
      decreases 256 - |table|
    {
      var mask := PrefixEntry(|table|);
      assert HitsFrom(mask, |table|, 0);
      table := table + [mask];
    }
  }

  lemma LowestHit(mask: bv8, b: byte, next: nat)
    requires mask != 0 && HitsFrom(mask, b, next)
    ensures mask >> 0 != 0
    ensures var k := TrailingZeros(mask, 0);
      next <= k && PrefixHit(b, k) && (forall j :: next <= j < k ==> !PrefixHit(b, j))
        && HitsFrom(mask & (mask - 1), b, k + 1)
  {
    assert mask >> 0 == mask;
    var k := TrailingZeros(mask, 0);
    LowBitsClear(mask, k);
    forall j: nat | j < 8 ensures BitSet(mask & (mask - 1), j) <==> k + 1 <= j && PrefixHit(b, j) {
      ClearLowestAt(mask, k, j);
    }
  }

  lemma LowBitsClear(mask: bv8, k: nat)
    requires k < 8 && forall j :: 0 <= j < k ==> !BitSet(mask, j)
    ensures mask << (8 - k) == 0
  {
    assert (k > 0 ==> !BitSet(mask, 0)) && (k > 1 ==> !BitSet(mask, 1)) && (k > 2 ==> !BitSet(mask, 2))
      && (k > 3 ==> !BitSet(mask, 3));
    assert (k > 4 ==> !BitSet(mask, 4)) && (k > 5 ==> !BitSet(mask, 5)) && (k > 6 ==> !BitSet(mask, 6));
    if k == 0 { assert mask << 8 == 0; }
    else if k == 1 { assert mask << 7 == 0; }
    else if k == 2 { assert mask << 6 == 0; }
    else if k == 3 { assert mask << 5 == 0; }
    else if k == 4 { assert mask << 4 == 0; }
    else if k == 5 { assert mask << 3 == 0; }
    else if k == 6 { assert mask << 2 == 0; } else { assert mask << 1 == 0; }
  }

  lemma NoMoreHits(b: byte, next: nat)
    requires HitsFrom(0, b, next)
    ensures forall j :: next <= j < 8 ==> !PrefixHit(b, j)
  {
    forall j | next <= j < 8 ensures !PrefixHit(b, j) { NoBits(j); }
  }

  /** All matches that begin inside byte `i`, from the register holding bytes `i` to `i + 7`. */
  method ScanByte(table: seq<bv8>, w: nat, i: nat, totalBits: nat, out0: seq<nat>, ghost bits: seq<bit>)
    returns (out: seq<nat>)
    requires |table| == 256 && (forall b: byte :: HitsFrom(table[b], b, 0))
    requires w == Value(Window(bits, 8 * i, 64)) && totalBits == |bits|
    ensures out == out0 + Matches(bits, 8 * i, 8 * i + 8)
  {
    hide Value, ToBits, Pow2, HitsFrom, Matches, Occurs, PrefixHit;
    out := out0;
    MagicField(bits, 8 * i, 0);
    ghost var b: byte := Value(Window(bits, 8 * i, 8));
    var mask := table[Shr(w, 56)];
    ghost var next := 0;
    NoMatches(bits, 8 * i);
    assert out0 + [] == out0;
    while mask != 0
      invariant next <= 8 && HitsFrom(mask, b, next) && out == out0 + Matches(bits, 8 * i, 8 * i + next)
      decreases 8 - next, if mask != 0 then 1 else 0
    {
      LowestHit(mask, b, next);
      var k := TrailingZeros(mask, 0);
      SkipMisses(bits, 8 * i, b, next, k);
      mask := mask & (mask - 1);
      MagicField(bits, 8 * i, k);
      OccursByWindow(bits, 8 * i + k);
      MatchHere(bits, 8 * i, 8 * i + k);
      if Shr(w, 16 - k) % Pow2(48) == BLOCK_MAGIC {
        var bit := i * 8 + k;
        if bit + 48 <= totalBits {
          out := out + [bit];
        }
      }
      next := k + 1;
    }
    NoMoreHits(b, next);
    SkipMisses(bits, 8 * i, b, next, 8);
  }

  lemma NoMatches(bits: seq<bit>, lo: nat)
    ensures Matches(bits, lo, lo) == []
  {
  }

  lemma MatchHere(bits: seq<bit>, lo: nat, pos: nat)
    requires lo <= pos
    ensures Matches(bits, lo, pos + 1) == Matches(bits, lo, pos) + if Occurs(bits, pos) then [pos] else []
  {
  }

  /** Append every match that begins in bytes `start` to `end - 1`; the register looks past `end`. */
  method ScanRange(input: seq<byte>, start: nat, end: nat, out0: seq<nat>) returns (out: seq<nat>)
    requires start <= end
    ensures out == out0 + Matches(BytesToBits(input), 8 * start, 8 * end)
  {
    hide Value, ToBits, BytesToBits, Matches, HitsFrom, Pow2;
    ghost var bits := BytesToBits(input);
    var table := BuildPrefix();
    out := out0;
    var w: nat := Prime(input, start);
    var i := start;
    NoMatches(bits, 8 * start);
    assert out0 + [] == out0;
    while i < end
      invariant start <= i <= end && w % Pow2(56) == Value(Window(bits, 8 * i, 56))
      invariant out == out0 + Matches(bits, 8 * start, 8 * i)
    {
      var b := ByteAt(input, i + 7);
      var grown: nat := w * 256 + b;
      Roll(bits, 8 * i, w, b, grown);
      w := grown % U64;
      ghost var before := out;
      out := ScanByte(table, w, i, 8 * |input|, out, bits);
      MatchesSplit(bits, 8 * start, 8 * i, 8 * i + 8);
      assert out0 + Matches(bits, 8 * start, 8 * i) + Matches(bits, 8 * i, 8 * i + 8)
          == out0 + (Matches(bits, 8 * start, 8 * i) + Matches(bits, 8 * i, 8 * i + 8));
      i := i + 1;
    }
  }

  /** Prime the register with the seven bytes from `start`. */
  method Prime(input: seq<byte>, start: nat) returns (w: nat)
    ensures w % Pow2(56) == Value(Window(BytesToBits(input), 8 * start, 56))
  {
    hide Value, ToBits, BytesToBits;
    ghost var bits := BytesToBits(input);
    w := 0;
    var j := start;
    WindowEmpty(bits, 8 * start);
    while j < start + 7
      invariant start <= j <= start + 7 && w == Value(Window(bits, 8 * start, 8 * (j - start)))
    {
      var b := ByteAt(input, j);
      WindowGrows(bits, 8 * start, 8 * (j - start));
      w := w * 256 + b;
      j := j + 1;
    }
    var n := 56;
    SmallMod(w, n);
  }

  lemma WindowEmpty(bits: seq<bit>, pos: nat)
    ensures Value(Window(bits, pos, 0)) == 0
  {
  }

  lemma SmallMod(w: nat, n: nat)
    requires w < Pow2(n)
    ensures w % Pow2(n) == w
  {
    DivModUnique(w, Pow2(n), 0, w);
  }

  lemma {:induction false} TooShort(bits: seq<bit>, lo: nat, hi: nat)
    requires |bits| < 48
    ensures Matches(bits, lo, hi) == []
    decreases hi
  {
    if hi > lo { TooShort(bits, lo, hi - 1); }
  }

  /** Every candidate offset in the input, ascending, whatever the chunk size. */
  method ScanCandidates(input: seq<byte>, chunk: nat) returns (out: seq<nat>)
    requires chunk > 0
    ensures out == Matches(BytesToBits(input), 0, 8 * |input|)
  {
    hide BytesToBits, Matches;
    ghost var bits := BytesToBits(input);
    if |input| < 6 {
      TooShort(bits, 0, 8 * |input|);
      return [];
    }
    if |input| <= chunk {
      out := ScanRange(input, 0, |input|, []);
      assert [] + Matches(bits, 0, 8 * |input|) == Matches(bits, 0, 8 * |input|);
      return;
    }
    out := [];
    var start := 0;
    NoMatches(bits, 0);
    while start < |input|
      invariant start <= |input| && out == Matches(bits, 0, 8 * start)
      decreases |input| - start
    {
      var end := if start + chunk < |input| then start + chunk else |input|;
      var part := ScanRange(input, start, end, []);
      assert [] + Matches(bits, 8 * start, 8 * end) == Matches(bits, 8 * start, 8 * end);
      MatchesSplit(bits, 0, 8 * start, 8 * end);
      out := out + part;
      start := end;
    }
  }
}
