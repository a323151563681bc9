/** Bit cursor and bit reservoir over a byte slice.

    Both read the same bit sequence: the cursor through an eight-byte word or, near the end,
    through the bytes that are left; the reservoir through a 64-bit buffer that is topped up a
    byte at a time and padded with zero bits past the end of the input.
 */
module BitReading {
  import opened Bits
  import opened Results

  // ----- what is read -----

  /** Read `n` bits off the front of `s`. */
  function ReadBits(s: seq<bit>, n: nat): (r: Parsed<nat>)
    ensures r.Done? ==> r.used == n <= |s| && r.value < Pow2(n)
  {
    if n > |s| then Fail(Truncated) else Done(Value(s[..n]), n)
  }

  /** A prefix that reads successfully reads the same when more bits follow. */
  lemma ReadBitsExtends(s: seq<bit>, t: seq<bit>, n: nat)
    requires ReadBits(s, n).Done?
    ensures ReadBits(s + t, n) == ReadBits(s, n)
  {
    assert (s + t)[..n] == s[..n];
  }

  lemma ReadBitsWritten(v: nat, n: nat, t: seq<bit>)
    requires v < Pow2(n)
    ensures ReadBits(ToBits(v, n) + t, n) == Done(v, n)
  {
    assert (ToBits(v, n) + t)[..n] == ToBits(v, n);
    ToBitsValue(v, n);
    DivModUnique(v, Pow2(n), 0, v);
  }

  // ----- words -----

  /** The number `bytes` denote, first byte most significant. */
  function BigEndian(bytes: seq<byte>): nat {
    if bytes == [] then 0 else 256 * BigEndian(bytes[..|bytes| - 1]) + bytes[|bytes| - 1]
  }

  lemma NoBytes()
    ensures BytesToBits([]) == [] && Value([]) == 0
  {
  }

  lemma {:induction false} BigEndianIsValue(bytes: seq<byte>)
    ensures BigEndian(bytes) == Value(BytesToBits(bytes))
  {
    hide Value, ToBits, Pow2;
    NoBytes();
    if bytes != [] {
      var n := |bytes| - 1;
      BigEndianIsValue(bytes[..n]);
      ValueAppend(BytesToBits(bytes[..n]), ToBits(bytes[n], 8));
      ByteValue(bytes[n]);
      Pow2Small();
    }
  }

  lemma SplitFour<T>(a: seq<T>, b: seq<T>, c: seq<T>, z: seq<T>)
    ensures (a + b + c + z)[|a|..] == b + (c + z)
    ensures (b + (c + z))[..|b|] == b
  {
  }

  lemma ShiftedValue(s: seq<bit>, n: nat)
    ensures Value(s + Zeros(n)) == Value(s) * Pow2(n)
  {
    ValueAppend(s, Zeros(n));
    ValueZeros(n);
  }

  lemma LowPart(s: seq<bit>, v: nat, k: nat, n: nat)
    requires v == Value(s) && n + k == |s|
    ensures v % Pow2(n) == Value(s[k..])
  {
    ValueSplit(s, k);
  }

  lemma HighPart(s: seq<bit>, v: nat, k: nat, n: nat)
    requires v == Value(s) && n + k == |s|
    ensures v / Pow2(n) == Value(s[..k])
  {
    ValueSplit(s, k);
  }

  /** Shift the bits before a field out at the top, then the bits after it out at the bottom. */
  lemma WordField(a: seq<bit>, b: seq<bit>, c: seq<bit>, m: nat, word: nat, v: nat)
    requires m == |a| + |c| && word == |b| + m && v == Value(a + b + c) * Pow2(|a|)
    ensures (v % Pow2(word)) / Pow2(m) == Value(b)
  {
    var z := Zeros(|a|);
    ShiftedValue(a + b + c, |a|);
    SplitFour(a, b, c, z);
    LowPart(a + b + c + z, v, |a|, word);
    HighPart(b + (c + z), v % Pow2(word), |b|, m);
  }

  /** The top `n` bits of what a 64-bit register keeps of `v`. */
  function TopOf(v: nat, n: nat): nat
    requires n <= 64
  {
    Shr(v % U64, 64 - n)
  }

  lemma WordShift(a: seq<bit>, b: seq<bit>, c: seq<bit>, v: nat)
    requires |a| + |b| + |c| == 64 && v == Value(a + b + c) * Pow2(|a|)
    ensures TopOf(v, |b|) == Value(b)
  {
    var word := 64;
    Pow2Words(word);
    WordField(a, b, c, |a| + |c|, word, v);
  }

  /** Shift the bits after a field out at the bottom, then mask. */
  lemma TailField(a: seq<bit>, b: seq<bit>, c: seq<bit>)
    ensures Shr(Value(a + b + c), |c|) % Pow2(|b|) == Value(b)
  {
    ValueAppend(a + b, c);
    ValueAppend(a, b);
    DivModUnique(Value(a + b + c), Pow2(|c|), Value(a + b), Value(c));
    DivModUnique(Value(a + b), Pow2(|b|), Value(a), Value(b));
  }

  /** A field of `s` inside the byte-aligned stretch from `8 * i` to `8 * j`. */
  lemma FieldParts(s: seq<bit>, lo: nat, p: nat, n: nat, hi: nat)
    requires lo <= p <= p + n <= hi <= |s|
    ensures s[lo..hi] == s[lo..p] + s[p..p + n] + s[p + n..hi]
  {
  }

  lemma Pow2Five(n: nat)
    requires n == 40
    ensures Pow2(n) == 0x100_0000_0000
  {
    var a, b := 32, 8;
    Pow2Words(a);
    Pow2Words(b);
    Pow2Add(a, b);
  }

  class BitCursor {
    const data: seq<byte>
    var bit: nat

    constructor (data: seq<byte>, bit: nat)
      ensures this.data == data && this.bit == bit
    {
      this.data := data;
      this.bit := bit;
    }

    /** The bits not yet read. */
    ghost function Rest(): seq<Bits.bit>
      reads this
      requires bit <= 8 * |data|
    {
      BytesToBits(data)[bit..]
    }

    /** The word path: eight bytes as one number, shifted until only the bits asked for are left. */
    function FromWord(i: nat, off: nat, n: nat): nat
      requires i + 8 <= |data| && n <= 64
    {
      TopOf(BigEndian(data[i..i + 8]) * Pow2(off), n)
    }

    lemma WordParts(i: nat, p: nat, n: nat)
      requires i + 8 <= |data| && 8 * i <= p && p + n <= 8 * (i + 8)
      ensures var s := BytesToBits(data);
        BigEndian(data[i..i + 8]) == Value(s[8 * i..p] + s[p..p + n] + s[p + n..8 * (i + 8)])
    {
      BytesToBitsSlice(data, i, i + 8);
      BigEndianIsValue(data[i..i + 8]);
      FieldParts(BytesToBits(data), 8 * i, p, n, 8 * (i + 8));
    }

    lemma WordPath(i: nat, off: nat, n: nat)
      requires i + 8 <= |data| && off < 8 && n <= 32
      ensures FromWord(i, off, n) == Value(BytesToBits(data)[8 * i + off..8 * i + off + n])
    {
      hide BytesToBits, Value, Pow2, BigEndian, TopOf;
      var s, p := BytesToBits(data), 8 * i + off;
      WordParts(i, p, n);
      var a, b, c := s[8 * i..p], s[p..p + n], s[p + n..8 * (i + 8)];
      var word := BigEndian(data[i..i + 8]);
      var v: nat := word * Pow2(off);
      assert |a| == off;
      WordShift(a, b, c, v);
    }

    /** The tail path: the bytes the field spans, shifted and masked. */
    function FromTail(i: nat, stop: nat, off: nat, n: nat): nat
      requires i <= stop <= |data| && off + n <= 8 * (stop - i)
    {
      Shr(BigEndian(data[i..stop]), 8 * (stop - i) - off - n) % Pow2(n)
    }

    lemma TailPath(i: nat, stop: nat, off: nat, n: nat)
      requires i <= stop <= |data| && off + n <= 8 * (stop - i)
      ensures FromTail(i, stop, off, n) == Value(BytesToBits(data)[8 * i + off..8 * i + off + n])
    {
      var s, p := BytesToBits(data), 8 * i + off;
      BytesToBitsSlice(data, i, stop);
      BigEndianIsValue(data[i..stop]);
      FieldParts(s, 8 * i, p, n, 8 * stop);
      TailField(s[8 * i..p], s[p..p + n], s[p + n..8 * stop]);
    }

    /** At most five bytes span a field, so the tail path's word and shifts are in range. */
    lemma TailFits(i: nat, stop: nat, off: nat, n: nat)
      requires i <= stop <= |data| && off < 8 && 1 <= n <= 32 && stop == (8 * i + off + n + 7) / 8
      ensures off + n <= 8 * (stop - i) < off + n + 8
      ensures stop - i <= 5 && BigEndian(data[i..stop]) < 0x100_0000_0000
    {
      BigEndianIsValue(data[i..stop]);
      var m, five := 8 * (stop - i), 40;
      Pow2Mono(m, five);
      Pow2Five(five);
    }

    /** Read `n` bits; both paths return the same window of the bit sequence. */
    method Read(n: nat) returns (r: Result<nat>)
      requires bit <= 8 * |data| && 1 <= n <= 32
      modifies this
      ensures bit <= 8 * |data|
      ensures match ReadBits(old(Rest()), n)
              case Done(v, used) => r == Ok(v) && bit == old(bit) + used
              case Fail(e) => r == Err(e) && bit == old(bit)
    {
      var end := bit + n;
      if end > 8 * |data| {
        return Err(Truncated);
      }
      var i, off := bit / 8, bit % 8;
      assert Rest()[..n] == BytesToBits(data)[bit..end];
      var v;
      if i + 8 <= |data| {
        WordPath(i, off, n);
        v := FromWord(i, off, n);
      } else {
        var stop := (end + 7) / 8;
        TailFits(i, stop, off, n);
        TailPath(i, stop, off, n);
        v := FromTail(i, stop, off, n);
      }
      bit := end;
      r := Ok(v);
    }

    method ReadBit() returns (r: Result<nat>)
      requires bit <= 8 * |data|
      modifies this
      ensures bit <= 8 * |data|
      ensures match ReadBits(old(Rest()), 1)
              case Done(v, used) => r == Ok(v) && bit == old(bit) + used
              case Fail(e) => r == Err(e) && bit == old(bit)
    {
      var i := bit / 8;
      if i >= |data| {
        return Err(Truncated);
      }
      assert Rest()[..1] == BytesToBits(data)[bit..bit + 1];
      TailPath(i, i + 1, bit % 8, 1);
      assert data[i..i + 1] == [data[i]];
      assert BigEndian([data[i]]) == data[i] by { assert [data[i]][..0] == []; }
      var v := Shr(data[i], 7 - bit % 8) % 2;
      Pow2Small();
      bit := bit + 1;
      r := Ok(v);
    }

    /** The 48-bit magic, in two reads. */
    method ReadMagic() returns (r: Result<nat>)
      requires bit <= 8 * |data|
      modifies this
      ensures bit <= 8 * |data|
      ensures match ReadBits(old(Rest()), 48)
              case Done(v, used) => r == Ok(v) && bit == old(bit) + used
              case Fail(e) => r == Err(e)
    {
      ghost var rest := Rest();
      var half := 24;
      var hi := Read(half);
      if hi.Err? { return hi; }
      assert Rest() == rest[half..];
      var lo := Read(half);
      if lo.Err? { return lo; }
      assert rest[..48] == rest[..half] + rest[half..][..half];
      ValueAppend(rest[..half], rest[half..][..half]);
      Pow2Words(half);
      r := Ok(hi.value * 0x100_0000 + lo.value);
    }

    /** Skip to the next byte boundary. */
    method AlignToByte()
      requires bit <= 8 * |data|
      modifies this
      ensures bit == (old(bit) + 7) / 8 * 8 <= 8 * |data|
    {
      bit := (bit + 7) / 8 * 8;
    }

    function BytesLeft(): nat
      reads this
      requires bit <= 8 * |data|
    {
      |data| - bit / 8
    }
  }

  // ----- the reservoir -----

  lemma WindowOfRest(s: seq<bit>, pos: nat, n: nat)
    requires pos <= |s|
    ensures Window(s, pos, n) == Window(s[pos..], 0, n)
  {
  }

  lemma LowBits(buf: nat, p: nat, p': nat, v: nat, x: nat)
    requires p > 0 && p' == p * 256 && buf % p == v && x < 256
    ensures (buf * 256 + x) % p' == v * 256 + x
  {
    var q := buf / p;
    assert buf == q * p + v;
    assert (q * p) * 256 == q * p' by { MulAssoc(q, p, 256); }
    DivModUnique(buf * 256 + x, p', q, v * 256 + x);
  }

  lemma ValueByte(w: seq<bit>, b: seq<bit>)
    requires |b| == 8
    ensures Value(w + b) == Value(w) * 256 + Value(b)
    ensures Value(b) < 256
  {
    ValueAppend(w, b);
    Pow2Small();
  }

  lemma Pow2Byte(n: nat)
    ensures Pow2(n + 8) == Pow2(n) * 256
  {
    Pow2Add(n, 8);
    Pow2Small();
  }

  /** One more byte, real or padding, at the bottom of the buffer. */
  lemma RefillStep(buf: nat, w: seq<bit>, b: seq<bit>, have: nat, buf': nat)
    requires have == |w| && |b| == 8
    requires buf % Pow2(have) == Value(w) && buf' == buf * 256 + Value(b)
    ensures buf' % Pow2(have + 8) == Value(w + b)
  {
    ValueByte(w, b);
    var p, p' := Pow2(have), Pow2(have + 8);
    Pow2Byte(have);
    LowBits(buf, p, p', Value(w), Value(b));
  }

  lemma PeekValue(buf: nat, w: seq<bit>, n: nat)
    requires n <= |w| && buf % Pow2(|w|) == Value(w)
    ensures Shr(buf, |w| - n) % Pow2(n) == Value(w[..n])
    ensures buf % Pow2(|w| - n) == Value(w[n..])
  {
    ValueSplit(w, n);
    Pow2Add(n, |w| - n);
    DivModSplit(buf, Pow2(n), Pow2(|w| - n));
  }

  lemma EmptyWindow(s: seq<bit>, pos: nat)
    ensures Value(Window(s, pos, 0)) == 0 && Pow2(0) == 1
  {
  }

  class BitReservoir {
    const data: seq<byte>
    var pos: nat
    var buf: nat
    var have: nat
    var next: nat

    /** The low `have` bits of the buffer are the bits from `pos` on. Until padding starts, they end at
        byte `next`; once it has started, `next` stays at the end of the data. */
    ghost predicate Valid()
      reads this
    {
      && buf < U64 && have <= 64 && next <= |data|
      && (pos + have == 8 * next || (next == |data| && pos + have >= 8 * next))
      && buf % Pow2(have) == Value(Window(BytesToBits(data), pos, have))
    }

    constructor (data: seq<byte>, bit: nat)
      requires bit <= 8 * |data|
      ensures this.data == data && Valid() && pos == bit && have == 64 - bit % 8
      ensures Unpadded() <==> bit / 8 + 8 <= |data|
    {
      hide Value, Pow2, Window, BytesToBits;
      this.data := data;
      pos := bit / 8 * 8;
      buf, have, next := 0, 0, bit / 8;
      new;
      EmptyWindow(BytesToBits(data), pos);
      Refill();
      ghost var w := Window(BytesToBits(data), pos, have);
      PeekValue(buf, w, bit % 8);
      WindowPrefix(BytesToBits(data), pos, have, bit % 8);
      have := have - bit % 8;
      pos := bit;
    }

    /** The byte the next refill step takes, real or padding, against the bit sequence. */
    lemma NextByte()
      requires Valid()
      ensures var b := Window(BytesToBits(data), pos + have, 8);
        Value(b) == if next < |data| then data[next] else 0
    {
      var bits := BytesToBits(data);
      if next < |data| {
        BytesToBitsAt(data, next);
        WindowInside(bits, 8 * next, 8);
        ByteValue(data[next]);
      } else {
        ValueZeros(8);
        assert Window(bits, pos + have, 8) == Zeros(8);
      }
    }

    /** The buffer after one refill step. */
    lemma OneMoreByte(x: nat, grown: nat)
      requires Valid() && have <= 56
      requires x == (if next < |data| then data[next] else 0) && grown == buf * 256 + x
      ensures (grown % U64) % Pow2(have + 8) == Value(Window(BytesToBits(data), pos, have + 8))
    {
      hide Value, Pow2, BytesToBits;
      var bits, have', word := BytesToBits(data), have + 8, 64;
      var w, b := Window(bits, pos, have), Window(bits, pos + have, 8);
      NextByte();
      WindowPrefix(bits, pos, have', have);
      assert Window(bits, pos, have') == w + b;
      RefillStep(buf, w, b, have, grown);
      Pow2Words(word);
      ModMod(grown, have', word);
    }

    /** The relation between the position, the next byte and the buffered bits that holds until padding starts. */
    predicate Unpadded()
      reads this
    {
      pos == 8 * next - have
    }

    /** Buffer `(64 - have) / 8` more bytes, zero ones once the data has run out. What was unpadded
        stays so exactly when there are that many. */
    method Refill()
      requires Valid()
      modifies this`buf, this`have, this`next
      ensures Valid() && have >= 57 && have == old(have) + 8 * ((64 - old(have)) / 8)
      ensures var wanted := old(next) + (64 - old(have)) / 8; next == if wanted <= |data| then wanted else |data|
      ensures Unpadded() <==> old(Unpadded()) && old(next) + (64 - old(have)) / 8 <= |data|
    {
      hide Value, Pow2, Window, BytesToBits;
      ghost var n: nat := 0;
      while have <= 56
        invariant Valid() && have == old(have) + 8 * n
        invariant next == if old(next) + n <= |data| then old(next) + n else |data|
        invariant n > 0 ==> have <= 64
        decreases 64 - have
      {
        n := n + 1;
        var x := if next < |data| then data[next] else 0;
        var grown: nat := buf * 256 + x;
        OneMoreByte(x, grown);
        if next < |data| {
          next := next + 1;
        }
        buf := grown % U64;
        have := have + 8;
      }
    }

    /** On four bytes, a bare stream header, the relation fails from the start: position 0 is not 32 - 64. */
    static method OpenShort() returns (r: BitReservoir)
      ensures fresh(r) && r.data == [0x42, 0x5A, 0x68, 0x39]
      ensures r.pos == 0 && r.next == 4 && r.have == 64 && !r.Unpadded()
    {
      r := new BitReservoir([0x42, 0x5A, 0x68, 0x39], 0);
    }

    /** The next `n` bits, zero bits standing in past the end, without consuming them. */
    method Peek(n: nat) returns (v: nat)
      requires Valid() && n <= have
      ensures v == Value(Window(BytesToBits(data), pos, n))
    {
      ghost var w := Window(BytesToBits(data), pos, have);
      PeekValue(buf, w, n);
      WindowPrefix(BytesToBits(data), pos, have, n);
      v := Shr(buf, have - n) % Pow2(n);
    }

    /** Consume `n` bits; an error exactly when they extend past the real input. */
    method Consume(n: nat) returns (ok: bool)
      requires Valid() && n <= have
      modifies this`pos, this`have
      ensures Valid() && pos == old(pos) + n && Unpadded() == old(Unpadded())
      ensures ok <==> pos <= 8 * |data|
    {
      ghost var w := Window(BytesToBits(data), pos, have);
      PeekValue(buf, w, n);
      WindowPrefix(BytesToBits(data), pos, have, n);
      pos := pos + n;
      have := have - n;
      ok := pos <= 8 * |data|;
    }
  }
}
