/** Bytes, bits and fixed-width words.

    A byte slice is viewed as the sequence of its bits, most significant first.
    A machine word is an `int` whose width is written out where it matters: shifting
    left by k is multiplication by `Pow2(k)` modulo the word, shifting right is division,
    masking to the low k bits is `% Pow2(k)`.
 */
module Bits {
  type bit = x: int | 0 <= x < 2
  type byte = x: int | 0 <= x < 256

  const U16: int := 0x1_0000
  const U32: int := 0x1_0000_0000
  const U64: int := 0x1_0000_0000_0000_0000

  function Pow2(n: nat): (p: nat)
    ensures p >= 1
  {
    if n == 0 then 1 else 2 * Pow2(n - 1)
  }

  /** The number a bit string denotes, most significant bit first. */
  function Value(s: seq<bit>): (v: nat)
    ensures v < Pow2(|s|)
  {
    if s == [] then 0 else 2 * Value(s[..|s| - 1]) + s[|s| - 1]
  }

  /** The low `n` bits of `v`, most significant first. */
  function ToBits(v: nat, n: nat): (s: seq<bit>)
    ensures |s| == n
    decreases n, v
  {
    if n == 0 then [] else ToBits(v / 2, n - 1) + [v % 2]
  }

  function BytesToBits(data: seq<byte>): (s: seq<bit>)
    ensures |s| == 8 * |data|
  {
    if data == [] then [] else BytesToBits(data[..|data| - 1]) + ToBits(data[|data| - 1], 8)
  }

  function Zeros(n: nat): (s: seq<bit>)
    ensures |s| == n
    ensures forall i :: 0 <= i < n ==> s[i] == 0
  {
    seq(n, _ => 0)
  }

  /** The `n` bits of `s` from position `pos`, with zero bits standing in past the end. */
  function Window(s: seq<bit>, pos: nat, n: nat): (w: seq<bit>)
    ensures |w| == n
    ensures forall i :: 0 <= i < n ==> w[i] == if pos + i < |s| then s[pos + i] else 0
  {
    seq(n, i requires 0 <= i => if pos + i < |s| then s[pos + i] else 0)
  }

  /** `v >> k`. */
  function Shr(v: nat, k: nat): (r: nat)
    ensures r == v / Pow2(k)
  {
    DivNonNegative(v, Pow2(k));
    v / Pow2(k)
  }

  // ----- powers of two -----

  lemma {:induction false} Pow2Add(a: nat, b: nat)
    ensures Pow2(a + b) == Pow2(a) * Pow2(b)
  {
    if a != 0 {
      Pow2Add(a - 1, b);
      assert Pow2(a + b) == 2 * Pow2(a - 1 + b);
      MulAssoc(2, Pow2(a - 1), Pow2(b));
    }
  }

  lemma {:induction false} Pow2Mono(a: nat, b: nat)
    requires a <= b
    ensures Pow2(a) <= Pow2(b)
    ensures a < b ==> Pow2(a) < Pow2(b)
    decreases b
  {
    if a < b { Pow2Mono(a, b - 1); }
  }

  lemma Pow2Next(k: nat)
    ensures Pow2(k + 1) == 2 * Pow2(k)
  {
  }

  lemma MulAssoc(a: int, b: int, c: int)
    ensures a * (b * c) == (a * b) * c
  {
  }

  lemma MulMono(a: int, b: int, c: int)
    requires a <= b && 0 <= c
    ensures a * c <= b * c
  {
    assert (b - a) * c >= 0;
  }

  lemma Pow2Small()
    ensures Pow2(0) == 1 && Pow2(1) == 2 && Pow2(2) == 4 && Pow2(3) == 8 && Pow2(4) == 16
    ensures Pow2(5) == 32 && Pow2(6) == 64 && Pow2(7) == 128 && Pow2(8) == 256
    ensures Pow2(10) == 1024
  {
    assert Pow2(4) == 16;
  }

  /** The word widths of the format; `n` stands for the exponent so that no power is computed by unrolling. */
  lemma Pow2Words(n: nat)
    requires n in {8, 15, 16, 24, 32, 48, 64}
    ensures n == 8 ==> Pow2(n) == 256
    ensures n == 15 ==> Pow2(n) == 32768
    ensures n == 16 ==> Pow2(n) == U16
    ensures n == 24 ==> Pow2(n) == 0x100_0000
    ensures n == 32 ==> Pow2(n) == U32
    ensures n == 48 ==> Pow2(n) == 0x1_0000_0000_0000
    ensures n == 64 ==> Pow2(n) == U64
  {
    Pow2Small();
    var eight := 8;
    assert Pow2(eight) == 256;
    if n == 15 {
      Pow2Add(eight, 7);
    } else if n != 8 {
      Pow2Add(eight, eight);
      var sixteen := 16;
      assert Pow2(sixteen) == U16;
      if n == 24 {
        Pow2Add(sixteen, eight);
      } else if n != 16 {
        Pow2Add(sixteen, sixteen);
        if n == 48 {
          Pow2Add(32, sixteen);
        } else if n == 64 {
          Pow2Add(32, 32);
        }
      }
    }
  }

  lemma DivNonNegative(x: nat, d: int)
    requires d > 0
    ensures 0 <= x / d
  {
    var q := x / d;
    if q < 0 { MulMono(q, -1, d); }
  }

  /** Division with remainder is unique. */
  lemma DivModUnique(x: int, d: int, q: int, r: int)
    requires d > 0 && x == q * d + r && 0 <= r < d
    ensures x / d == q && x % d == r
  {
    var q', r' := x / d, x % d;
    assert x == q' * d + r' && 0 <= r' < d;
    if q' > q {
      MulMono(q + 1, q', d);
    } else if q' < q {
      MulMono(q' + 1, q, d);
    }
  }

  /** One division by `c * p` against two divisions, first by `p` and then by `c`. */
  lemma DivModSplit(x: int, c: int, p: int)
    requires c > 0 && p > 0
    ensures c * p > 0
    ensures x / (c * p) == (x / p) / c
    ensures x % (c * p) == ((x / p) % c) * p + x % p
    ensures (x % (c * p)) / p == (x / p) % c
    ensures (x % (c * p)) % p == x % p
  {
    var y, q, r := x / p, (x / p) / c, (x / p) % c;
    MulMono(1, c, p);
    MulMono(0, r, p);
    MulMono(r, c - 1, p);
    assert y * p == (q * c + r) * p == (q * c) * p + r * p;
    MulAssoc(q, c, p);
    assert (c - 1) * p == c * p - p;
    DivModUnique(x, c * p, q, r * p + x % p);
    DivModUnique(r * p + x % p, p, r, x % p);
  }

  lemma ModMod(x: int, a: nat, b: nat)
    requires a <= b
    ensures (x % Pow2(b)) % Pow2(a) == x % Pow2(a)
  {
    Pow2Add(b - a, a);
    DivModSplit(x, Pow2(b - a), Pow2(a));
  }

  lemma DivDiv(x: int, a: nat, b: nat)
    ensures (x / Pow2(a)) / Pow2(b) == x / Pow2(a + b)
  {
    Pow2Add(b, a);
    DivModSplit(x, Pow2(b), Pow2(a));
  }

  // ----- value of a bit string -----

  lemma {:induction false} ValueAppend(a: seq<bit>, b: seq<bit>)
    ensures Value(a + b) == Value(a) * Pow2(|b|) + Value(b)
    decreases |b|
  {
    if b == [] {
      assert a + b == a;
    } else {
      var b' := b[..|b| - 1];
      assert (a + b)[..|a + b| - 1] == a + b';
      ValueAppend(a, b');
      MulAssoc(Value(a), Pow2(|b'|), 2);
      assert Value(a) * Pow2(|b|) == 2 * (Value(a) * Pow2(|b'|));
    }
  }

  /** Splitting a word: the high part is a quotient, the low part a remainder. */
  lemma ValueSplit(s: seq<bit>, k: nat)
    requires k <= |s|
    ensures Value(s[..k]) == Value(s) / Pow2(|s| - k)
    ensures Value(s[k..]) == Value(s) % Pow2(|s| - k)
  {
    assert s == s[..k] + s[k..];
    ValueAppend(s[..k], s[k..]);
    DivModUnique(Value(s), Pow2(|s| - k), Value(s[..k]), Value(s[k..]));
  }

  lemma ValueLast(s: seq<bit>)
    requires s != []
    ensures Value(s) == 2 * Value(s[..|s| - 1]) + s[|s| - 1]
  {
  }

  lemma OddBit(v: nat, b: bit)
    ensures (2 * v + b) % 2 == b
  {
  }

  lemma LastBit(s: seq<bit>)
    requires s != []
    ensures Value(s) % 2 == s[|s| - 1]
  {
    hide Value, Pow2;
    ValueLast(s);
    OddBit(Value(s[..|s| - 1]), s[|s| - 1]);
  }

  /** Bit `i` of a word, counted from the top. */
  lemma BitAt(s: seq<bit>, i: nat)
    requires i < |s|
    ensures Shr(Value(s), |s| - 1 - i) % 2 == s[i]
  {
    hide Value, Pow2;
    ValueSplit(s, i + 1);
    LastBit(s[..i + 1]);
  }

  lemma {:induction false} ToBitsValue(v: nat, n: nat)
    ensures Value(ToBits(v, n)) == v % Pow2(n)
  {
    if n != 0 {
      ToBitsValue(v / 2, n - 1);
      assert ToBits(v, n)[..n - 1] == ToBits(v / 2, n - 1);
      DivModSplit(v, Pow2(n - 1), 2);
    }
  }

  lemma {:induction false} ValueToBits(s: seq<bit>)
    ensures ToBits(Value(s), |s|) == s
    decreases |s|
  {
    if s != [] {
      ValueToBits(s[..|s| - 1]);
      assert Value(s) / 2 == Value(s[..|s| - 1]);
    }
  }

  lemma ValueInjective(a: seq<bit>, b: seq<bit>)
    requires |a| == |b| && Value(a) == Value(b)
    ensures a == b
  {
    ValueToBits(a);
    ValueToBits(b);
  }

  lemma {:induction false} ValueZeros(n: nat)
    ensures Value(Zeros(n)) == 0
  {
    if n != 0 {
      ValueZeros(n - 1);
      assert Zeros(n)[..n - 1] == Zeros(n - 1);
    }
  }

  /** Only the low `n` bits of a value are kept, whatever stands above them. */
  lemma ToBitsMod(v: nat, n: nat)
    ensures ToBits(v % Pow2(n), n) == ToBits(v, n)
  {
    ToBitsValue(v, n);
    ToBitsValue(v % Pow2(n), n);
    ModMod(v, n, n);
    ValueInjective(ToBits(v % Pow2(n), n), ToBits(v, n));
  }

  lemma {:induction false} ToBitsSplit(v: nat, n: nat, k: nat)
    requires k <= n
    ensures ToBits(v, n) == ToBits(Shr(v, k), n - k) + ToBits(v, k)
  {
    if k != 0 {
      ToBitsSplit(v / 2, n - 1, k - 1);
      DivDiv(v, 1, k - 1);
      assert Pow2(1) == 2;
    }
  }

  // ----- bytes as bits -----

  lemma {:induction false} BytesToBitsAppend(a: seq<byte>, b: seq<byte>)
    ensures BytesToBits(a + b) == BytesToBits(a) + BytesToBits(b)
    decreases |b|
  {
    hide ToBits;
    if b == [] {
      assert a + b == a;
    } else {
      assert (a + b)[..|a + b| - 1] == a + b[..|b| - 1];
      BytesToBitsAppend(a, b[..|b| - 1]);
    }
  }

  lemma BytesToBitsOne(b: byte)
    ensures BytesToBits([b]) == ToBits(b, 8)
  {
    assert [b][..0] == [];
    assert BytesToBits([]) == [];
  }

  lemma Middle<T>(a: seq<T>, b: seq<T>, c: seq<T>)
    ensures (a + b + c)[|a|..|a| + |b|] == b
  {
  }

  lemma ThreeParts<T>(s: seq<T>, i: nat, j: nat)
    requires i <= j <= |s|
    ensures s[..i] + s[i..j] + s[j..] == s
  {
  }

  lemma BytesToBitsMiddle(data: seq<byte>, a: seq<byte>, b: seq<byte>, c: seq<byte>)
    requires data == a + b + c
    ensures BytesToBits(data) == BytesToBits(a) + BytesToBits(b) + BytesToBits(c)
  {
    BytesToBitsAppend(a + b, c);
    BytesToBitsAppend(a, b);
  }

  lemma BytesToBitsSlice(data: seq<byte>, i: nat, j: nat)
    requires i <= j <= |data|
    ensures BytesToBits(data)[8 * i..8 * j] == BytesToBits(data[i..j])
  {
    ThreeParts(data, i, j);
    var a, b, c := data[..i], data[i..j], data[j..];
    BytesToBitsMiddle(data, a, b, c);
    Middle(BytesToBits(a), BytesToBits(b), BytesToBits(c));
  }

  lemma OneInTheMiddle<T>(s: seq<T>, i: nat)
    requires i < |s|
    ensures s[..i] + [s[i]] + s[i + 1..] == s
  {
  }

  lemma BytesToBitsAt(data: seq<byte>, i: nat)
    requires i < |data|
    ensures BytesToBits(data)[8 * i..8 * i + 8] == ToBits(data[i], 8)
  {
    OneInTheMiddle(data, i);
    var a, b, c := data[..i], [data[i]], data[i + 1..];
    BytesToBitsMiddle(data, a, b, c);
    BytesToBitsOne(data[i]);
    Middle(BytesToBits(a), BytesToBits(b), BytesToBits(c));
  }

  lemma {:induction false} BytesToBitsInjective(a: seq<byte>, b: seq<byte>)
    requires BytesToBits(a) == BytesToBits(b)
    ensures a == b
  {
    assert |a| == |b|;
    forall i | 0 <= i < |a| ensures a[i] == b[i] {
      BytesToBitsAt(a, i);
      BytesToBitsAt(b, i);
      ByteValue(a[i]);
      ByteValue(b[i]);
    }
  }

  lemma ByteValue(b: byte)
    ensures Value(ToBits(b, 8)) == b
  {
    ToBitsValue(b, 8);
    Pow2Small();
  }

  // ----- zero-padded windows -----

  lemma WindowInside(s: seq<bit>, pos: nat, n: nat)
    requires pos + n <= |s|
    ensures Window(s, pos, n) == s[pos..pos + n]
  {
  }

  lemma WindowPrefix(s: seq<bit>, pos: nat, n: nat, k: nat)
    requires k <= n
    ensures Window(s, pos, n)[..k] == Window(s, pos, k)
    ensures Window(s, pos, n)[k..] == Window(s, pos + k, n - k)
  {
  }
}
