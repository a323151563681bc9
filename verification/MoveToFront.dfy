/** Move-to-front with zero-run digits (RLE2), as encoded and as decoded.

    Symbols 0 and 1 are the digits 1 and 2 of a bijective base-2 count of front-of-list bytes, least
    significant first; symbol `s` in 2..n is list index `s - 1`; symbol `n + 1` ends the block,
    where `n` is how many byte values occur.
 */
module MoveToFront {
  import opened Bits
  import opened Results

  /** Move entry `j` to the front. */
  function ToFront<T>(list: seq<T>, j: nat): (r: seq<T>)
    requires j < |list|
    ensures |r| == |list|
  {
    [list[j]] + list[..j] + list[j + 1..]
  }

  function Repeat(b: byte, n: nat): (r: seq<byte>)
    ensures |r| == n && forall i :: 0 <= i < n ==> r[i] == b
  {
    seq(n, _ => b)
  }

  // ----- which bytes occur -----

  /** The byte values below `n` that occur in `block`, ascending. */
  function UsedBelow(block: seq<byte>, n: nat): (r: seq<byte>)
    requires n <= 256
    ensures |r| <= n
    ensures forall x :: x in r <==> x in block && x < n
  {
    if n == 0 then [] else
      var last: byte := n - 1;
      UsedBelow(block, n - 1) + if last in block then [last] else []
  }

  function InUse(block: seq<byte>): (r: seq<byte>)
    ensures |r| <= 256 && forall x :: x in r <==> x in block
  {
    UsedBelow(block, 256)
  }

  /** The alphabet of a block: its byte values in ascending order, each once. */
  lemma InUseAscends(block: seq<byte>)
    ensures forall i, j :: 0 <= i < j < |InUse(block)| ==> InUse(block)[i] < InUse(block)[j]
  {
    UsedAscends(block, 256);
  }

  lemma {:induction false} UsedAscends(block: seq<byte>, n: nat)
    requires n <= 256
    ensures forall i, j :: 0 <= i < j < |UsedBelow(block, n)| ==> UsedBelow(block, n)[i] < UsedBelow(block, n)[j]
  {
    if n > 0 {
      UsedAscends(block, n - 1);
      var l := UsedBelow(block, n - 1);
      forall i | 0 <= i < |l| ensures l[i] < n - 1 { assert l[i] in l; }
    }
  }

  method FindInUse(block: seq<byte>) returns (r: seq<byte>)
    ensures r == InUse(block)
  {
    var seen := new bool[256](_ => false);
    var i := 0;
    while i < |block|
      invariant 0 <= i <= |block|
      invariant forall x: byte :: seen[x] <==> x in block[..i]
    {
      seen[block[i]] := true;
      assert block[..i + 1] == block[..i] + [block[i]];
      i := i + 1;
    }
    assert block[..i] == block;
    r := [];
    var b: nat := 0;
    while b < 256
      invariant b <= 256 && r == UsedBelow(block, b)
    {
      if seen[b] { r := r + [b]; }
      b := b + 1;
    }
  }

  // ----- encoding -----

  /** A count as bijective base-2 digits, 0 for one and 1 for two. */
  function RunDigits(n: nat): (d: seq<nat>)
    ensures |d| <= n
  {
    if n == 0 then []
    else if n % 2 == 1 then [0] + RunDigits((n - 1) / 2)
    else [1] + RunDigits((n - 2) / 2)
  }

  function IndexOf<T(==)>(list: seq<T>, b: T): (j: nat)
    requires b in list
    ensures j < |list| && list[j] == b && b !in list[..j]
  {
    if list[0] == b then 0
    else
      assert list == [list[0]] + list[1..];
      var j := IndexOf(list[1..], b);
      assert list[..j + 1] == [list[0]] + list[1..][..j];
      j + 1
  }

  lemma ToFrontKeeps<T>(list: seq<T>, j: nat, x: T)
    requires j < |list|
    ensures x in ToFront(list, j) <==> x in list
  {
    assert list == list[..j] + [list[j]] + list[j + 1..];
  }

  /** The symbols for the rest of a block, `zeros` front-of-list bytes pending. */
  function EncodeFrom(list: seq<byte>, zeros: nat, block: seq<byte>, eob: nat): (syms: seq<nat>)
    requires forall b :: b in block ==> b in list
    decreases |block|
  {
    if block == [] then RunDigits(zeros) + [eob]
    else
      var j := IndexOf(list, block[0]);
      if j == 0 then EncodeFrom(list, zeros + 1, block[1..], eob)
      else
        assert forall x :: x in ToFront(list, j) <==> x in list by {
          forall x ensures x in ToFront(list, j) <==> x in list { ToFrontKeeps(list, j, x); }
        }
        RunDigits(zeros) + [j + 1] + EncodeFrom(ToFront(list, j), 0, block[1..], eob)
  }

  function Encoded(block: seq<byte>): seq<nat> {
    EncodeFrom(InUse(block), 0, block, |InUse(block)| + 1)
  }

  method FlushZeroRun(syms0: seq<nat>, zeros: nat) returns (syms: seq<nat>)
    ensures syms == syms0 + RunDigits(zeros)
  {
    syms := syms0;
    var n := zeros;
    while n > 0
      invariant syms + RunDigits(n) == syms0 + RunDigits(zeros)
    {
      if n % 2 == 1 {
        assert syms + ([0] + RunDigits((n - 1) / 2)) == syms + [0] + RunDigits((n - 1) / 2);
        syms := syms + [0];
        n := (n - 1) / 2;
      } else {
        assert syms + ([1] + RunDigits((n - 2) / 2)) == syms + [1] + RunDigits((n - 2) / 2);
        syms := syms + [1];
        n := (n - 2) / 2;
      }
    }
  }

  method FindIndex<T(==)>(list: seq<T>, b: T) returns (j: nat)
    requires b in list
    ensures j == IndexOf(list, b)
  {
    j := 0;
    while list[j] != b
      invariant j < |list| && b in list[j..] && IndexOf(list, b) == j + IndexOf(list[j..], b)
      decreases |list| - j
    {
      assert list[j..] == [list[j]] + list[j + 1..];
      assert list[j..][1..] == list[j + 1..];
      j := j + 1;
    }
  }

  lemma Regroup(syms: seq<nat>, d: seq<nat>, x: nat, rest: seq<nat>)
    ensures syms + (d + [x] + rest) == syms + d + [x] + rest
  {
  }

  /** Move-to-front and zero-run encode a block. */
  method Encode(block: seq<byte>) returns (inUse: seq<byte>, syms: seq<nat>)
    ensures inUse == InUse(block) && syms == Encoded(block)
  {
    hide RunDigits, ToFront, InUse, IndexOf;
    inUse := FindInUse(block);
    syms := [];
    var list, zeros: nat, i, eob := inUse, 0, 0, |inUse| + 1;
    assert block[0..] == block;
    while i < |block|
      invariant 0 <= i <= |block| && forall x :: x in list <==> x in inUse
      invariant forall b :: b in block[i..] ==> b in list
      invariant syms + EncodeFrom(list, zeros, block[i..], eob) == Encoded(block)
    {
      assert block[i..][0] == block[i] && block[i..][1..] == block[i + 1..];
      var j := FindIndex(list, block[i]);
      if j == 0 {
        zeros := zeros + 1;
      } else {
        forall x ensures x in ToFront(list, j) <==> x in list { ToFrontKeeps(list, j, x); }
        Regroup(syms, RunDigits(zeros), j + 1, EncodeFrom(ToFront(list, j), 0, block[i + 1..], eob));
        syms := FlushZeroRun(syms, zeros);
        zeros := 0;
        list := ToFront(list, j);
        syms := syms + [j + 1];
      }
      i := i + 1;
    }
    syms := FlushZeroRun(syms, zeros);
    syms := syms + [eob];
  }

  /** At most one symbol a byte and the end mark, every one inside the alphabet. */
  lemma {:induction false} EncodeBounds(list: seq<byte>, zeros: nat, block: seq<byte>, eob: nat)
    requires (forall b :: b in block ==> b in list) && |list| < eob && eob >= 2
    ensures 1 <= |EncodeFrom(list, zeros, block, eob)| <= zeros + |block| + 1
    ensures forall k :: 0 <= k < |EncodeFrom(list, zeros, block, eob)| ==> EncodeFrom(list, zeros, block, eob)[k] <= eob
    decreases |block|
  {
    RunDigitsSmall(zeros);
    if block != [] {
      var j := IndexOf(list, block[0]);
      if j == 0 {
        EncodeBounds(list, zeros + 1, block[1..], eob);
      } else {
        forall x ensures x in ToFront(list, j) <==> x in list { ToFrontKeeps(list, j, x); }
        EncodeBounds(ToFront(list, j), 0, block[1..], eob);
      }
    }
  }

  lemma {:induction false} RunDigitsSmall(n: nat)
    ensures forall k :: 0 <= k < |RunDigits(n)| ==> RunDigits(n)[k] <= 1
  {
    if n > 0 {
      if n % 2 == 1 { RunDigitsSmall((n - 1) / 2); } else { RunDigitsSmall((n - 2) / 2); }
    }
  }

  // ----- decoding -----

  /** Between two symbols: the run read so far and its next digit's place, the list, the bytes out. */
  datatype Progress = Progress(run: nat, runBit: nat, list: seq<byte>, bytes: seq<byte>)

  datatype Outcome = More(next: Progress) | Stop(bytes: seq<byte>) | Reject(error: Error)

  ghost predicate Sound(p: Progress) {
    |p.list| == 256 && Pow2(p.runBit) - 1 <= p.run && (p.run == 0 ==> p.runBit == 0)
  }

  /** One symbol, with `n` byte values in use and at most `size` bytes allowed. */
  function Symbol(p: Progress, sym: nat, n: nat, size: nat): Outcome
    requires |p.list| == 256 && n <= 256
  {
    if sym <= 1 then
      var run := p.run + (sym + 1) * Pow2(p.runBit);
      if p.runBit + 1 >= 32 || run > size then Reject(BlockOverflow) else More(p.(run := run, runBit := p.runBit + 1))
    else if p.run > 0 && |p.bytes| + p.run > size then Reject(BlockOverflow)
    else
      var bytes := p.bytes + Repeat(p.list[0], p.run);
      if sym == n + 1 then Stop(bytes)
      else if sym - 1 >= n then Reject(InvalidBlock)
      else if |bytes| + 1 > size then Reject(BlockOverflow)
      else More(Progress(0, 0, ToFront(p.list, sym - 1), bytes + [p.list[sym - 1]]))
  }

  lemma SymbolSound(p: Progress, sym: nat, n: nat, size: nat)
    requires Sound(p) && n <= 256 && Symbol(p, sym, n, size).More?
    ensures Sound(Symbol(p, sym, n, size).next)
  {
    if sym <= 1 {
      MulMono(1, sym + 1, Pow2(p.runBit));
      assert Pow2(p.runBit + 1) == 2 * Pow2(p.runBit);
    }
  }

  /** The run counter's words: as long as symbols are accepted the shift stays below 32 and the run within the size,
      so the sum that is checked fits 33 bits. */
  lemma SymbolFitsWords(p: Progress, sym: nat, n: nat, size: nat)
    requires |p.list| == 256 && n <= 256 && p.runBit <= 31 && p.run <= size <= 900_000
    ensures sym <= 1 ==> p.run + (sym + 1) * Pow2(p.runBit) < 2 * U32
    ensures var o := Symbol(p, sym, n, size); o.More? ==> o.next.runBit <= 31 && o.next.run <= size
  {
    hide ToFront, Repeat;
    var top := 32;
    Pow2Words(top);
    Pow2Mono(p.runBit, 31);
    Pow2Next(31);
    if sym <= 1 { MulMono(sym + 1, 2, Pow2(p.runBit)); }
  }

  /** Feed a whole symbol stream, whose last symbol and no other must end the block. */
  function Decoded(p: Progress, syms: seq<nat>, n: nat, size: nat): Result<seq<byte>>
    requires |p.list| == 256 && n <= 256
    decreases |syms|
  {
    if syms == [] then Err(Truncated)
    else match Symbol(p, syms[0], n, size)
      case Reject(e) => Err(e)
      case Stop(bytes) => if |syms| == 1 then Ok(bytes) else Err(InvalidBlock)
      case More(next) => Decoded(next, syms[1..], n, size)
  }

  /** The decoder's list holds all 256 places; those past the bytes in use are zero. */
  function Padded(inUse: seq<byte>): (list: seq<byte>)
    requires |inUse| <= 256
    ensures |list| == 256
  {
    inUse + Repeat(0, 256 - |inUse|)
  }

  // ----- decoding what was encoded -----

  /** One digit, as long as the run stays within a legal size. */
  lemma DigitStep(p: Progress, syms: seq<nat>, run: nat, n: nat, size: nat)
    requires Sound(p) && n <= 256 && syms != [] && syms[0] <= 1
    requires run == p.run + (syms[0] + 1) * Pow2(p.runBit) <= size <= 900_000
    ensures var q := p.(run := run, runBit := p.runBit + 1);
      Sound(q) && Decoded(p, syms, n, size) == Decoded(q, syms[1..], n, size)
  {
    var w := Pow2(p.runBit);
    MulMono(1, syms[0] + 1, w);
    PlaceBound(p.runBit + 1, run, size);
    SymbolSound(p, syms[0], n, size);
  }

  lemma DigitFirst(n: nat, m: nat, d: nat)
    requires d <= 1 && n == 2 * m + d + 1
    ensures RunDigits(n) == [d] + RunDigits(m)
  {
    if d == 0 { assert (n - 1) / 2 == m; } else { assert (n - 2) / 2 == m; }
  }

  lemma DigitsSplit(n: nat, m: nat, d: nat, rest: seq<nat>)
    requires d <= 1 && n == 2 * m + d + 1
    ensures RunDigits(n) + rest == [d] + (RunDigits(m) + rest) && |RunDigits(n)| == 1 + |RunDigits(m)|
  {
    hide RunDigits;
    DigitFirst(n, m, d);
    assert [d] + RunDigits(m) + rest == [d] + (RunDigits(m) + rest);
  }

  lemma DigitsEnd(rest: seq<nat>)
    ensures RunDigits(0) == [] && [] + rest == rest
  {
  }

  /** The digits of `n`, read from digit place k on, add `n * 2^k` to the run. */
  lemma {:induction false} DigitsDecode(p: Progress, n: nat, rest: seq<nat>, inUse: nat, size: nat, total: nat)
    requires Sound(p) && inUse <= 256 && size <= 900_000 && total == p.run + n * Pow2(p.runBit) <= size
    ensures var q := p.(run := total, runBit := p.runBit + |RunDigits(n)|);
      Sound(q) && Decoded(p, RunDigits(n) + rest, inUse, size) == Decoded(q, rest, inUse, size)
    decreases n
  {
    hide RunDigits, Decoded, Symbol, Pow2;
    DigitsEnd(rest);
    Pow2Next(p.runBit);
    if n != 0 {
      var d := if n % 2 == 1 then 0 else 1;
      var m := (n - d - 1) / 2;
      var w := Pow2(p.runBit);
      DigitPlace(n, m, d, w);
      DigitsSplit(n, m, d, rest);
      var run: nat := p.run + (d + 1) * w;
      assert total == run + m * (2 * w);
      var tail := RunDigits(m) + rest;
      assert ([d] + tail)[1..] == tail;
      DigitStep(p, [d] + tail, run, inUse, size);
      DigitsDecode(p.(run := run, runBit := p.runBit + 1), m, rest, inUse, size, total);
    }
  }

  lemma DigitPlace(n: nat, m: nat, d: nat, w: nat)
    requires n == 2 * m + d + 1
    ensures n * w == (d + 1) * w + m * (2 * w) && 0 <= m * (2 * w)
  {
    MulMono(0, m, 2 * w);
    assert (2 * m) * w == m * (2 * w);
    assert n * w == (2 * m + (d + 1)) * w == (2 * m) * w + (d + 1) * w;
  }

  /** A run of legal size never reaches digit place 32. */
  lemma PlaceBound(k: nat, run: nat, size: nat)
    requires k >= 1 && run <= size <= 900_000 && Pow2(k - 1) <= run
    ensures k < 32
  {
    if k >= 32 {
      Pow2Mono(24, k - 1);
      var n := 24;
      Pow2Words(n);
    }
  }

  lemma IndexInPadded(list: seq<byte>, long: seq<byte>, j: nat)
    requires list <= long && j < |list|
    ensures ToFront(list, j) <= ToFront(long, j) && long[j] == list[j] && long[0] == list[0]
  {
  }

  lemma RepeatMore(b: byte, n: nat, rest: seq<byte>, bytes: seq<byte>)
    ensures bytes + Repeat(b, n + 1) + rest == bytes + Repeat(b, n) + ([b] + rest)
  {
    assert Repeat(b, n + 1) == Repeat(b, n) + [b];
  }

  /** A pending run's digits are its count. */
  lemma RunDecodes(long: seq<byte>, bytes: seq<byte>, zeros: nat, rest: seq<nat>, n: nat, size: nat) returns (k: nat)
    requires |long| == 256 && n <= 256 && zeros <= size <= 900_000
    ensures Decoded(Progress(0, 0, long, bytes), RunDigits(zeros) + rest, n, size)
      == Decoded(Progress(zeros, k, long, bytes), rest, n, size)
  {
    assert Pow2(0) == 1;
    DigitsDecode(Progress(0, 0, long, bytes), zeros, rest, n, size, zeros);
    k := |RunDigits(zeros)|;
  }

  lemma MoveDecodes(p: Progress, j: nat, tail: seq<nat>, n: nat, size: nat)
    requires |p.list| == 256 && 1 <= j < n <= 256 && |p.bytes| + p.run + 1 <= size
    ensures Decoded(p, [j + 1] + tail, n, size)
      == Decoded(Progress(0, 0, ToFront(p.list, j), p.bytes + Repeat(p.list[0], p.run) + [p.list[j]]), tail, n, size)
  {
    assert ([j + 1] + tail)[1..] == tail;
  }

  lemma EndDecodes(p: Progress, n: nat, size: nat)
    requires |p.list| == 256 && 1 <= n <= 256 && |p.bytes| + p.run <= size
    ensures Decoded(p, [n + 1], n, size) == Ok(p.bytes + Repeat(p.list[0], p.run))
  {
  }

  lemma MovedBytes(bytes: seq<byte>, run: seq<byte>, b: byte, rest: seq<byte>, block: seq<byte>)
    requires block == [b] + rest
    ensures forall x: byte :: bytes + run + [b] + Repeat(x, 0) + rest == bytes + run + block
  {
  }

  /** Decoding the symbols of a block gives the block: no legal block is refused. */
  lemma {:induction false} EncodeDecodes(list: seq<byte>, zeros: nat, block: seq<byte>, long: seq<byte>,
                                         bytes: seq<byte>, size: nat)
    requires (forall b :: b in block ==> b in list) && list != []
    requires list <= long && |long| == 256 && |bytes| + zeros + |block| <= size <= 900_000
    ensures Decoded(Progress(0, 0, long, bytes), EncodeFrom(list, zeros, block, |list| + 1), |list|, size)
      == Ok(bytes + Repeat(list[0], zeros) + block)
    decreases |block|
  {
    hide Decoded, ToFront, Repeat, RunDigits;
    var n := |list|;
    if block == [] {
      var k := RunDecodes(long, bytes, zeros, [n + 1], n, size);
      EndDecodes(Progress(zeros, k, long, bytes), n, size);
      assert bytes + Repeat(list[0], zeros) + block == bytes + Repeat(list[0], zeros);
    } else {
      var j := IndexOf(list, block[0]);
      assert block == [block[0]] + block[1..];
      if j == 0 {
        EncodeDecodes(list, zeros + 1, block[1..], long, bytes, size);
        RepeatMore(list[0], zeros, block[1..], bytes);
      } else {
        EncodeMoves(list, zeros, block, long, bytes, size, j);
        var tail := EncodeFrom(ToFront(list, j), 0, block[1..], n + 1);
        var bytes' := bytes + Repeat(long[0], zeros) + [long[j]];
        EncodeDecodes(ToFront(list, j), 0, block[1..], ToFront(long, j), bytes', size);
        MovedBytes(bytes, Repeat(long[0], zeros), block[0], block[1..], block);
      }
    }
  }

  lemma EncodeMoves(list: seq<byte>, zeros: nat, block: seq<byte>, long: seq<byte>, bytes: seq<byte>, size: nat, j: nat)
    requires (forall b :: b in block ==> b in list) && list != [] && block != []
    requires list <= long && |long| == 256 && |bytes| + zeros + |block| <= size <= 900_000
    requires j == IndexOf(list, block[0]) > 0
    ensures ToFront(list, j) <= ToFront(long, j) && long[j] == block[0] && long[0] == list[0]
    ensures forall b :: b in block[1..] ==> b in ToFront(list, j)
    ensures Decoded(Progress(0, 0, long, bytes), EncodeFrom(list, zeros, block, |list| + 1), |list|, size)
      == Decoded(Progress(0, 0, ToFront(long, j), bytes + Repeat(long[0], zeros) + [long[j]]),
                 EncodeFrom(ToFront(list, j), 0, block[1..], |list| + 1), |list|, size)
  {
    forall x ensures x in ToFront(list, j) <==> x in list { ToFrontKeeps(list, j, x); }
    IndexInPadded(list, long, j);
    var tail := EncodeFrom(ToFront(list, j), 0, block[1..], |list| + 1);
    var k := RunDecodes(long, bytes, zeros, [j + 1] + tail, |list|, size);
    assert RunDigits(zeros) + ([j + 1] + tail) == RunDigits(zeros) + [j + 1] + tail;
    MoveDecodes(Progress(zeros, k, long, bytes), j, tail, |list|, size);
  }

  /** The round trip within the decoder's limits. */
  lemma BlockDecodes(block: seq<byte>, size: nat)
    requires 0 < |block| <= size <= 900_000
    ensures Decoded(Progress(0, 0, Padded(InUse(block)), []), Encoded(block), |InUse(block)|, size) == Ok(block)
    ensures |Encoded(block)| <= |block| + 1
    ensures forall k :: 0 <= k < |Encoded(block)| ==> Encoded(block)[k] < |InUse(block)| + 2
  {
    hide EncodeFrom, Decoded, UsedBelow;
    var list := InUse(block);
    assert block[0] in list;
    EncodeDecodes(list, 0, block, Padded(list), [], size);
    EncodeBounds(list, 0, block, |list| + 1);
    assert [] + Repeat(list[0], 0) + block == block;
  }

  // ----- the declared size -----

  /** Success under one size is success under every size the result fits in, and with the same result. */
  lemma SymbolSize(p: Progress, sym: nat, n: nat, small: nat, large: nat)
    requires |p.list| == 256 && n <= 256 && small <= large
    ensures !Symbol(p, sym, n, small).Reject? ==> Symbol(p, sym, n, large) == Symbol(p, sym, n, small)
    ensures match Symbol(p, sym, n, large)
      case More(q) => |q.bytes| + q.run <= small ==> Symbol(p, sym, n, small) == More(q)
      case Stop(bytes) => |bytes| <= small ==> Symbol(p, sym, n, small) == Stop(bytes)
      case Reject(_) => true
  {
  }

  /** Bytes out and the pending run only grow. */
  lemma SymbolGrows(p: Progress, sym: nat, n: nat, size: nat)
    requires |p.list| == 256 && n <= 256
    ensures match Symbol(p, sym, n, size)
      case More(q) => |p.bytes| + p.run <= |q.bytes| + q.run
      case Stop(bytes) => |p.bytes| + p.run == |bytes|
      case Reject(_) => true
    ensures |p.bytes| <= size && Symbol(p, sym, n, size).More? ==> |Symbol(p, sym, n, size).next.bytes| <= size
    ensures |p.bytes| <= size && Symbol(p, sym, n, size).Stop? ==> |Symbol(p, sym, n, size).bytes| <= size
  {
    if sym <= 1 { MulMono(0, sym + 1, Pow2(p.runBit)); }
  }
}
