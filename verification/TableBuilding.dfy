/** Building codes on the encoder's side and decode tables on the decoder's side, from one length vector. */
module TableBuilding {
  import opened Bits
  import opened Results
  import opened Canonical
  import opened HuffmanTables

  ghost predicate Within(lens: seq<nat>, min: nat, max: nat) {
    lens != [] && min <= max && forall s :: 0 <= s < |lens| ==> min <= lens[s] <= max
  }

  method Bounds(lens: seq<nat>) returns (min: nat, max: nat)
    requires lens != []
    ensures min == MinLen(lens) && max == MaxLen(lens) && Within(lens, min, max)
  {
    min, max := lens[0], lens[0];
    var i := 1;
    assert lens[..1] == [lens[0]];
    assert MaxLen([lens[0]]) == lens[0] by { assert [lens[0]][..0] == []; }
    while i < |lens|
      invariant 1 <= i <= |lens| && min == MinLen(lens[..i]) && max == MaxLen(lens[..i])
    {
      assert lens[..i + 1][..i] == lens[..i];
      if lens[i] < min { min := lens[i]; }
      if lens[i] > max { max := lens[i]; }
      i := i + 1;
    }
    assert lens[..i] == lens;
    assert lens[0] <= max;
  }

  // ----- encoder: canonical codes -----

  ghost predicate HasCode(lens: seq<nat>, codes: seq<nat>, s: nat)
    requires s < |lens| == |codes|
  {
    lens[s] >= 1 && codes[s] == Code(lens, s)
  }

  /** All symbols of length up to `l`, of which those of length `l` only below `i`, have their code. */
  ghost predicate CodedTo(lens: seq<nat>, codes: seq<nat>, l: nat, i: nat)
    requires |lens| == |codes|
  {
    forall s :: 0 <= s < |lens| && (lens[s] < l || (lens[s] == l && s < i)) ==> HasCode(lens, codes, s)
  }

  /** The codes of one length. */
  method CodesOfLength(lens: seq<nat>, l: nat, codes0: seq<nat>, next0: nat) returns (codes: seq<nat>, next: nat)
    requires l >= 1 && |codes0| == |lens| && CodedTo(lens, codes0, l, 0) && next0 == FirstCode(lens, l)
    ensures |codes| == |lens| && CodedTo(lens, codes, l, |lens|) && next == EndCode(lens, l)
  {
    codes, next := codes0, next0;
    var i := 0;
    assert lens[..0] == [];
    while i < |lens|
      invariant 0 <= i <= |lens| == |codes| && next == next0 + CountLen(lens[..i], l)
      invariant CodedTo(lens, codes, l, i)
    {
      CountPrefix(lens, i, l);
      ghost var before := codes;
      if lens[i] == l {
        codes := codes[i := next];
        next := next + 1;
      }
      forall s | 0 <= s < |lens| && (lens[s] < l || (lens[s] == l && s < i + 1)) ensures HasCode(lens, codes, s) {
        if s != i { assert HasCode(lens, before, s); }
      }
      i := i + 1;
    }
    assert lens[..i] == lens;
  }

  /** Number the symbols length by length, doubling in between. */
  method CanonicalCodes(lens: seq<nat>) returns (codes: seq<nat>)
    requires lens != [] && forall s :: 0 <= s < |lens| ==> lens[s] >= 1
    ensures |codes| == |lens| && forall s :: 0 <= s < |lens| ==> HasCode(lens, codes, s)
  {
    var min, max := Bounds(lens);
    codes := CodesBetween(lens, min, max);
  }

  method CodesBetween(lens: seq<nat>, min: nat, max: nat) returns (codes: seq<nat>)
    requires min >= 1 && Within(lens, min, max)
    ensures |codes| == |lens| && forall s :: 0 <= s < |lens| ==> HasCode(lens, codes, s)
  {
    codes := seq(|lens|, _ => 0);
    var next, l := 0, min;
    NoneBelow(lens, min);
    while l <= max
      invariant min <= l <= max + 1 && |codes| == |lens| && next == FirstCode(lens, l)
      invariant CodedTo(lens, codes, l, 0)
    {
      codes, next := CodesOfLength(lens, l, codes, next);
      next := next * 2;
      l := l + 1;
    }
  }

  // ----- decoder: perm, counts, limit, base -----

  lemma Extend<T>(a: seq<T>, p: seq<T>, q: seq<T>, x: T)
    requires a == p + q
    ensures a + [x] == p + (q + [x])
  {
  }

  /** Append the symbols of one length. */
  method PermOfLength(perm: array<nat>, lens: seq<nat>, l: nat, pp0: nat, ghost done: seq<nat>) returns (pp: nat)
    requires pp0 <= perm.Length && perm[..pp0] == done && pp0 + CountLen(lens, l) <= perm.Length
    modifies perm
    ensures pp == pp0 + CountLen(lens, l) && perm[..pp] == done + SymbolsOf(lens, l)
  {
    pp := pp0;
    var s := 0;
    assert lens[..0] == [];
    while s < |lens|
      invariant 0 <= s <= |lens| && pp == pp0 + CountLen(lens[..s], l) <= perm.Length
      invariant perm[..pp] == done + SymbolsOf(lens[..s], l)
    {
      CountPrefix(lens, s, l);
      if lens[s] == l {
        Extend(perm[..pp], done, SymbolsOf(lens[..s], l), s);
        perm[pp] := s;
        pp := pp + 1;
      }
      s := s + 1;
    }
    assert lens[..s] == lens;
  }

  lemma RoomFor(lens: seq<nat>, l: nat)
    ensures Shorter(lens, l) + CountLen(lens, l) == Shorter(lens, l + 1) <= |lens|
    ensures PermBelow(lens, l + 1) == PermBelow(lens, l) + SymbolsOf(lens, l)
  {
    ShorterBound(lens, l + 1);
  }

  lemma AllShorter(lens: seq<nat>, l: nat)
    requires forall s :: 0 <= s < |lens| ==> lens[s] < l
    ensures Shorter(lens, l) == |lens|
  {
    ShorterBound(lens, l);
  }

  lemma PermDone(a: seq<nat>, lens: seq<nat>, l: nat, end: nat)
    requires l == end && (forall s :: 0 <= s < |lens| ==> lens[s] < l) && |a| == |lens|
    requires |PermBelow(lens, l)| <= |a| && a[..|PermBelow(lens, l)|] == PermBelow(lens, l)
    ensures a == PermBelow(lens, end)
  {
    AllShorter(lens, l);
    assert a[..|a|] == a;
  }

  /** All symbols by length and then by symbol; `end` is the length after the last. */
  method BuildPerm(lens: seq<nat>, min: nat, max: nat, ghost end: nat) returns (perm: array<nat>)
    requires min >= 1 && Within(lens, min, max) && end == max + 1
    ensures fresh(perm) && perm[..] == PermBelow(lens, end)
  {
    hide SymbolsOf, Shorter, EndCode, PermBelow;
    var size := |lens|;
    perm := new nat[size];
    var pp, l := 0, min;
    NoneBelow(lens, min);
    ghost var done: seq<nat> := [];
    while l <= max
      invariant min <= l <= end && pp == |done| <= size == perm.Length
      invariant done == PermBelow(lens, l)
      invariant perm[..pp] == done
    {
      RoomFor(lens, l);
      pp := PermOfLength(perm, lens, l, pp, done);
      done := done + SymbolsOf(lens, l);
      l := l + 1;
    }
    PermDone(perm[..], lens, l, end);
  }

  /** Cumulative symbol counts: entry `l` is how many symbols are shorter than `l`. */
  method BuildCounts(lens: seq<nat>) returns (counts: array<nat>)
    requires forall s :: 0 <= s < |lens| ==> lens[s] <= MAX_CODE_LEN
    ensures fresh(counts) && counts.Length == MAX_CODE_LEN + 2
    ensures forall l: nat :: l < MAX_CODE_LEN + 2 ==> counts[l] == Shorter(lens, l)
  {
    counts := new nat[MAX_CODE_LEN + 2](_ => 0);
    var s := 0;
    assert lens[..0] == [];
    assert Counted(counts, lens[..0], 1);
    hide SymbolsOf, EndCode, CountLen, Shorter;
    while s < |lens|
      invariant 0 <= s <= |lens| && counts[0] == 0
      invariant Counted(counts, lens[..s], 1)
    {
      var i := lens[s] + 1;
      ghost var before := counts[..];
      counts[i] := counts[i] + 1;
      CountOne(counts, before, lens, s);
      s := s + 1;
    }
    assert lens[..s] == lens;
    ShorterZero(lens);
    var i := 1;
    while i < MAX_CODE_LEN + 2
      invariant 1 <= i <= MAX_CODE_LEN + 2
      invariant forall l: nat :: l < i ==> counts[l] == Shorter(lens, l)
      invariant Counted(counts, lens, i)
    {
      ShorterNext(lens, i - 1);
      counts[i] := counts[i] + counts[i - 1];
      i := i + 1;
    }
  }

  lemma ShorterZero(lens: seq<nat>)
    ensures Shorter(lens, 0) == 0
  {
  }

  lemma ShorterNext(lens: seq<nat>, l: nat)
    ensures Shorter(lens, l + 1) == Shorter(lens, l) + CountLen(lens, l)
  {
  }

  lemma CountOne(counts: array<nat>, before: seq<nat>, lens: seq<nat>, s: nat)
    requires s < |lens| && lens[s] + 1 < |before| == counts.Length
    requires counts[..] == before[lens[s] + 1 := before[lens[s] + 1] + 1]
    requires forall l: nat :: 1 <= l < |before| ==> before[l] == CountLen(lens[..s], l - 1)
    ensures Counted(counts, lens[..s + 1], 1)
  {
    hide SymbolsOf;
    forall l: nat | 1 <= l < counts.Length ensures counts[l] == CountLen(lens[..s + 1], l - 1) {
      CountPrefix(lens, s, l - 1);
      assert counts[l] == counts[..][l];
    }
  }

  /** From `from` on, entry `l` counts the symbols of length `l - 1`. */
  ghost predicate Counted(counts: array<nat>, lens: seq<nat>, from: nat)
    requires from >= 1
    reads counts
  {
    forall l: nat :: from <= l < counts.Length ==> counts[l] == CountLen(lens, l - 1)
  }

  ghost predicate Counts(counts: seq<nat>, lens: seq<nat>) {
    |counts| == MAX_CODE_LEN + 2 && forall l: nat :: l < MAX_CODE_LEN + 2 ==> counts[l] == Shorter(lens, l)
  }

  ghost predicate Limits(limit: seq<int>, lens: seq<nat>, min: nat, l: nat) {
    1 <= min <= |limit| && l <= |limit| && forall k :: min <= k < l ==> limit[k] == EndCode(lens, k) - 1
  }

  ghost predicate Bases(base: seq<int>, lens: seq<nat>, min: nat, l: nat) {
    1 <= min <= |base| && l <= |base| && forall k :: min <= k < l ==> base[k] == FirstCode(lens, k) - Shorter(lens, k)
  }

  method BuildLimit(lens: seq<nat>, min: nat, max: nat, counts: seq<nat>) returns (limit: array<int>)
    requires 1 <= min <= max <= MAX_CODE_LEN && Counts(counts, lens) && FirstCode(lens, min) == 0
    ensures fresh(limit) && limit.Length == MAX_CODE_LEN + 2 && Limits(limit[..], lens, min, max + 1)
  {
    limit := new int[MAX_CODE_LEN + 2](_ => 0);
    var vec: int := 0;
    var l := min;
    while l <= max
      invariant min <= l <= max + 1 && vec == FirstCode(lens, l)
      invariant Limits(limit[..], lens, min, l)
    {
      ghost var before := limit[..];
      vec := vec + counts[l + 1] - counts[l];
      limit[l] := vec - 1;
      assert limit[..] == before[l := vec - 1];
      vec := vec * 2;
      l := l + 1;
    }
  }

  method BuildBase(lens: seq<nat>, min: nat, max: nat, counts: seq<nat>, limit: seq<int>) returns (base: array<int>)
    requires 1 <= min <= max <= MAX_CODE_LEN && Counts(counts, lens) && FirstCode(lens, min) == 0 == Shorter(lens, min)
    requires |limit| == MAX_CODE_LEN + 2 && Limits(limit, lens, min, max + 1)
    ensures fresh(base) && base.Length == MAX_CODE_LEN + 2 && Bases(base[..], lens, min, max + 1)
  {
    base := new int[MAX_CODE_LEN + 2](i requires 0 <= i < |counts| => counts[i]);
    var l := min + 1;
    while l <= max
      invariant min + 1 <= l <= max + 1
      invariant Bases(base[..], lens, min, l)
      invariant forall k :: l <= k <= max ==> base[k] == counts[k]
    {
      ghost var before := base[..];
      assert limit[l - 1] == EndCode(lens, l - 1) - 1;
      var b := (limit[l - 1] + 1) * 2 - base[l];
      base[l] := b;
      assert base[..] == before[l := b];
      l := l + 1;
    }
  }

  // ----- decoder: the fast table -----

  /** Slots stamped by the first `k` codes of length `l`, over what shorter codes stamped. */
  function Stamped(lens: seq<nat>, l: nat, k: nat, x: nat): nat
    requires 1 <= l && k <= CountLen(lens, l)
  {
    var v := Lead(ToBits(x, FAST_BITS), l);
    if FirstCode(lens, l) <= v < FirstCode(lens, l) + k then l * 4096 + SymbolsOf(lens, l)[v - FirstCode(lens, l)]
    else Entry(lens, l - 1, ToBits(x, FAST_BITS))
  }

  lemma LeadOfTen(x: nat, l: nat)
    requires x < 1024 && l <= FAST_BITS
    ensures Lead(ToBits(x, FAST_BITS), l) == x / Pow2(FAST_BITS - l)
  {
    var s := ToBits(x, FAST_BITS);
    LeadShift(s, l, FAST_BITS);
    WindowInside(s, 0, FAST_BITS);
    assert s[0..FAST_BITS] == s;
    ToBitsValue(x, FAST_BITS);
    Pow2Small();
    assert x == 0 * 1024 + x;
    DivModUnique(x, 1024, 0, x);
  }

  /** The slots that share the `l`-bit prefix `v`. */
  lemma SlotsOf(x: nat, p: nat, v: nat)
    requires p > 0
    ensures x / p == v <==> v * p <= x < v * p + p
  {
    if x / p == v {
      assert x == v * p + x % p;
    } else if v * p <= x < v * p + p {
      DivModUnique(x, p, v, x - v * p);
    }
  }

  lemma SlotsFit(v: nat, l: nat)
    requires l <= FAST_BITS && v < Pow2(l)
    ensures v * Pow2(FAST_BITS - l) + Pow2(FAST_BITS - l) <= 1024
  {
    var p := Pow2(FAST_BITS - l);
    Pow2Add(l, FAST_BITS - l);
    Pow2Small();
    MulMono(v + 1, Pow2(l), p);
    assert (v + 1) * p == v * p + p;
  }

  lemma StampMore(lens: seq<nat>, l: nat, k: nat, x: nat, v: nat)
    requires 1 <= l <= FAST_BITS && k < CountLen(lens, l) && x < 1024 && v == FirstCode(lens, l) + k
    ensures var p := Pow2(FAST_BITS - l);
      Stamped(lens, l, k + 1, x) ==
        if v * p <= x < v * p + p then l * 4096 + SymbolsOf(lens, l)[k] else Stamped(lens, l, k, x)
    ensures v >= Pow2(l) ==> Stamped(lens, l, k + 1, x) == Stamped(lens, l, k, x)
  {
    LeadOfTen(x, l);
    SlotsOf(x, Pow2(FAST_BITS - l), v);
  }

  method StampCode(fast: array<nat>, lens: seq<nat>, l: nat, k: nat, v: nat, sym: nat)
    requires 1 <= l <= FAST_BITS && fast.Length == 1024 && k < CountLen(lens, l) && v == FirstCode(lens, l) + k
    requires v < Pow2(l) && sym == SymbolsOf(lens, l)[k]
    requires forall x: nat :: x < 1024 ==> fast[x] == Stamped(lens, l, k, x)
    modifies fast
    ensures forall x: nat :: x < 1024 ==> fast[x] == Stamped(lens, l, k + 1, x)
  {
    hide Stamped, SymbolsOf, FirstCode, CountLen;
    var p := Pow2(FAST_BITS - l);
    SlotsFit(v, l);
    var lo := v * p;
    var entry := l * 4096 + sym;
    ghost var before := fast[..];
    var i := lo;
    while i < lo + p
      invariant lo <= i <= lo + p <= 1024
      invariant forall x: nat :: x < 1024 ==> fast[x] == if lo <= x < i then entry else before[x]
    {
      fast[i] := entry;
      i := i + 1;
    }
    forall x: nat | x < 1024 ensures fast[x] == Stamped(lens, l, k + 1, x) {
      StampMore(lens, l, k, x, v);
    }
  }

  method StampLength(fast: array<nat>, lens: seq<nat>, l: nat, ghost m: nat, limit: int, base: int, start: nat,
                     count: nat, perm: seq<nat>)
    requires count == CountLen(lens, l)
    requires 1 <= l <= FAST_BITS && fast.Length == 1024
    requires limit == EndCode(lens, l) - 1 && base == FirstCode(lens, l) - Shorter(lens, l) && start == Shorter(lens, l)
    requires l < m && perm == PermBelow(lens, m)
    requires forall x: nat :: x < 1024 ==> fast[x] == Entry(lens, l - 1, ToBits(x, FAST_BITS))
    modifies fast
    ensures forall x: nat :: x < 1024 ==> fast[x] == Entry(lens, l, ToBits(x, FAST_BITS))
  {
    var k := 0;
    while k < count
      invariant k <= count
      invariant forall x: nat :: x < 1024 ==> fast[x] == Stamped(lens, l, k, x)
    {
      var idx := start + k;
      var v := base + idx;
      PermAt(lens, l, m, k);
      if v < 0 || v > limit || v >= Pow2(l) || idx >= |perm| {
        forall x: nat | x < 1024 ensures fast[x] == Stamped(lens, l, k + 1, x) { StampMore(lens, l, k, x, v); }
      } else {
        StampCode(fast, lens, l, k, v, perm[idx]);
      }
      k := k + 1;
    }
    forall x: nat | x < 1024 ensures fast[x] == Entry(lens, l, ToBits(x, FAST_BITS)) {
      EntryStep(lens, l, ToBits(x, FAST_BITS));
    }
  }

  lemma {:induction false} NothingBelow(lens: seq<nat>, min: nat, max: nat, s: seq<bit>, l: nat)
    requires max < min && (forall s :: 0 <= s < |lens| ==> lens[s] >= min)
    requires l >= 1 && Lead(s, l - 1) >= EndCode(lens, l - 1)
    ensures Walk(lens, max, s, l) == Nowhere
    decreases max + 1 - l
  {
    if l <= max {
      NoCodesBelow(lens, l);
      NothingBelow(lens, min, max, s, l + 1);
    }
  }

  method BuildFast(lens: seq<nat>, min: nat, max: nat, counts: seq<nat>, limit: seq<int>, base: seq<int>,
                   perm: seq<nat>, top: nat) returns (fast: array<nat>)
    requires top == if max < FAST_BITS then max else FAST_BITS
    requires 1 <= min && Within(lens, min, max) && max <= MAX_CODE_LEN
    requires |limit| == |base| == MAX_CODE_LEN + 2 && perm == PermBelow(lens, max + 1)
    requires Counts(counts, lens) && Limits(limit, lens, min, max + 1) && Bases(base, lens, min, max + 1)
    ensures fresh(fast) && fast.Length == 1024
    ensures forall x: nat :: x < 1024 ==> fast[x] == Entry(lens, top, ToBits(x, FAST_BITS))
  {
    hide SymbolsOf, Shorter, PermBelow, ToBits, Walk;
    fast := new nat[1024](_ => 0);
    var l := min;
    ghost var below := min - 1;
    forall x: nat | x < 1024 ensures fast[x] == Entry(lens, below, ToBits(x, FAST_BITS)) {
      NothingBelow(lens, min, below, ToBits(x, FAST_BITS), 1);
    }
    while l <= top
      invariant min <= l && (l <= top + 1 || l == min)
      invariant forall x: nat :: x < 1024 ==> fast[x] == Entry(lens, l - 1, ToBits(x, FAST_BITS))
      modifies fast
    {
      RoomFor(lens, l);
      StampLength(fast, lens, l, max + 1, limit[l], base[l], counts[l], counts[l + 1] - counts[l], perm);
      l := l + 1;
    }
    if min > top {
      forall x: nat | x < 1024 ensures fast[x] == Entry(lens, top, ToBits(x, FAST_BITS)) {
        NothingBelow(lens, min, below, ToBits(x, FAST_BITS), 1);
        NothingBelow(lens, min, top, ToBits(x, FAST_BITS), 1);
      }
    }
  }

  /** The decoder's table for a length vector; lengths outside 1..23 are refused. */
  method Build(lens: seq<nat>) returns (r: Result<HuffTable>)
    requires lens != []
    ensures MinLen(lens) >= 1 && MaxLen(lens) <= MAX_CODE_LEN ==> r.Ok? && Represents(r.value, lens)
    ensures MinLen(lens) < 1 || MaxLen(lens) > MAX_CODE_LEN ==> r == Err(InvalidHuffman)
  {
    hide MinLen, MaxLen, PermBelow, Shorter, EndCode, Entry, SymbolsOf, ToBits;
    var min, max := Bounds(lens);
    if min < 1 || max > MAX_CODE_LEN {
      return Err(InvalidHuffman);
    }
    NoneBelow(lens, min);
    ShorterBound(lens, max + 1);
    var perm := BuildPerm(lens, min, max, max + 1);
    var counts := BuildCounts(lens);
    var limit := BuildLimit(lens, min, max, counts[..]);
    var base := BuildBase(lens, min, max, counts[..], limit[..]);
    var fast := BuildFast(lens, min, max, counts[..], limit[..], base[..], perm[..],
      if max < FAST_BITS then max else FAST_BITS);
    var t := HuffTable(min, max, limit[..], base[..], perm[..], fast[..]);
    forall l | min <= l <= max ensures RowOf(t, lens, l) {}
    r := Ok(t);
  }
}
