/** The canonical decode table: limit/base/perm, and the one-lookup fast table in front of it. */
module HuffmanTables {
  import opened Bits
  import opened Results
  import opened Canonical
  import opened BitReading

  const MAX_CODE_LEN: nat := 23
  const FAST_BITS: nat := 10

  // ----- what decoding one symbol means -----

  /** The symbol at the front of `s`, by the canonical walk over its real bits. */
  function DecodeSymbol(lens: seq<nat>, s: seq<bit>): (r: Parsed<nat>)
    ensures r.Done? ==> 1 <= r.used <= |s| && r.value < |lens|
  {
    match WalkAll(lens, s)
    case Nowhere => Fail(InvalidHuffman)
    case Found(sym, len) => if len > |s| then Fail(Truncated) else Done(sym, len)
  }

  /** A symbol, or the absence of one, is settled by the bits at hand; only `Truncated` is not. */
  lemma DecodeSymbolExtends(lens: seq<nat>, s: seq<bit>, t: seq<bit>)
    requires DecodeSymbol(lens, s) != Fail(Truncated)
    ensures DecodeSymbol(lens, s + t) == DecodeSymbol(lens, s)
  {
    WalkExtends(lens, MaxLen(lens), s, t, 1);
  }

  lemma DecodeSymbolWritten(lens: seq<nat>, limit: nat, sym: nat, t: seq<bit>)
    requires Prefixable(lens, limit) && sym < |lens|
    ensures DecodeSymbol(lens, CodeBits(lens, sym) + t) == Done(sym, lens[sym])
  {
    CodeDecodes(lens, limit, sym, t);
  }

  // ----- the fast table -----

  /** What the walk finds within the first `max` lengths, as one table entry; 0 when it finds nothing. */
  function Entry(lens: seq<nat>, max: nat, s: seq<bit>): nat {
    match Walk(lens, max, s, 1)
    case Found(sym, len) => len * 4096 + sym
    case Nowhere => 0
  }

  /** Raising the last length by one only adds what that length finds. */
  lemma {:induction false} WalkFurther(lens: seq<nat>, max: nat, s: seq<bit>, l: nat)
    requires 1 <= l <= max + 1 && Lead(s, l - 1) >= EndCode(lens, l - 1)
    ensures Walk(lens, max, s, l).Found? ==> Walk(lens, max + 1, s, l) == Walk(lens, max, s, l)
    ensures Walk(lens, max, s, l).Nowhere? ==>
      Lead(s, max) >= EndCode(lens, max) && Walk(lens, max + 1, s, l) == Walk(lens, max + 1, s, max + 1)
    decreases max + 1 - l
  {
    if l <= max && Lead(s, l) >= EndCode(lens, l) { WalkFurther(lens, max, s, l + 1); }
  }

  /** Something is found within `l` lengths exactly when the first `l` bits are below the code end. */
  lemma {:induction false} FoundBelow(lens: seq<nat>, s: seq<bit>, l: nat)
    ensures Walk(lens, l, s, 1).Found? <==> Lead(s, l) < EndCode(lens, l)
  {
    if l > 0 {
      FoundBelow(lens, s, l - 1);
      WalkFurther(lens, l - 1, s, 1);
      LeadGrows(s, l);
    }
  }

  /** The codes of length `l` stamp exactly the slots whose first `l` bits are such a code. */
  lemma WalkOrigin(lens: seq<nat>, s: seq<bit>)
    ensures Lead(s, 0) == 0 && EndCode(lens, 0) == 0
  {
  }

  lemma EntryStep(lens: seq<nat>, l: nat, s: seq<bit>)
    requires l >= 1
    ensures var v := Lead(s, l);
      Entry(lens, l, s) ==
        if FirstCode(lens, l) <= v < FirstCode(lens, l) + CountLen(lens, l)
        then l * 4096 + SymbolsOf(lens, l)[v - FirstCode(lens, l)] else Entry(lens, l - 1, s)
  {
    hide Lead, EndCode, SymbolsOf;
    WalkOrigin(lens, s);
    EndCodeAt(lens, l);
    FoundBelow(lens, s, l - 1);
    FoundBelow(lens, s, l);
    WalkFurther(lens, l - 1, s, 1);
    LeadGrows(s, l);
  }

  lemma {:induction false} WalkSameLeads(lens: seq<nat>, max: nat, s: seq<bit>, s': seq<bit>, l: nat)
    requires l >= 1 && forall k :: l - 1 <= k <= max ==> Lead(s, k) == Lead(s', k)
    requires Lead(s, l - 1) >= EndCode(lens, l - 1) && Lead(s', l - 1) == Lead(s, l - 1)
    ensures Walk(lens, max, s, l) == Walk(lens, max, s', l)
    decreases max + 1 - l
  {
    if l <= max {
      assert Lead(s, l) == Lead(s', l);
      if Lead(s, l) >= EndCode(lens, l) { WalkSameLeads(lens, max, s, s', l + 1); }
    }
  }

  lemma {:induction false} WalkBeyond(lens: seq<nat>, m: nat, max: nat, s: seq<bit>)
    requires m <= max
    ensures Walk(lens, m, s, 1).Found? ==> Walk(lens, max, s, 1) == Walk(lens, m, s, 1)
    ensures Walk(lens, m, s, 1).Nowhere? && Walk(lens, max, s, 1).Found? ==> Walk(lens, max, s, 1).len > m
    decreases max
  {
    if m < max {
      WalkBeyond(lens, m, max - 1, s);
      WalkFurther(lens, max - 1, s, 1);
    }
  }

  function FastMax(lens: seq<nat>): nat {
    if MaxLen(lens) < FAST_BITS then MaxLen(lens) else FAST_BITS
  }

  /** The fast table's entry for the ten bits `x`. */
  function FastEntry(lens: seq<nat>, x: nat): nat {
    Entry(lens, FastMax(lens), ToBits(x, FAST_BITS))
  }

  lemma LeadOfSlot(s: seq<bit>, l: nat)
    requires l <= FAST_BITS
    ensures Lead(ToBits(Lead(s, FAST_BITS), FAST_BITS), l) == Lead(s, l)
  {
    var w := Window(s, 0, FAST_BITS);
    ValueToBits(w);
    WindowPrefix(s, 0, FAST_BITS, l);
    WindowInside(w, 0, l);
  }

  /** One lookup agrees with the walk on every window of every length vector: a non-zero entry is the walk's
      symbol and length, and a zero entry means the walk goes past ten bits or finds nothing. */
  lemma FastAgrees(lens: seq<nat>, s: seq<bit>)
    requires |lens| <= 4096
    ensures var e := FastEntry(lens, Lead(s, FAST_BITS));
      && (e != 0 ==> WalkAll(lens, s) == Found(e % 4096, e / 4096))
      && (e == 0 ==> WalkAll(lens, s).Found? ==> WalkAll(lens, s).len > FAST_BITS)
  {
    var slot := ToBits(Lead(s, FAST_BITS), FAST_BITS);
    forall k | 0 <= k <= FAST_BITS ensures Lead(s, k) == Lead(slot, k) { LeadOfSlot(s, k); }
    WalkSameLeads(lens, FastMax(lens), s, slot, 1);
    WalkBeyond(lens, FastMax(lens), MaxLen(lens), s);
  }

  // ----- what a built table must hold -----

  datatype HuffTable = HuffTable(minLen: nat, maxLen: nat, limit: seq<int>, base: seq<int>, perm: seq<nat>,
                                 fast: seq<nat>)

  /** All symbols of length below `l`, by length and then by symbol. */
  function PermBelow(lens: seq<nat>, l: nat): (r: seq<nat>)
    ensures |r| == Shorter(lens, l)
  {
    if l == 0 then [] else PermBelow(lens, l - 1) + SymbolsOf(lens, l - 1)
  }

  ghost predicate RowOf(t: HuffTable, lens: seq<nat>, l: nat)
    requires 1 <= l < |t.limit| == |t.base|
  {
    t.limit[l] == EndCode(lens, l) - 1 && t.base[l] == FirstCode(lens, l) - Shorter(lens, l)
  }

  ghost predicate Represents(t: HuffTable, lens: seq<nat>) {
    && lens != [] && 1 <= t.minLen == MinLen(lens) && t.maxLen == MaxLen(lens) <= MAX_CODE_LEN
    && |t.limit| == |t.base| == MAX_CODE_LEN + 2 && (forall l :: t.minLen <= l <= t.maxLen ==> RowOf(t, lens, l))
    && |t.perm| == |lens| && t.perm == PermBelow(lens, t.maxLen + 1)
    && |t.fast| == 1024 && (forall x: nat :: x < 1024 ==> t.fast[x] == FastEntry(lens, x))
  }

  // ----- counting lemmas -----

  lemma {:induction false} CountPrefix(lens: seq<nat>, s: nat, l: nat)
    requires s < |lens|
    ensures SymbolsOf(lens[..s], l) + (if lens[s] == l then [s] else []) == SymbolsOf(lens[..s + 1], l)
    ensures |SymbolsOf(lens[..s + 1], l)| <= CountLen(lens, l)
    decreases |lens| - s
  {
    assert lens[..s + 1][..s] == lens[..s];
    if s + 1 == |lens| {
      assert lens[..s + 1] == lens;
    } else {
      CountPrefix(lens, s + 1, l);
    }
  }

  lemma {:induction false} ShorterStep(lens: seq<nat>, l: nat)
    requires lens != []
    ensures Shorter(lens, l) == Shorter(lens[..|lens| - 1], l) + if lens[|lens| - 1] < l then 1 else 0
  {
    if l > 0 { ShorterStep(lens, l - 1); }
  }

  lemma {:induction false} ShorterNone(l: nat)
    ensures Shorter([], l) == 0
  {
    if l > 0 { ShorterNone(l - 1); }
  }

  lemma {:induction false} ShorterBound(lens: seq<nat>, l: nat)
    ensures Shorter(lens, l) <= |lens|
    ensures (forall s :: 0 <= s < |lens| ==> lens[s] < l) ==> Shorter(lens, l) == |lens|
    ensures (forall s :: 0 <= s < |lens| ==> lens[s] >= l) ==> Shorter(lens, l) == 0
  {
    if lens == [] {
      ShorterNone(l);
    } else {
      ShorterStep(lens, l);
      ShorterBound(lens[..|lens| - 1], l);
    }
  }

  lemma {:induction false} NoneOf(lens: seq<nat>, l: nat)
    requires forall s :: 0 <= s < |lens| ==> lens[s] != l
    ensures SymbolsOf(lens, l) == []
  {
    if lens != [] { NoneOf(lens[..|lens| - 1], l); }
  }

  lemma {:induction false} NoCodesBelow(lens: seq<nat>, l: nat)
    requires forall s :: 0 <= s < |lens| ==> lens[s] > l
    ensures EndCode(lens, l) == 0
  {
    NoneOf(lens, l);
    if l > 0 { NoCodesBelow(lens, l - 1); }
  }

  lemma NoneBelow(lens: seq<nat>, m: nat)
    requires m >= 1 && forall s :: 0 <= s < |lens| ==> lens[s] >= m
    ensures Shorter(lens, m) == 0 && FirstCode(lens, m) == 0 && PermBelow(lens, m) == []
  {
    ShorterBound(lens, m);
    NoCodesBelow(lens, m - 1);
  }

  lemma AtConcat(a: seq<nat>, b: seq<nat>)
    ensures forall k :: 0 <= k < |a| ==> (a + b)[k] == a[k]
    ensures forall k :: 0 <= k < |b| ==> (a + b)[|a| + k] == b[k]
  {
  }

  lemma {:induction false} PermAt(lens: seq<nat>, l: nat, m: nat, k: nat)
    requires l < m && k < CountLen(lens, l)
    ensures Shorter(lens, l) + k < Shorter(lens, m)
    ensures PermBelow(lens, m)[Shorter(lens, l) + k] == SymbolsOf(lens, l)[k]
    decreases m
  {
    hide SymbolsOf;
    AtConcat(PermBelow(lens, m - 1), SymbolsOf(lens, m - 1));
    if l < m - 1 { PermAt(lens, l, m - 1, k); }
  }

  // ----- decoding through the table -----

  lemma WalkFromMin(lens: seq<nat>, s: seq<bit>, l: nat)
    requires lens != [] && 1 <= l <= MinLen(lens)
    ensures Lead(s, l - 1) >= EndCode(lens, l - 1)
    ensures WalkAll(lens, s) == Walk(lens, MaxLen(lens), s, l)
  {
    if l > 1 {
      WalkFromMin(lens, s, l - 1);
      NoCodesBelow(lens, l - 1);
    } else {
      assert EndCode(lens, 0) == 0;
    }
  }

  lemma HitIndex(t: HuffTable, lens: seq<nat>, l: nat, m: nat, v: nat)
    requires 1 <= l < |t.limit| == |t.base| && RowOf(t, lens, l) && l < m && t.perm == PermBelow(lens, m)
    requires FirstCode(lens, l) <= v < FirstCode(lens, l) + CountLen(lens, l)
    ensures var idx := v - t.base[l]; 0 <= idx < |t.perm| && t.perm[idx] == SymbolsOf(lens, l)[v - FirstCode(lens, l)]
  {
    var k := v - FirstCode(lens, l);
    PermAt(lens, l, m, k);
  }

  lemma TableHit(t: HuffTable, lens: seq<nat>, l: nat, v: nat)
    requires Represents(t, lens) && t.minLen <= l <= t.maxLen
    requires FirstCode(lens, l) <= v < EndCode(lens, l)
    ensures var idx := v - t.base[l]; 0 <= idx < |t.perm| && t.perm[idx] == SymbolsOf(lens, l)[v - FirstCode(lens, l)]
  {
    hide PermBelow, MinLen, MaxLen, SymbolsOf, Shorter, FastEntry;
    assert RowOf(t, lens, l);
    var m := t.maxLen + 1;
    HitIndex(t, lens, l, m, v);
  }

  lemma LeadOfWindow(s: seq<bit>, pos: nat, l: nat)
    requires pos <= |s|
    ensures Value(Window(s, pos, l)) == Lead(s[pos..], l)
  {
    WindowOfRest(s, pos, l);
  }

  /** How a decode call must come back: the symbol and the position behind it, or the error. */
  ghost predicate Reads(lens: seq<nat>, s: seq<bit>, res: Result<nat>, moved: int) {
    match DecodeSymbol(lens, s)
    case Done(v, used) => res == Ok(v) && moved == used
    case Fail(e) => res == Err(e)
  }

  /** Decode one symbol: the fast table first, then the walk over limit, base and perm. */
  method Decode(t: HuffTable, ghost lens: seq<nat>, r: BitReservoir) returns (res: Result<nat>)
    requires Represents(t, lens) && |lens| <= 4096
    requires r.Valid() && r.pos <= 8 * |r.data|
    modifies r
    ensures r.Valid() && Reads(lens, BytesToBits(r.data)[old(r.pos)..], res, r.pos - old(r.pos))
    ensures res.Ok? ==> r.pos <= 8 * |r.data|
  {
    ghost var bits, pos := BytesToBits(r.data), r.pos;
    ghost var s := bits[pos..];
    r.Refill();
    var x := r.Peek(FAST_BITS);
    LeadOfWindow(bits, pos, FAST_BITS);
    Pow2Small();
    FastAgrees(lens, s);
    var e := t.fast[x];
    if e != 0 {
      var fits := r.Consume(e / 4096);
      return if fits then Ok(e % 4096) else Err(Truncated);
    }
    res := DecodeByWalk(t, lens, r);
  }

  method DecodeByWalk(t: HuffTable, ghost lens: seq<nat>, r: BitReservoir) returns (res: Result<nat>)
    requires Represents(t, lens)
    requires r.Valid() && r.pos <= 8 * |r.data| && r.have >= 57
    modifies r
    ensures r.Valid() && Reads(lens, BytesToBits(r.data)[old(r.pos)..], res, r.pos - old(r.pos))
    ensures res.Ok? ==> r.pos <= 8 * |r.data|
  {
    hide MinLen, MaxLen, PermBelow, Shorter, SymbolsOf, Entry, BytesToBits, Value, EndCode, Lead;
    ghost var bits, pos := BytesToBits(r.data), r.pos;
    ghost var s := bits[pos..];
    var l := t.minLen;
    WalkFromMin(lens, s, l);
    var v := r.Peek(l);
    LeadOfWindow(bits, pos, l);
    while l <= t.maxLen
      invariant t.minLen <= l <= t.maxLen + 1 && v == Lead(s, l)
      invariant Lead(s, l - 1) >= EndCode(lens, l - 1) && WalkAll(lens, s) == Walk(lens, t.maxLen, s, l)
      invariant r.Valid() && r.pos == pos && r.have >= 57
    {
      assert RowOf(t, lens, l);
      if v <= t.limit[l] {
        LeadGrows(s, l);
        TableHit(t, lens, l, v);
        var idx := v - t.base[l];
        if idx >= |t.perm| {
          return Err(InvalidHuffman);
        }
        var fits := r.Consume(l);
        return if fits then Ok(t.perm[idx]) else Err(Truncated);
      }
      l := l + 1;
      v := r.Peek(l);
      LeadOfWindow(bits, pos, l);
    }
    res := Err(InvalidHuffman);
  }
}
