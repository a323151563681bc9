/** Canonical prefix codes, and decoding them bit by bit.

    A length vector gives each symbol a code length; the shorter a symbol's code, and among codes of one
    length the smaller the symbol, the smaller the number it gets. The walk below reads one more bit at a time
    until the bits read are below `EndCode`, the number after the last code of that length.
    It is defined on every length vector, over- and under-subscribed ones included, and on
    every bit string: bits past the end count as zero.
 */
module Canonical {
  import opened Bits
  import opened PackageMerge

  /** So many symbols are coded with one table before the next one is selected. */
  const GROUP_SIZE: nat := 50

  /** Lengths the decoder accepts for one table. */
  predicate ValidLengths(lens: seq<nat>) {
    lens != [] && forall s :: 0 <= s < |lens| ==> 1 <= lens[s] <= 20
  }

  /** The symbols of length `l`, ascending. */
  function SymbolsOf(lens: seq<nat>, l: nat): seq<nat> {
    if lens == [] then []
    else SymbolsOf(lens[..|lens| - 1], l) + if lens[|lens| - 1] == l then [|lens| - 1] else []
  }

  lemma {:induction false} SymbolsIn(lens: seq<nat>, l: nat, k: nat)
    requires k < |SymbolsOf(lens, l)|
    ensures SymbolsOf(lens, l)[k] < |lens| && lens[SymbolsOf(lens, l)[k]] == l
  {
    var n := |lens| - 1;
    if k < |SymbolsOf(lens[..n], l)| { SymbolsIn(lens[..n], l, k); }
  }

  function CountLen(lens: seq<nat>, l: nat): nat {
    |SymbolsOf(lens, l)|
  }

  /** How many symbols have a length below `l`. */
  function Shorter(lens: seq<nat>, l: nat): nat {
    if l == 0 then 0 else Shorter(lens, l - 1) + CountLen(lens, l - 1)
  }

  /** One more than the last code of length `l`. */
  function EndCode(lens: seq<nat>, l: nat): nat {
    if l == 0 then 0 else 2 * EndCode(lens, l - 1) + CountLen(lens, l)
  }

  /** The first code of length `l`. */
  function FirstCode(lens: seq<nat>, l: nat): nat
    requires l >= 1
  {
    2 * EndCode(lens, l - 1)
  }

  /** How many symbols below `s` share its length. */
  function Rank(lens: seq<nat>, s: nat): nat
    requires s < |lens|
  {
    CountLen(lens[..s], lens[s])
  }

  function Code(lens: seq<nat>, s: nat): nat
    requires s < |lens| && lens[s] >= 1
  {
    FirstCode(lens, lens[s]) + Rank(lens, s)
  }

  function CodeBits(lens: seq<nat>, s: nat): (b: seq<bit>)
    requires s < |lens| && lens[s] >= 1
    ensures |b| == lens[s]
  {
    ToBits(Code(lens, s), lens[s])
  }

  function MaxLen(lens: seq<nat>): (m: nat)
    ensures forall s :: 0 <= s < |lens| ==> lens[s] <= m
    ensures lens != [] ==> m in lens
  {
    if lens == [] then 0
    else
      var r := MaxLen(lens[..|lens| - 1]);
      assert lens == lens[..|lens| - 1] + [lens[|lens| - 1]];
      if lens[|lens| - 1] > r || |lens| == 1 then lens[|lens| - 1] else r
  }

  function MinLen(lens: seq<nat>): (m: nat)
    requires lens != []
    ensures forall s :: 0 <= s < |lens| ==> m <= lens[s]
    ensures m in lens
  {
    if |lens| == 1 then lens[0]
    else
      var r := MinLen(lens[..|lens| - 1]);
      assert lens == lens[..|lens| - 1] + [lens[|lens| - 1]];
      if lens[|lens| - 1] < r then lens[|lens| - 1] else r
  }

  datatype Walked = Found(sym: nat, len: nat) | Nowhere

  /** The number formed by the first `l` bits, zero bits standing in past the end. */
  function Lead(s: seq<bit>, l: nat): (v: nat)
    ensures v < Pow2(l)
  {
    Value(Window(s, 0, l))
  }

  /** The walk from length `l` on, through lengths up to `max`. */
  function Walk(lens: seq<nat>, max: nat, s: seq<bit>, l: nat): (r: Walked)
    requires l >= 1 && Lead(s, l - 1) >= EndCode(lens, l - 1)
    ensures r.Found? ==> r.sym < |lens| && l <= r.len == lens[r.sym] <= max
    decreases max + 1 - l
  {
    if l > max then Nowhere
    else if Lead(s, l) < EndCode(lens, l) then
      LeadGrows(s, l);
      SymbolsIn(lens, l, Lead(s, l) - FirstCode(lens, l));
      Found(SymbolsOf(lens, l)[Lead(s, l) - FirstCode(lens, l)], l)
    else Walk(lens, max, s, l + 1)
  }

  /** Length `l` does not stop the walk. */
  ghost predicate Passed(lens: seq<nat>, s: seq<bit>, l: nat) {
    Lead(s, l) >= EndCode(lens, l)
  }

  /** The walk stops at the first length that is not passed. */
  lemma {:induction false} WalkStops(lens: seq<nat>, max: nat, s: seq<bit>, l: nat, m: nat)
    requires 1 <= l <= m <= max && (forall k :: l - 1 <= k < m ==> Passed(lens, s, k)) && !Passed(lens, s, m)
    ensures Passed(lens, s, l - 1)
    ensures FirstCode(lens, m) <= Lead(s, m) < FirstCode(lens, m) + CountLen(lens, m)
    ensures Walk(lens, max, s, l) == Found(SymbolsOf(lens, m)[Lead(s, m) - FirstCode(lens, m)], m)
    decreases m - l
  {
    assert Passed(lens, s, l - 1);
    if l < m {
      assert Passed(lens, s, l);
      WalkStops(lens, max, s, l + 1, m);
    } else {
      LeadGrows(s, l);
    }
  }

  function WalkAll(lens: seq<nat>, s: seq<bit>): Walked {
    Walk(lens, MaxLen(lens), s, 1)
  }

  lemma LeadGrows(s: seq<bit>, l: nat)
    requires l >= 1
    ensures 2 * Lead(s, l - 1) <= Lead(s, l) <= 2 * Lead(s, l - 1) + 1
  {
    WindowPrefix(s, 0, l, l - 1);
  }

  lemma {:induction false} LeadShift(s: seq<bit>, l: nat, m: nat)
    requires l <= m
    ensures Lead(s, l) == Lead(s, m) / Pow2(m - l)
  {
    WindowPrefix(s, 0, m, l);
    ValueSplit(Window(s, 0, m), l);
  }

  // ----- counting symbols -----

  lemma {:induction false} SymbolsAscend(lens: seq<nat>, l: nat, a: nat, b: nat)
    requires a < b < CountLen(lens, l)
    ensures SymbolsOf(lens, l)[a] < SymbolsOf(lens, l)[b]
  {
    var n := |lens| - 1;
    if b < CountLen(lens[..n], l) { SymbolsAscend(lens[..n], l, a, b); } else { SymbolsIn(lens[..n], l, a); }
  }

  /** The symbol of rank `Rank(lens, s)` among those of its length is `s`. */
  lemma {:induction false} RankFinds(lens: seq<nat>, s: nat)
    requires s < |lens|
    ensures Rank(lens, s) < CountLen(lens, lens[s])
    ensures SymbolsOf(lens, lens[s])[Rank(lens, s)] == s
  {
    var n := |lens| - 1;
    if s < n {
      RankFinds(lens[..n], s);
      assert lens[..n][..s] == lens[..s];
    }
  }

  lemma {:induction false} EndCodeGrows(lens: seq<nat>, l: nat, m: nat)
    requires l <= m
    ensures EndCode(lens, l) <= EndCode(lens, m)
    decreases m - l
  {
    if l < m { EndCodeGrows(lens, l, m - 1); }
  }

  lemma RankAscends(lens: seq<nat>, a: nat, b: nat)
    requires a < b < |lens| && lens[a] == lens[b]
    ensures Rank(lens, a) < Rank(lens, b)
  {
    hide Rank, SymbolsOf;
    RankFinds(lens, a);
    RankFinds(lens, b);
    if Rank(lens, b) < Rank(lens, a) { SymbolsAscend(lens, lens[a], Rank(lens, b), Rank(lens, a)); }
  }

  lemma CodeBelow(lens: seq<nat>, a: nat, b: nat)
    requires a < |lens| && b < |lens| && 1 <= lens[a] && 1 <= lens[b]
    requires lens[a] < lens[b] || (lens[a] == lens[b] && a < b)
    ensures Code(lens, a) < Code(lens, b)
  {
    hide Rank, EndCode;
    if lens[a] == lens[b] {
      RankAscends(lens, a, b);
    } else {
      RankFinds(lens, a);
      EndCodeAt(lens, lens[a]);
      EndCodeGrows(lens, lens[a], lens[b] - 1);
    }
  }

  /** Numbers are handed out by length first and then by symbol, on every length vector. */
  lemma CodesAscend(lens: seq<nat>, a: nat, b: nat)
    requires a < |lens| && b < |lens| && 1 <= lens[a] && 1 <= lens[b]
    ensures Code(lens, a) < Code(lens, b) <==> lens[a] < lens[b] || (lens[a] == lens[b] && a < b)
  {
    hide Code;
    if lens[a] < lens[b] || (lens[a] == lens[b] && a < b) {
      CodeBelow(lens, a, b);
    } else if a != b {
      CodeBelow(lens, b, a);
    }
  }

  lemma EndCodeAt(lens: seq<nat>, l: nat)
    requires l >= 1
    ensures EndCode(lens, l) == FirstCode(lens, l) + CountLen(lens, l)
  {
  }

  lemma ScaleStep(e: nat, p: nat, x: nat)
    requires e * p <= x
    ensures e * (2 * p) <= 2 * x
  {
    assert e * (2 * p) == 2 * (e * p);
  }

  lemma CancelScale(a: nat, b: nat, p: nat)
    requires p > 0 && a * p <= b * p
    ensures a <= b
  {
    if a > b { MulMono(b + 1, a, p); }
  }

  lemma {:induction false} EndCodeDoubles(lens: seq<nat>, l: nat, m: nat)
    requires l <= m
    ensures EndCode(lens, l) * Pow2(m - l) <= EndCode(lens, m)
    decreases m
  {
    if l < m {
      EndCodeDoubles(lens, l, m - 1);
      ScaleStep(EndCode(lens, l), Pow2(m - 1 - l), EndCode(lens, m - 1));
    }
  }

  // ----- Kraft -----

  /** Kraft sum in units of 2^-l of the symbols of length at most `l`. */
  ghost function KraftUpTo(lens: seq<nat>, l: nat): nat {
    if lens == [] then 0
    else KraftUpTo(lens[..|lens| - 1], l) + if lens[|lens| - 1] <= l then Pow2(l - lens[|lens| - 1]) else 0
  }

  lemma {:induction false} KraftUpToStep(lens: seq<nat>, l: nat)
    requires l >= 1
    ensures KraftUpTo(lens, l) == 2 * KraftUpTo(lens, l - 1) + CountLen(lens, l)
  {
    if lens != [] { KraftUpToStep(lens[..|lens| - 1], l); }
  }

  lemma {:induction false} KraftUpToZero(lens: seq<nat>)
    requires forall s :: 0 <= s < |lens| ==> lens[s] >= 1
    ensures KraftUpTo(lens, 0) == 0
  {
    if lens != [] { KraftUpToZero(lens[..|lens| - 1]); }
  }

  lemma {:induction false} EndCodeIsKraft(lens: seq<nat>, l: nat)
    requires forall s :: 0 <= s < |lens| ==> lens[s] >= 1
    ensures EndCode(lens, l) == KraftUpTo(lens, l)
  {
    if l == 0 {
      KraftUpToZero(lens);
    } else {
      EndCodeIsKraft(lens, l - 1);
      KraftUpToStep(lens, l);
    }
  }

  lemma {:induction false} KraftUpToAll(lens: seq<nat>, limit: nat)
    requires forall s :: 0 <= s < |lens| ==> lens[s] <= limit
    ensures KraftUpTo(lens, limit) == Kraft(lens, limit)
  {
    if lens != [] {
      var n := |lens| - 1;
      KraftUpToAll(lens[..n], limit);
      assert Shares(lens, limit)[..n] == Shares(lens[..n], limit);
    }
  }

  /** Lengths from 1 to `limit` that satisfy the Kraft inequality. */
  predicate Prefixable(lens: seq<nat>, limit: nat) {
    (forall s :: 0 <= s < |lens| ==> 1 <= lens[s] <= limit) && Kraft(lens, limit) <= Pow2(limit)
  }

  lemma EndCodeAtLimit(lens: seq<nat>, limit: nat)
    requires Prefixable(lens, limit)
    ensures EndCode(lens, limit) <= Pow2(limit)
  {
    EndCodeIsKraft(lens, limit);
    KraftUpToAll(lens, limit);
  }

  lemma EndCodeFits(lens: seq<nat>, limit: nat, l: nat)
    requires Prefixable(lens, limit) && l <= limit
    ensures EndCode(lens, l) <= Pow2(l)
  {
    EndCodeAtLimit(lens, limit);
    var rest := limit - l;
    EndCodeDoubles(lens, l, limit);
    Pow2Add(l, rest);
    assert l + rest == limit;
    CancelChain(EndCode(lens, l), Pow2(l), Pow2(rest), EndCode(lens, limit));
  }

  lemma CancelChain(a: nat, b: nat, p: nat, x: nat)
    requires p > 0 && a * p <= x <= b * p
    ensures a <= b
  {
    CancelScale(a, b, p);
  }

  /** Without any Kraft assumption, code ends stay far inside 32 bits. */
  lemma {:induction false} EndCodeBound(lens: seq<nat>, l: nat)
    requires ValidLengths(lens) && |lens| <= 258 && l <= 20
    ensures 2 * EndCode(lens, l) < 0x8000_0000
  {
    EndCodeIsKraft(lens, l);
    KraftUpToBound(lens, l);
    Pow2Mono(l, 20);
    Pow2Add(10, 10);
    Pow2Small();
    MulMono(|lens|, 258, Pow2(l));
  }

  lemma {:induction false} KraftUpToBound(lens: seq<nat>, l: nat)
    ensures KraftUpTo(lens, l) <= |lens| * Pow2(l)
  {
    if lens != [] {
      var n := |lens| - 1;
      KraftUpToBound(lens[..n], l);
      if lens[n] <= l { Pow2Mono(l - lens[n], l); }
      DistributeRight(n, 1, Pow2(l));
    }
  }

  lemma {:induction false} DistributeRight(a: nat, b: nat, c: nat)
    ensures (a + b) * c == a * c + b * c
  {
  }

  // ----- encoding then decoding one symbol -----

  lemma CodeInRange(lens: seq<nat>, limit: nat, s: nat)
    requires Prefixable(lens, limit) && s < |lens|
    ensures FirstCode(lens, lens[s]) <= Code(lens, s) < EndCode(lens, lens[s]) <= Pow2(lens[s])
  {
    RankFinds(lens, s);
    EndCodeFits(lens, limit, lens[s]);
  }

  lemma LeadOfBits(v: nat, l: nat, t: seq<bit>)
    requires v < Pow2(l)
    ensures Lead(ToBits(v, l) + t, l) == v
  {
    var b := ToBits(v, l);
    WindowInside(b + t, 0, l);
    assert (b + t)[..l] == b;
    ToBitsValue(v, l);
    DivModUnique(v, Pow2(l), 0, v);
  }

  lemma LeadOfCode(lens: seq<nat>, limit: nat, s: nat, t: seq<bit>)
    requires Prefixable(lens, limit) && s < |lens|
    ensures Lead(CodeBits(lens, s) + t, lens[s]) == Code(lens, s)
  {
    CodeInRange(lens, limit, s);
    LeadOfBits(Code(lens, s), lens[s], t);
  }

  lemma QuotientAtLeast(x: nat, d: nat, e: nat)
    requires d > 0 && e * d <= x
    ensures x / d >= e
  {
    var q := x / d;
    if q < e { MulMono(q + 1, e, d); }
  }

  /** Code ends double, so a code of length `m` is not below the end of any shorter length. */
  lemma FirstCodeBeyond(lens: seq<nat>, l: nat, m: nat)
    requires l < m
    ensures EndCode(lens, l) * Pow2(m - l) <= FirstCode(lens, m)
  {
    EndCodeDoubles(lens, l, m - 1);
    ScaleStep(EndCode(lens, l), Pow2(m - 1 - l), EndCode(lens, m - 1));
  }

  lemma NotBefore(lens: seq<nat>, limit: nat, s: nat, t: seq<bit>, l: nat)
    requires Prefixable(lens, limit) && s < |lens| && l < lens[s]
    ensures Lead(CodeBits(lens, s) + t, l) >= EndCode(lens, l)
  {
    var m := lens[s];
    LeadOfCode(lens, limit, s, t);
    LeadShift(CodeBits(lens, s) + t, l, m);
    CodeInRange(lens, limit, s);
    FirstCodeBeyond(lens, l, m);
    QuotientAtLeast(Code(lens, s), Pow2(m - l), EndCode(lens, l));
  }

  /** Whatever follows it, a canonical code decodes to its symbol and its length. */
  lemma CodeDecodes(lens: seq<nat>, limit: nat, s: nat, t: seq<bit>)
    requires Prefixable(lens, limit) && s < |lens|
    ensures WalkAll(lens, CodeBits(lens, s) + t) == Found(s, lens[s])
  {
    hide CodeBits, Lead, SymbolsOf, Kraft, EndCode;
    var b := CodeBits(lens, s) + t;
    forall k | 0 <= k < lens[s] ensures Passed(lens, b, k) { NotBefore(lens, limit, s, t, k); }
    LeadOfCode(lens, limit, s, t);
    CodeInRange(lens, limit, s);
    RankFinds(lens, s);
    WalkStops(lens, MaxLen(lens), b, 1, lens[s]);
  }

  /** Canonical codes are prefix-free. */
  lemma PrefixFree(lens: seq<nat>, limit: nat, a: nat, b: nat)
    requires Prefixable(lens, limit) && a < |lens| && b < |lens|
    requires CodeBits(lens, a) <= CodeBits(lens, b)
    ensures a == b
  {
    var t := CodeBits(lens, b)[lens[a]..];
    assert CodeBits(lens, a) + t == CodeBits(lens, b) + [];
    CodeDecodes(lens, limit, a, t);
    CodeDecodes(lens, limit, b, []);
  }

  // ----- extending the input -----

  /** Zero padding is the smallest continuation: real bits can only raise the lead. */
  lemma {:induction false} LeadOfExtension(s: seq<bit>, t: seq<bit>, l: nat)
    ensures Lead(s + t, l) >= Lead(s, l)
    ensures l <= |s| ==> Lead(s + t, l) == Lead(s, l)
  {
    if l <= |s| {
      assert Window(s + t, 0, l) == Window(s, 0, l);
    } else if l > 0 {
      LeadOfExtension(s, t, l - 1);
      WindowPrefix(s, 0, l, l - 1);
      WindowPrefix(s + t, 0, l, l - 1);
    }
  }

  /** A symbol found inside the input, or no symbol at all, is the same on every extension. */
  lemma {:induction false} WalkExtends(lens: seq<nat>, max: nat, s: seq<bit>, t: seq<bit>, l: nat)
    requires l >= 1 && Lead(s, l - 1) >= EndCode(lens, l - 1)
    requires var r := Walk(lens, max, s, l); r.Found? ==> r.len <= |s|
    ensures Lead(s + t, l - 1) >= EndCode(lens, l - 1)
    ensures Walk(lens, max, s + t, l) == Walk(lens, max, s, l)
    decreases max + 1 - l
  {
    LeadOfExtension(s, t, l - 1);
    if l <= max {
      LeadOfExtension(s, t, l);
      if Lead(s, l) >= EndCode(lens, l) { WalkExtends(lens, max, s, t, l + 1); }
    }
  }
}
