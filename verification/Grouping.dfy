/** Grouped Huffman coding: two to six tables, one chosen for every fifty symbols. */
module Grouping {
  import opened Bits
  import opened PackageMerge
  import opened CodeLengths
  import opened Canonical

  const ENCODE_MAX: nat := 17
  const N_ITERS: nat := 4

  function GroupCount(nSyms: nat): (n: nat)
    ensures 2 <= n <= 6
  {
    if nSyms < 200 then 2 else if nSyms < 600 then 3 else if nSyms < 1200 then 4 else if nSyms < 2400 then 5 else 6
  }

  /** Symbols of a stream over an alphabet of `alpha`. */
  predicate Stream(syms: seq<nat>, alpha: nat) {
    syms != [] && 3 <= alpha <= 258 && forall k :: 0 <= k < |syms| ==> syms[k] < alpha
  }

  predicate Tables(lens: seq<seq<nat>>, alpha: nat) {
    lens != [] && forall t :: 0 <= t < |lens| ==> |lens[t]| == alpha
  }

  // ----- choosing a table for every group -----

  function Least(a: nat, b: nat): nat {
    if a < b then a else b
  }

  /** How many groups `n` symbols make. */
  function Groups(n: nat): nat {
    (n + GROUP_SIZE - 1) / GROUP_SIZE
  }

  function GroupOf(syms: seq<nat>, g: nat): seq<nat>
    requires g * GROUP_SIZE <= |syms|
  {
    syms[g * GROUP_SIZE..Least(g * GROUP_SIZE + GROUP_SIZE, |syms|)]
  }

  /** Bits a table spends on some symbols. */
  function BitCost(lens: seq<nat>, syms: seq<nat>): nat
    requires forall k :: 0 <= k < |syms| ==> syms[k] < |lens|
  {
    if syms == [] then 0 else BitCost(lens, syms[..|syms| - 1]) + lens[syms[|syms| - 1]]
  }

  /** The first of the cheapest tables among the first `t`. */
  function Cheapest(lens: seq<seq<nat>>, alpha: nat, syms: seq<nat>, t: nat): (best: nat)
    requires 1 <= t <= |lens| && Tables(lens, alpha) && forall k :: 0 <= k < |syms| ==> syms[k] < alpha
    ensures best < t
    ensures forall u :: 0 <= u < t ==> BitCost(lens[best], syms) <= BitCost(lens[u], syms)
    ensures forall u :: 0 <= u < best ==> BitCost(lens[best], syms) < BitCost(lens[u], syms)
  {
    if t == 1 then 0
    else
      var b := Cheapest(lens, alpha, syms, t - 1);
      if BitCost(lens[t - 1], syms) < BitCost(lens[b], syms) then t - 1 else b
  }

  function Chosen(lens: seq<seq<nat>>, alpha: nat, syms: seq<nat>, g: nat): (best: nat)
    requires Tables(lens, alpha) && Stream(syms, alpha) && g * GROUP_SIZE <= |syms|
    ensures best < |lens|
  {
    Cheapest(lens, alpha, GroupOf(syms, g), |lens|)
  }

  function Selectors(syms: seq<nat>, alpha: nat, lens: seq<seq<nat>>): (sel: seq<nat>)
    requires Tables(lens, alpha) && Stream(syms, alpha)
    ensures |sel| == Groups(|syms|)
    ensures forall g :: 0 <= g < |sel| ==> g * GROUP_SIZE <= |syms| && sel[g] == Chosen(lens, alpha, syms, g)
  {
    seq(Groups(|syms|), g requires 0 <= g < Groups(|syms|) => Chosen(lens, alpha, syms, g))
  }

  method GroupCost(lens: seq<nat>, syms: seq<nat>) returns (cost: nat)
    requires forall k :: 0 <= k < |syms| ==> syms[k] < |lens|
    ensures cost == BitCost(lens, syms)
  {
    cost := 0;
    var i := 0;
    while i < |syms|
      invariant 0 <= i <= |syms| && cost == BitCost(lens, syms[..i])
    {
      assert syms[..i + 1][..i] == syms[..i];
      cost := cost + lens[syms[i]];
      i := i + 1;
    }
    assert syms[..i] == syms;
  }

  /** Every group of symbols gets its cheapest table, the first of several. */
  method AssignSelectors(syms: seq<nat>, alpha: nat, lens: seq<seq<nat>>) returns (selectors: seq<nat>)
    requires Tables(lens, alpha) && Stream(syms, alpha)
    ensures selectors == Selectors(syms, alpha, lens)
  {
    hide BitCost, Cheapest;
    selectors := [];
    var start := 0;
    while start < |syms|
      invariant start == |selectors| * GROUP_SIZE && |selectors| <= Groups(|syms|)
      invariant forall g :: 0 <= g < |selectors| ==> selectors[g] == Selectors(syms, alpha, lens)[g]
      decreases |syms| - start
    {
      var end := Least(start + GROUP_SIZE, |syms|);
      var group := syms[start..end];
      var best, bestCost := 0, 0;
      var t := 0;
      while t < |lens|
        invariant t <= |lens|
        invariant t > 0 ==> best == Cheapest(lens, alpha, group, t) && bestCost == BitCost(lens[best], group)
      {
        var cost := GroupCost(lens[t], group);
        if t == 0 || cost < bestCost {
          best, bestCost := t, cost;
        }
        t := t + 1;
      }
      assert group == GroupOf(syms, |selectors|);
      selectors := selectors + [best];
      start := start + GROUP_SIZE;
    }
  }

  /** Total bits of a stream under some choice of tables. */
  function StreamCost(syms: seq<nat>, alpha: nat, lens: seq<seq<nat>>, sel: seq<nat>, g: nat): nat
    requires Tables(lens, alpha) && Stream(syms, alpha) && g <= |sel| == Groups(|syms|)
    requires forall i :: 0 <= i < |sel| ==> sel[i] < |lens|
  {
    if g == 0 then 0 else StreamCost(syms, alpha, lens, sel, g - 1) + BitCost(lens[sel[g - 1]], GroupOf(syms, g - 1))
  }

  /** For fixed tables no other choice of selectors makes the stream shorter. */
  lemma {:induction false} SelectorsOptimal(syms: seq<nat>, alpha: nat, lens: seq<seq<nat>>, other: seq<nat>, g: nat)
    requires Tables(lens, alpha) && Stream(syms, alpha) && g <= |other| == Groups(|syms|)
    requires forall i :: 0 <= i < |other| ==> other[i] < |lens|
    ensures StreamCost(syms, alpha, lens, Selectors(syms, alpha, lens), g) <= StreamCost(syms, alpha, lens, other, g)
  {
    hide BitCost, GroupOf;
    if g > 0 {
      SelectorsOptimal(syms, alpha, lens, other, g - 1);
      assert Selectors(syms, alpha, lens)[g - 1] == Chosen(lens, alpha, syms, g - 1);
    }
  }

  // ----- refining the tables -----

  function CountIn(syms: seq<nat>, s: nat): nat {
    if syms == [] then 0 else CountIn(syms[..|syms| - 1], s) + if syms[|syms| - 1] == s then 1 else 0
  }

  /** How often `s` occurs in the first `g` groups, among those that chose table `t`. */
  function Frequency(syms: seq<nat>, sel: seq<nat>, t: nat, s: nat, g: nat): nat
    requires g <= |sel| == Groups(|syms|)
  {
    if g == 0 then 0
    else Frequency(syms, sel, t, s, g - 1) + if sel[g - 1] == t then CountIn(GroupOf(syms, g - 1), s) else 0
  }

  function Positive(f: nat): nat {
    if f < 1 then 1 else f
  }

  function Weights(syms: seq<nat>, alpha: nat, sel: seq<nat>, t: nat): (w: seq<nat>)
    requires |sel| == Groups(|syms|)
    ensures |w| == alpha && forall s :: 0 <= s < alpha ==> w[s] == Positive(Frequency(syms, sel, t, s, |sel|))
  {
    seq(alpha, s requires 0 <= s < alpha => Positive(Frequency(syms, sel, t, s, |sel|)))
  }

  lemma AlphabetAdmissible(weights: seq<nat>)
    requires 3 <= |weights| <= 258
    ensures Admissible(weights, ENCODE_MAX) && |weights| * ENCODE_MAX <= NONE
  {
    Pow2Mono(10, ENCODE_MAX);
    Pow2Small();
  }

  /** One pass: every table becomes optimal for the groups that chose it. */
  function Refined(syms: seq<nat>, alpha: nat, lens: seq<seq<nat>>): (r: seq<seq<nat>>)
    requires Tables(lens, alpha) && Stream(syms, alpha)
    ensures |r| == |lens| && Tables(r, alpha)
    ensures forall t :: 0 <= t < |r| ==>
      Admissible(Weights(syms, alpha, Selectors(syms, alpha, lens), t), ENCODE_MAX) &&
      r[t] == PackageLengths(Weights(syms, alpha, Selectors(syms, alpha, lens), t), ENCODE_MAX)
  {
    var sel := Selectors(syms, alpha, lens);
    assert forall t: nat :: Admissible(Weights(syms, alpha, sel, t), ENCODE_MAX) by {
      forall t: nat ensures Admissible(Weights(syms, alpha, sel, t), ENCODE_MAX) {
        AlphabetAdmissible(Weights(syms, alpha, sel, t));
      }
    }
    seq(|lens|, t requires 0 <= t < |lens| => PackageLengths(Weights(syms, alpha, sel, t), ENCODE_MAX))
  }

  function RefinedTimes(syms: seq<nat>, alpha: nat, lens: seq<seq<nat>>, k: nat): (r: seq<seq<nat>>)
    requires Tables(lens, alpha) && Stream(syms, alpha)
    ensures |r| == |lens| && Tables(r, alpha)
    decreases k, syms
  {
    if k == 0 then lens else Refined(syms, alpha, RefinedTimes(syms, alpha, lens, k - 1))
  }

  /** A refined table has lengths 1 to 17 and a Kraft sum of exactly one. */
  lemma RefinedComplete(syms: seq<nat>, alpha: nat, lens: seq<seq<nat>>, t: nat)
    requires Tables(lens, alpha) && Stream(syms, alpha) && t < |lens|
    ensures Prefixable(Refined(syms, alpha, lens)[t], ENCODE_MAX)
    ensures Kraft(Refined(syms, alpha, lens)[t], ENCODE_MAX) == Pow2(ENCODE_MAX)
  {
    var w := Weights(syms, alpha, Selectors(syms, alpha, lens), t);
    KraftIsOne(w, ENCODE_MAX);
    forall s | 0 <= s < |w| ensures 1 <= PackageLengths(w, ENCODE_MAX)[s] <= ENCODE_MAX {
      LengthsInRange(w, ENCODE_MAX, s);
    }
  }
}
