/** What the coding of a block costs in bits: the choices of tables and lengths are the best for the symbols as they
    are written.
 */
module Sizes {
  import opened PackageMerge
  import opened CodeLengths
  import opened Canonical
  import opened Grouping
  import opened HuffmanBuild
  import opened BlockWritten

  // ----- the symbols as written -----

  lemma {:induction false} BitCostFirst(lens: seq<nat>, syms: seq<nat>)
    requires syms != [] && forall k :: 0 <= k < |syms| ==> syms[k] < |lens|
    ensures BitCost(lens, syms) == lens[syms[0]] + BitCost(lens, syms[1..])
  {
    var n := |syms| - 1;
    if n > 0 {
      BitCostFirst(lens, syms[..n]);
      assert syms[..n][1..] == syms[1..][..n - 1];
    }
  }

  lemma NoSymbols(lens: seq<nat>)
    ensures BitCost(lens, []) == 0
  {
  }

  /** From inside a group to its end. */
  lemma {:induction false} GroupSize(syms: seq<nat>, lens: seq<seq<nat>>, sel: seq<nat>, g: nat, k: nat, end: nat)
    requires Coded(syms, lens, sel) && g < |sel| && g * GROUP_SIZE <= k <= end <= |syms|
      && end <= g * GROUP_SIZE + GROUP_SIZE
    ensures forall i :: 0 <= i < |syms[k..end]| ==> syms[k..end][i] < |lens[sel[g]]|
    ensures |SymbolBits(syms, lens, sel, k)| == BitCost(lens[sel[g]], syms[k..end]) + |SymbolBits(syms, lens, sel, end)|
    decreases end - k
  {
    hide BitCost, CodeBits, Prefixable;
    if k < end {
      assert k / GROUP_SIZE == g;
      GroupSize(syms, lens, sel, g, k + 1, end);
      BitCostFirst(lens[sel[g]], syms[k..end]);
      assert syms[k..end][1..] == syms[k + 1..end];
    } else {
      NoSymbols(lens[sel[g]]);
    }
  }

  lemma {:induction false} BitsFromGroup(syms: seq<nat>, alpha: nat, lens: seq<seq<nat>>, sel: seq<nat>, g: nat)
    requires Coded(syms, lens, sel) && Tables(lens, alpha) && Stream(syms, alpha) && g <= |sel|
    ensures |SymbolBits(syms, lens, sel, Least(g * GROUP_SIZE, |syms|))| + StreamCost(syms, alpha, lens, sel, g)
      == StreamCost(syms, alpha, lens, sel, |sel|)
    decreases |sel| - g
  {
    hide SymbolBits, BitCost, Prefixable;
    if g < |sel| {
      BitsFromGroup(syms, alpha, lens, sel, g + 1);
      var start := g * GROUP_SIZE;
      GroupSize(syms, lens, sel, g, start, Least(start + GROUP_SIZE, |syms|));
    } else {
      NoMoreBits(syms, lens, sel);
    }
  }

  lemma NoMoreBits(syms: seq<nat>, lens: seq<seq<nat>>, sel: seq<nat>)
    requires Coded(syms, lens, sel)
    ensures SymbolBits(syms, lens, sel, |syms|) == []
  {
  }

  /** The cost that selectors are chosen by is the number of bits that the symbols take up. */
  lemma StreamCostIsBits(syms: seq<nat>, alpha: nat, lens: seq<seq<nat>>, sel: seq<nat>)
    requires Coded(syms, lens, sel) && Tables(lens, alpha) && Stream(syms, alpha)
    ensures StreamCost(syms, alpha, lens, sel, |sel|) == |SymbolBits(syms, lens, sel, 0)|
  {
    hide SymbolBits, BitCost, Prefixable;
    BitsFromGroup(syms, alpha, lens, sel, 0);
  }

  /** For fixed tables no other selectors make the symbols take up fewer bits. */
  lemma SelectorsShortest(syms: seq<nat>, alpha: nat, lens: seq<seq<nat>>, other: seq<nat>)
    requires Coded(syms, lens, other) && Tables(lens, alpha) && Stream(syms, alpha)
    ensures Coded(syms, lens, Selectors(syms, alpha, lens))
    ensures |SymbolBits(syms, lens, Selectors(syms, alpha, lens), 0)| <= |SymbolBits(syms, lens, other, 0)|
  {
    var sel := Selectors(syms, alpha, lens);
    StreamCostIsBits(syms, alpha, lens, other);
    StreamCostIsBits(syms, alpha, lens, sel);
    SelectorsOptimal(syms, alpha, lens, other, |other|);
  }

  // ----- a table for the groups that chose it -----

  lemma {:induction false} CostAdds(w: seq<nat>, a: seq<nat>, b: seq<nat>, lens: seq<nat>)
    requires |w| == |a| == |b| == |lens| && forall s :: 0 <= s < |w| ==> w[s] == a[s] + b[s]
    ensures Cost(w, lens) == Cost(a, lens) + Cost(b, lens)
    decreases |w|
  {
    if w != [] {
      var n := |w| - 1;
      CostAdds(w[..n], a[..n], b[..n], lens[..n]);
      CostLast(w, lens);
      CostLast(a, lens);
      CostLast(b, lens);
      MulAdds(a[n], b[n], lens[n]);
    }
  }

  lemma CostLast(w: seq<nat>, lens: seq<nat>)
    requires |w| == |lens| > 0
    ensures var n := |w| - 1; Cost(w, lens) == Cost(w[..n], lens[..n]) + w[n] * lens[n]
  {
    var n := |w| - 1;
    assert Products(w, lens)[..n] == Products(w[..n], lens[..n]);
  }

  lemma MulAdds(a: nat, b: nat, c: nat)
    ensures (a + b) * c == a * c + b * c
  {
  }

  function Unit(alpha: nat, x: nat): (u: seq<nat>)
    ensures |u| == alpha && forall s :: 0 <= s < alpha ==> u[s] == if s == x then 1 else 0
  {
    seq(alpha, s requires 0 <= s < alpha => if s == x then 1 else 0)
  }

  lemma {:induction false} CostOfUnit(alpha: nat, x: nat, lens: seq<nat>)
    requires |lens| == alpha
    ensures Cost(Unit(alpha, x), lens) == if x < alpha then lens[x] else 0
    decreases alpha
  {
    if alpha > 0 {
      CostLast(Unit(alpha, x), lens);
      assert Unit(alpha, x)[..alpha - 1] == Unit(alpha - 1, x);
      CostOfUnit(alpha - 1, x, lens[..alpha - 1]);
    }
  }

  /** Counting symbols and weighing the counts is adding up the lengths symbol by symbol. */
  lemma {:induction false} CostOfCounts(syms: seq<nat>, lens: seq<nat>)
    requires forall k :: 0 <= k < |syms| ==> syms[k] < |lens|
    ensures Cost(Histogram(syms, |lens|), lens) == BitCost(lens, syms)
  {
    if syms == [] {
      assert Histogram([], |lens|) == Unit(|lens|, |lens|);
      CostOfUnit(|lens|, |lens|, lens);
    } else {
      var n := |syms| - 1;
      CostOfCounts(syms[..n], lens);
      CostOfUnit(|lens|, syms[n], lens);
      CostAdds(Histogram(syms, |lens|), Histogram(syms[..n], |lens|), Unit(|lens|, syms[n]), lens);
    }
  }

  /** The bits that the groups which chose table `t`, among the first `g`, take up with the lengths `lens`. */
  function GroupsCost(syms: seq<nat>, lens: seq<nat>, sel: seq<nat>, t: nat, g: nat): nat
    requires g <= |sel| == Groups(|syms|) && forall k :: 0 <= k < |syms| ==> syms[k] < |lens|
  {
    if g == 0 then 0
    else GroupsCost(syms, lens, sel, t, g - 1) + if sel[g - 1] == t then BitCost(lens, GroupOf(syms, g - 1)) else 0
  }

  function Counts(syms: seq<nat>, alpha: nat, sel: seq<nat>, t: nat, g: nat): (c: seq<nat>)
    requires g <= |sel| == Groups(|syms|)
    ensures |c| == alpha && forall s :: 0 <= s < alpha ==> c[s] == Frequency(syms, sel, t, s, g)
  {
    seq(alpha, s requires 0 <= s < alpha => Frequency(syms, sel, t, s, g))
  }

  lemma {:induction false} CostOfFrequencies(syms: seq<nat>, lens: seq<nat>, sel: seq<nat>, t: nat, g: nat)
    requires g <= |sel| == Groups(|syms|) && forall k :: 0 <= k < |syms| ==> syms[k] < |lens|
    ensures Cost(Counts(syms, |lens|, sel, t, g), lens) == GroupsCost(syms, lens, sel, t, g)
    decreases g
  {
    var alpha := |lens|;
    if g == 0 {
      assert Counts(syms, alpha, sel, t, 0) == Unit(alpha, alpha);
      CostOfUnit(alpha, alpha, lens);
    } else {
      CostOfFrequencies(syms, lens, sel, t, g - 1);
      if sel[g - 1] == t {
        CostOfCounts(GroupOf(syms, g - 1), lens);
        CostAdds(Counts(syms, alpha, sel, t, g), Counts(syms, alpha, sel, t, g - 1),
                 Histogram(GroupOf(syms, g - 1), alpha), lens);
      } else {
        assert Counts(syms, alpha, sel, t, g) == Counts(syms, alpha, sel, t, g - 1);
      }
    }
  }

  /** One use each of the symbols that none of those groups has. */
  function Absent(syms: seq<nat>, alpha: nat, sel: seq<nat>, t: nat): (a: seq<nat>)
    requires |sel| == Groups(|syms|)
    ensures |a| == alpha
    ensures forall s :: 0 <= s < alpha ==> a[s] == if Frequency(syms, sel, t, s, |sel|) == 0 then 1 else 0
  {
    seq(alpha, s requires 0 <= s < alpha => if Frequency(syms, sel, t, s, |sel|) == 0 then 1 else 0)
  }

  lemma CostOfWeights(syms: seq<nat>, lens: seq<nat>, sel: seq<nat>, t: nat)
    requires |sel| == Groups(|syms|) && forall k :: 0 <= k < |syms| ==> syms[k] < |lens|
    ensures Cost(Weights(syms, |lens|, sel, t), lens)
      == GroupsCost(syms, lens, sel, t, |sel|) + Cost(Absent(syms, |lens|, sel, t), lens)
  {
    CostOfFrequencies(syms, lens, sel, t, |sel|);
    CostAdds(Weights(syms, |lens|, sel, t), Counts(syms, |lens|, sel, t, |sel|), Absent(syms, |lens|, sel, t), lens);
  }

  /** A refined table makes the groups that chose it, and one use each of the symbols they do not have, as short as
      lengths up to 17 under the Kraft inequality can. */
  lemma RefinedShortest(syms: seq<nat>, alpha: nat, lens: seq<seq<nat>>, t: nat, other: seq<nat>)
    requires Tables(lens, alpha) && Stream(syms, alpha) && t < |lens|
    requires Prefixable(other, ENCODE_MAX) && |other| == alpha
    ensures var sel, row := Selectors(syms, alpha, lens), Refined(syms, alpha, lens)[t];
      GroupsCost(syms, row, sel, t, |sel|) + Cost(Absent(syms, alpha, sel, t), row)
        <= GroupsCost(syms, other, sel, t, |sel|) + Cost(Absent(syms, alpha, sel, t), other)
  {
    var sel, row := Selectors(syms, alpha, lens), Refined(syms, alpha, lens)[t];
    Optimal(Weights(syms, alpha, sel, t), ENCODE_MAX, other);
    CostOfWeights(syms, row, sel, t);
    CostOfWeights(syms, other, sel, t);
  }
}
