/** Building one block's coding: seed tables, four refinement passes, final selectors and codes. */
module HuffmanBuild {
  import opened Bits
  import opened Permutations
  import opened PackageMerge
  import opened CodeLengths
  import opened Canonical
  import opened TableBuilding
  import opened Grouping

  // ----- seed tables -----

  function Histogram(syms: seq<nat>, alpha: nat): (f: seq<nat>)
    ensures |f| == alpha && forall s :: 0 <= s < alpha ==> f[s] == CountIn(syms, s)
  {
    seq(alpha, s requires 0 <= s < alpha => CountIn(syms, s))
  }

  lemma SumRange(f: seq<nat>, a: nat, b: nat)
    requires a <= b <= |f|
    ensures Sum(f[a..]) == Sum(f[a..b]) + Sum(f[b..])
  {
    assert f[a..] == f[a..b] + f[b..];
    SumAppend(f[a..b], f[b..]);
  }

  lemma SumRangeNext(f: seq<nat>, a: nat, b: nat)
    requires a <= b < |f|
    ensures Sum(f[a..b + 1]) == Sum(f[a..b]) + f[b]
  {
    assert f[a..b + 1][..b - a] == f[a..b];
  }

  /** Take symbols from `end` on until their total reaches the target. */
  function TakeTo(freq: seq<nat>, gs: nat, end: nat, acc: nat, target: nat): (r: (nat, nat))
    requires gs <= end <= |freq| && acc == Sum(freq[gs..end])
    ensures end <= r.0 <= |freq| && r.1 == Sum(freq[gs..r.0])
    decreases |freq| - end
  {
    if acc < target && end < |freq| then
      SumRangeNext(freq, gs, end);
      TakeTo(freq, gs, end + 1, acc + freq[end], target)
    else (end, acc)
  }

  /** Every other inner part gives its last symbol back. */
  function PartOf(freq: seq<nat>, n: nat, part: nat, gs: nat, target: nat): (r: (nat, nat))
    requires gs <= |freq| && part <= n
    ensures gs <= r.0 <= |freq| && r.1 == Sum(freq[gs..r.0])
  {
    assert freq[gs..gs] == [];
    var (end, acc) := TakeTo(freq, gs, gs, 0, target);
    if end > gs + 1 && part != n && part != 1 && (n - part) % 2 == 1 then
      SumRangeNext(freq, gs, end - 1);
      (end - 1, acc - freq[end - 1])
    else (end, acc)
  }

  /** Length 1 inside the part, 15 outside. */
  function SeedRow(alpha: nat, gs: nat, end: nat): (row: seq<nat>)
    ensures |row| == alpha
  {
    seq(alpha, v requires 0 <= v < alpha => if gs <= v < end then 1 else 15)
  }

  function Seeds(freq: seq<nat>, n: nat, part: nat, gs: nat, remaining: nat): (rows: seq<seq<nat>>)
    requires part <= n && gs <= |freq| && remaining == Sum(freq[gs..])
    ensures |rows| == part && forall t :: 0 <= t < part ==> |rows[t]| == |freq|
    decreases part
  {
    if part == 0 then []
    else
      var (end, acc) := PartOf(freq, n, part, gs, remaining / part);
      SumRange(freq, gs, end);
      Seeds(freq, n, part - 1, end, remaining - acc) + [SeedRow(|freq|, gs, end)]
  }

  lemma {:induction false} HistogramTotal(syms: seq<nat>, alpha: nat)
    requires forall k :: 0 <= k < |syms| ==> syms[k] < alpha
    ensures Sum(Histogram(syms, alpha)) == |syms|
  {
    if syms == [] {
      HistogramEmpty(alpha);
    } else {
      var n := |syms| - 1;
      HistogramTotal(syms[..n], alpha);
      var f, g := Histogram(syms[..n], alpha), Histogram(syms, alpha);
      assert g == f[syms[n] := f[syms[n]] + 1];
      SumBump(f, syms[n]);
    }
  }

  lemma {:induction false} HistogramEmpty(alpha: nat)
    ensures Sum(Histogram([], alpha)) == 0
  {
    if alpha > 0 {
      assert Histogram([], alpha)[..alpha - 1] == Histogram([], alpha - 1);
      HistogramEmpty(alpha - 1);
    }
  }

  lemma SumBump(f: seq<nat>, i: nat)
    requires i < |f|
    ensures Sum(f[i := f[i] + 1]) == Sum(f) + 1
  {
    var g := f[i := f[i] + 1];
    SumRangeNext(f, 0, i);
    SumRangeNext(g, 0, i);
    assert f[0..i] == g[0..i] && f[i + 1..] == g[i + 1..] && f[0..] == f && g[0..] == g;
    SumRange(f, 0, i + 1);
    SumRange(g, 0, i + 1);
  }

  function Initial(syms: seq<nat>, alpha: nat, n: nat): (rows: seq<seq<nat>>)
    requires Stream(syms, alpha)
    ensures |rows| == n && forall t :: 0 <= t < n ==> |rows[t]| == alpha
  {
    HistogramTotal(syms, alpha);
    var freq := Histogram(syms, alpha);
    assert freq[0..] == freq;
    Seeds(freq, n, n, 0, |syms|)
  }

  /** Symbol `s` has length 1 in table `t` and 15 in every other. */
  predicate SeededIn(rows: seq<seq<nat>>, s: nat, t: nat) {
    t < |rows| && forall u :: 0 <= u < |rows| ==> s < |rows[u]| && rows[u][s] == if u == t then 1 else 15
  }

  /** The part that begins at `gs` gives the last row. */
  lemma SeedsLast(freq: seq<nat>, n: nat, part: nat, gs: nat, remaining: nat, end: nat, acc: nat)
    requires 0 < part <= n && gs <= |freq| && remaining == Sum(freq[gs..])
    requires (end, acc) == PartOf(freq, n, part, gs, remaining / part)
    ensures gs <= end <= |freq| && acc <= remaining && remaining - acc == Sum(freq[end..])
    ensures Seeds(freq, n, part, gs, remaining)
      == Seeds(freq, n, part - 1, end, remaining - acc) + [SeedRow(|freq|, gs, end)]
  {
    SumRange(freq, gs, end);
  }

  ghost predicate SeededOnce(rows: seq<seq<nat>>, s: nat) {
    exists t: nat :: SeededIn(rows, s, t)
  }

  lemma {:induction false} SeedsBehind(freq: seq<nat>, n: nat, part: nat, gs: nat, remaining: nat, s: nat)
    requires part <= n && gs <= |freq| && remaining == Sum(freq[gs..]) && s < gs
    ensures var rows := Seeds(freq, n, part, gs, remaining); forall u :: 0 <= u < part ==> rows[u][s] == 15
    decreases part
  {
    hide PartOf, Sum, Seeds;
    if part > 0 {
      var (end, acc) := PartOf(freq, n, part, gs, remaining / part);
      SeedsLast(freq, n, part, gs, remaining, end, acc);
      SeedsBehind(freq, n, part - 1, end, remaining - acc, s);
    }
  }

  /** Taking until the target is met leaves nothing when the target is everything. */
  lemma LastPartTakesAll(freq: seq<nat>, n: nat, gs: nat, remaining: nat, s: nat)
    requires 1 <= n && gs <= |freq| && remaining == Sum(freq[gs..])
    requires PartOf(freq, n, 1, gs, remaining).0 <= s < |freq|
    ensures freq[s] == 0
  {
    assert freq[gs..gs] == [];
    var (end, acc) := TakeTo(freq, gs, gs, 0, remaining);
    TakesEnough(freq, gs, gs, 0, remaining);
    SumRange(freq, gs, end);
    SumAtLeastOne(freq[end..], s - end);
  }

  lemma {:induction false} TakesEnough(freq: seq<nat>, gs: nat, end: nat, acc: nat, target: nat)
    requires gs <= end <= |freq| && acc == Sum(freq[gs..end])
    ensures var r := TakeTo(freq, gs, end, acc, target);
      (r.0 == |freq| || r.1 >= target) && forall k :: end <= k < r.0 ==> Sum(freq[gs..k]) < target
    decreases |freq| - end
  {
    if acc < target && end < |freq| {
      SumRangeNext(freq, gs, end);
      TakesEnough(freq, gs, end + 1, acc + freq[end], target);
    }
  }

  /** The symbols from `gs` on first reach the target in front of `f`, or not at all. */
  predicate FirstReach(freq: seq<nat>, gs: nat, target: nat, f: nat) {
    && gs <= f <= |freq| && (f == |freq| || Sum(freq[gs..f]) >= target)
    && forall k :: gs <= k < f ==> Sum(freq[gs..k]) < target
  }

  /** A part ends where its symbols first reach the target, less the last of them in every other inner part that
      has more than one. */
  lemma PartEnds(freq: seq<nat>, n: nat, part: nat, gs: nat, target: nat, f: nat)
    requires 0 < part <= n && FirstReach(freq, gs, target, f)
    ensures PartOf(freq, n, part, gs, target).0 ==
      if f > gs + 1 && 1 < part < n && (n - part) % 2 == 1 then f - 1 else f
  {
    assert freq[gs..gs] == [];
    TakesEnough(freq, gs, gs, 0, target);
    var e := TakeTo(freq, gs, gs, 0, target).0;
    assert FirstReach(freq, gs, target, e);
  }

  lemma {:induction false} SeedsCover(freq: seq<nat>, n: nat, part: nat, gs: nat, remaining: nat, s: nat)
    returns (t: nat)
    requires 1 <= part <= n && gs <= s < |freq| && remaining == Sum(freq[gs..]) && freq[s] > 0
    ensures SeededIn(Seeds(freq, n, part, gs, remaining), s, t)
    decreases part
  {
    hide PartOf, Sum, Seeds;
    var (end, acc) := PartOf(freq, n, part, gs, remaining / part);
    SeedsLast(freq, n, part, gs, remaining, end, acc);
    if s < end {
      SeedsBehind(freq, n, part - 1, end, remaining - acc, s);
      t := part - 1;
    } else {
      if part == 1 { LastPartTakesAll(freq, n, gs, remaining, s); }
      t := SeedsCover(freq, n, part - 1, end, remaining - acc, s);
    }
  }

  /** The seed tables share out the symbols: each one that occurs is cheap in exactly one of them. */
  lemma InitialCovers(syms: seq<nat>, alpha: nat, n: nat, k: nat)
    requires Stream(syms, alpha) && n >= 1 && k < |syms|
    ensures SeededOnce(Initial(syms, alpha, n), syms[k])
  {
    hide Seeds, Sum;
    HistogramTotal(syms, alpha);
    OccursCounts(syms, k);
    var freq := Histogram(syms, alpha);
    assert freq[0..] == freq;
    var t := SeedsCover(freq, n, n, 0, |syms|, syms[k]);
    assert SeededIn(Initial(syms, alpha, n), syms[k], t);
  }

  lemma {:induction false} OccursCounts(syms: seq<nat>, k: nat)
    requires k < |syms|
    ensures CountIn(syms, syms[k]) > 0
  {
    if k < |syms| - 1 { OccursCounts(syms[..|syms| - 1], k); }
  }

  method CountSymbols(syms: seq<nat>, alpha: nat) returns (freq: seq<nat>)
    requires Stream(syms, alpha)
    ensures freq == Histogram(syms, alpha)
  {
    freq := seq(alpha, _ => 0);
    var i := 0;
    while i < |syms|
      invariant 0 <= i <= |syms| && freq == Histogram(syms[..i], alpha)
    {
      assert syms[..i + 1][..i] == syms[..i];
      freq := freq[syms[i] := freq[syms[i]] + 1];
      i := i + 1;
    }
    assert syms[..i] == syms;
  }

  /** Where one part ends, and its total. */
  method FindPart(freq: seq<nat>, n: nat, part: nat, gs: nat, target: nat) returns (end: nat, acc: nat)
    requires gs <= |freq| && part <= n
    ensures (end, acc) == PartOf(freq, n, part, gs, target)
  {
    end, acc := gs, 0;
    assert freq[gs..gs] == [];
    while acc < target && end < |freq|
      invariant gs <= end <= |freq| && acc == Sum(freq[gs..end])
      invariant TakeTo(freq, gs, end, acc, target) == TakeTo(freq, gs, gs, 0, target)
      decreases |freq| - end
    {
      SumRangeNext(freq, gs, end);
      acc := acc + freq[end];
      end := end + 1;
    }
    if end > gs + 1 && part != n && part != 1 && (n - part) % 2 == 1 {
      SumRangeNext(freq, gs, end - 1);
      acc := acc - freq[end - 1];
      end := end - 1;
    }
  }

  lemma SeedsStep(freq: seq<nat>, n: nat, part: nat, gs: nat, remaining: nat, end: nat, acc: nat, done: seq<seq<nat>>)
    requires 0 < part <= n && gs <= |freq| && remaining == Sum(freq[gs..])
    requires (end, acc) == PartOf(freq, n, part, gs, remaining / part)
    ensures end <= |freq| && acc <= remaining && remaining - acc == Sum(freq[end..])
    ensures Seeds(freq, n, part, gs, remaining) + done
      == Seeds(freq, n, part - 1, end, remaining - acc) + ([SeedRow(|freq|, gs, end)] + done)
  {
    SeedsLast(freq, n, part, gs, remaining, end, acc);
    var head, row := Seeds(freq, n, part - 1, end, remaining - acc), [SeedRow(|freq|, gs, end)];
    assert head + row + done == head + (row + done);
  }

  method InitialLengths(syms: seq<nat>, alpha: nat, n: nat) returns (lens: seq<seq<nat>>)
    requires Stream(syms, alpha) && n >= 1
    ensures lens == Initial(syms, alpha, n)
    ensures forall k :: 0 <= k < |syms| ==> SeededOnce(lens, syms[k])
  {
    hide Histogram, Sum, PartOf, SeedRow, SeededOnce;
    var freq := CountSymbols(syms, alpha);
    HistogramTotal(syms, alpha);
    assert freq[0..] == freq;
    lens := [];
    var remaining: nat, gs: nat, part: nat := |syms|, 0, n;
    assert Seeds(freq, n, part, gs, remaining) + lens == Initial(syms, alpha, n);
    while part > 0
      invariant part <= n && gs <= |freq| && remaining == Sum(freq[gs..])
      invariant Seeds(freq, n, part, gs, remaining) + lens == Initial(syms, alpha, n)
      decreases part
    {
      var end, acc := FindPart(freq, n, part, gs, remaining / part);
      SeedsStep(freq, n, part, gs, remaining, end, acc, lens);
      lens := [SeedRow(alpha, gs, end)] + lens;
      part := part - 1;
      gs := end;
      remaining := remaining - acc;
    }
    assert [] + lens == lens;
    forall k | 0 <= k < |syms| ensures SeededOnce(lens, syms[k]) { InitialCovers(syms, alpha, n, k); }
  }

  // ----- refinement -----

  lemma CountInNext(syms: seq<nat>, k: nat, s: nat)
    requires k < |syms|
    ensures CountIn(syms[..k + 1], s) == CountIn(syms[..k], s) + if syms[k] == s then 1 else 0
  {
    assert syms[..k + 1][..k] == syms[..k];
  }

  ghost predicate Frequencies(rfreq: array2<nat>, syms: seq<nat>, sel: seq<nat>, g: nat)
    requires g <= |sel| == Groups(|syms|)
    reads rfreq
  {
    forall t: nat, s: nat :: t < rfreq.Length0 && s < rfreq.Length1 ==> rfreq[t, s] == Frequency(syms, sel, t, s, g)
  }

  /** How often each symbol is coded with each table. */
  method CountFrequencies(syms: seq<nat>, alpha: nat, sel: seq<nat>, n: nat) returns (rfreq: array2<nat>)
    requires Stream(syms, alpha) && |sel| == Groups(|syms|) && forall g :: 0 <= g < |sel| ==> sel[g] < n
    ensures fresh(rfreq) && rfreq.Length0 == n && rfreq.Length1 == alpha && Frequencies(rfreq, syms, sel, |sel|)
  {
    rfreq := new nat[n, alpha]((_, _) => 0);
    var g := 0;
    while g < |sel|
      invariant 0 <= g <= |sel| && Frequencies(rfreq, syms, sel, g)
    {
      CountGroup(rfreq, syms, alpha, sel, g);
      g := g + 1;
    }
  }

  method CountGroup(rfreq: array2<nat>, syms: seq<nat>, alpha: nat, sel: seq<nat>, g: nat)
    requires Stream(syms, alpha) && g < |sel| == Groups(|syms|) && sel[g] < rfreq.Length0 && rfreq.Length1 == alpha
    requires Frequencies(rfreq, syms, sel, g)
    modifies rfreq
    ensures Frequencies(rfreq, syms, sel, g + 1)
  {
    var group, t, k := GroupOf(syms, g), sel[g], 0;
    while k < |group|
      invariant 0 <= k <= |group|
      invariant forall u: nat, s: nat :: u < rfreq.Length0 && s < alpha ==>
        rfreq[u, s] == Frequency(syms, sel, u, s, g) + if u == t then CountIn(group[..k], s) else 0
    {
      forall s: nat ensures CountIn(group[..k + 1], s) == CountIn(group[..k], s) + if group[k] == s then 1 else 0 {
        CountInNext(group, k, s);
      }
      rfreq[t, group[k]] := rfreq[t, group[k]] + 1;
      k := k + 1;
    }
    assert group[..k] == group;
  }

  /** One refinement pass. */
  method Refine(syms: seq<nat>, alpha: nat, lens0: seq<seq<nat>>) returns (lens: seq<seq<nat>>)
    requires Tables(lens0, alpha) && Stream(syms, alpha)
    ensures lens == Refined(syms, alpha, lens0)
  {
    var selectors := AssignSelectors(syms, alpha, lens0);
    var rfreq := CountFrequencies(syms, alpha, selectors, |lens0|);
    lens := lens0;
    var t := 0;
    while t < |lens0|
      invariant 0 <= t <= |lens0| == |lens|
      invariant forall u :: 0 <= u < t ==> lens[u] == Refined(syms, alpha, lens0)[u]
      invariant Frequencies(rfreq, syms, selectors, |selectors|)
    {
      var weights := seq(alpha, s requires 0 <= s < alpha reads rfreq => Positive(rfreq[t, s]));
      forall s: nat | s < alpha ensures weights[s] == Positive(Frequency(syms, selectors, t, s, |selectors|)) {
        assert rfreq[t, s] == Frequency(syms, selectors, t, s, |selectors|);
      }
      assert weights == Weights(syms, alpha, selectors, t);
      AlphabetAdmissible(weights);
      var row := PackageMergeLengths(weights, ENCODE_MAX);
      lens := lens[t := row];
      t := t + 1;
    }
  }

  method RefineTimes(syms: seq<nat>, alpha: nat, lens0: seq<seq<nat>>, times: nat) returns (lens: seq<seq<nat>>)
    requires Tables(lens0, alpha) && Stream(syms, alpha)
    ensures lens == RefinedTimes(syms, alpha, lens0, times)
  {
    lens := lens0;
    var k := 0;
    while k < times
      invariant k <= times && lens == RefinedTimes(syms, alpha, lens0, k)
    {
      lens := Refine(syms, alpha, lens);
      k := k + 1;
    }
  }

  // ----- the coding -----

  datatype Coding = Coding(nGroups: nat, selectors: seq<nat>, lens: seq<seq<nat>>, codes: seq<seq<nat>>)

  /** The code lengths a symbol stream gets. */
  function CodingLens(syms: seq<nat>, alpha: nat): (lens: seq<seq<nat>>)
    requires Stream(syms, alpha)
    ensures |lens| == GroupCount(|syms|) && Tables(lens, alpha)
  {
    RefinedTimes(syms, alpha, Initial(syms, alpha, GroupCount(|syms|)), N_ITERS)
  }

  /** The tables are the seeds, refined four times. */
  lemma FourPasses(syms: seq<nat>, alpha: nat)
    requires Stream(syms, alpha)
    ensures var seeds := Initial(syms, alpha, GroupCount(|syms|));
      CodingLens(syms, alpha)
        == Refined(syms, alpha, Refined(syms, alpha, Refined(syms, alpha, Refined(syms, alpha, seeds))))
  {
    hide Refined;
    var seeds := Initial(syms, alpha, GroupCount(|syms|));
    assert RefinedTimes(syms, alpha, seeds, 1) == Refined(syms, alpha, seeds);
    assert RefinedTimes(syms, alpha, seeds, 2) == Refined(syms, alpha, RefinedTimes(syms, alpha, seeds, 1));
    assert RefinedTimes(syms, alpha, seeds, 3) == Refined(syms, alpha, RefinedTimes(syms, alpha, seeds, 2));
  }

  function CodingSelectors(syms: seq<nat>, alpha: nat): (sel: seq<nat>)
    requires Stream(syms, alpha)
    ensures |sel| == Groups(|syms|) && forall g :: 0 <= g < |sel| ==> sel[g] < GroupCount(|syms|)
  {
    Selectors(syms, alpha, CodingLens(syms, alpha))
  }

  /** Every table a block is written with is complete, with lengths the decoder accepts. */
  lemma CodingComplete(syms: seq<nat>, alpha: nat, t: nat)
    requires Stream(syms, alpha) && t < GroupCount(|syms|)
    ensures Prefixable(CodingLens(syms, alpha)[t], ENCODE_MAX)
    ensures Kraft(CodingLens(syms, alpha)[t], ENCODE_MAX) == Pow2(ENCODE_MAX)
  {
    var rows := Initial(syms, alpha, GroupCount(|syms|));
    RefinedComplete(syms, alpha, RefinedTimes(syms, alpha, rows, N_ITERS - 1), t);
  }

  ghost predicate RowHasCodes(lens: seq<nat>, codes: seq<nat>) {
    |codes| == |lens| && forall s :: 0 <= s < |lens| ==> HasCode(lens, codes, s)
  }

  ghost predicate HasCodes(lens: seq<seq<nat>>, codes: seq<seq<nat>>, t: nat)
    requires t < |lens| == |codes|
  {
    RowHasCodes(lens[t], codes[t])
  }

  method AllCodes(ghost syms: seq<nat>, alpha: nat, lens: seq<seq<nat>>) returns (codes: seq<seq<nat>>)
    requires Stream(syms, alpha) && lens == CodingLens(syms, alpha)
    ensures |codes| == |lens| && forall t :: 0 <= t < |lens| ==> HasCodes(lens, codes, t)
  {
    hide CodingLens, Kraft, HasCode;
    codes := [];
    while |codes| < |lens|
      invariant |codes| <= |lens|
      invariant forall u :: 0 <= u < |codes| ==> RowHasCodes(lens[u], codes[u])
      decreases |lens| - |codes|
    {
      CodingComplete(syms, alpha, |codes|);
      var row := CanonicalCodes(lens[|codes|]);
      assert RowHasCodes(lens[|codes|], row);
      codes := codes + [row];
    }
  }

  /** Build the grouped coding of one block's symbol stream. */
  method BuildCoding(syms: seq<nat>, alpha: nat) returns (c: Coding)
    requires Stream(syms, alpha)
    ensures c.nGroups == GroupCount(|syms|) && c.lens == CodingLens(syms, alpha)
    ensures c.selectors == CodingSelectors(syms, alpha)
    ensures |c.codes| == c.nGroups && forall t :: 0 <= t < c.nGroups ==> HasCodes(c.lens, c.codes, t)
  {
    var n := GroupCount(|syms|);
    var lens := InitialLengths(syms, alpha, n);
    lens := RefineTimes(syms, alpha, lens, N_ITERS);
    var selectors := AssignSelectors(syms, alpha, lens);
    var codes := AllCodes(syms, alpha, lens);
    c := Coding(n, selectors, lens, codes);
  }
}
